// 8.3 names in FAT32 directory entries (labs/19-fat32-readonly/code/fat32-helpers.c):
// which names are legal, how they are laid out in the 11-byte field and read back,
// and looking one up in a directory.
module Fat32Names {

  const FIELD := 11
  const LONG_FILE_NAME := 0x0F
  const DELETED := '\U{00E5}'

  predicate IsNameChar(c: char) {
    'A' <= c <= 'Z' || '0' <= c <= '9'
  }

  predicate AllNameChars(s: string) {
    forall i | 0 <= i < |s| :: IsNameChar(s[i])
  }

  /** BASE.EXT: up to eight characters, a dot, and exactly three. */
  predicate IsDotted(name: string) {
    && 5 <= |name| <= 12
    && name[|name| - 4] == '.'
    && AllNameChars(Base(name)) && AllNameChars(Ext(name))
  }

  function Base(name: string): string
    requires |name| >= 4
  {
    name[..|name| - 4]
  }

  function Ext(name: string): string
    requires |name| >= 4
  {
    name[|name| - 3..]
  }

  /** A bare name of up to eight characters. */
  predicate IsPlain(name: string) {
    1 <= |name| <= 8 && AllNameChars(name)
  }

  /** The legal names. */
  predicate IsValid(name: string) {
    IsDotted(name) || IsPlain(name)
  }

  lemma PlainHasNoDot(name: string)
    requires AllNameChars(name)
    ensures '.' !in name
  {
  }

  /** The legal names spelled out: one to eight capitals and digits, or such a base of at most eight, a dot and three more. */
  lemma ValidSpelledOut(name: string)
    ensures IsValid(name) <==>
      || (1 <= |name| <= 8 && forall i | 0 <= i < |name| :: 'A' <= name[i] <= 'Z' || '0' <= name[i] <= '9')
      || (5 <= |name| <= 12 && forall i | 0 <= i < |name| ::
           if i == |name| - 4 then name[i] == '.' else 'A' <= name[i] <= 'Z' || '0' <= name[i] <= '9')
  {
    if 5 <= |name| <= 12 {
      assert forall i | 0 <= i < |name| - 4 :: Base(name)[i] == name[i];
      assert forall i | 0 <= i < 3 :: Ext(name)[i] == name[|name| - 3 + i];
      assert forall i | |name| - 3 <= i < |name| :: name[i] == Ext(name)[i - (|name| - 3)];
    }
  }

  /** fat32_is_valid_name. */
  method IsValidName(name: string) returns (r: bool)
    ensures r <==> IsValid(name)
  {
    var n := |name|;
    var hasDot := HasDot(name);
    if hasDot {
      if n > 12 || n < 5 || name[n - 4] != '.' {
        NotPlain(name);
        return false;
      }
      for i := 0 to n
        invariant forall j | 0 <= j < i && j != n - 4 :: IsNameChar(name[j])
      {
        if !IsNameChar(name[i]) && i != n - 4 {
          NotPlain(name);
          assert i < n - 4 ==> Base(name)[i] == name[i];
          assert i > n - 4 ==> Ext(name)[i - (n - 3)] == name[i];
          return false;
        }
      }
      assert IsDotted(name);
    } else {
      if n > 8 || n < 1 {
        return false;
      }
      for i := 0 to n
        invariant forall j | 0 <= j < i :: IsNameChar(name[j])
      {
        if !IsNameChar(name[i]) {
          return false;
        }
      }
    }
    return true;
  }

  lemma NotPlain(name: string)
    requires '.' in name
    ensures !IsPlain(name)
  {
    if IsPlain(name) {
      PlainHasNoDot(name);
      assert false;
    }
  }

  /** The scan for a dot. */
  method HasDot(name: string) returns (hasDot: bool)
    ensures hasDot <==> '.' in name
  {
    hasDot := false;
    for i := 0 to |name|
      invariant hasDot <==> '.' in name[..i]
    {
      assert name[..i + 1] == name[..i] + [name[i]];
      if name[i] == '.' {
        hasDot := true;
      }
    }
    assert name[..|name|] == name;
  }

  function Spaces(n: nat): (s: string)
    ensures |s| == n
  {
    seq(n, _ => ' ')
  }

  /** The field a legal name is stored as. */
  function Field(name: string): (f: string)
    requires IsValid(name)
    ensures |f| == FIELD
  {
    if IsDotted(name) then Base(name) + Spaces(8 - |Base(name)|) + Ext(name) else name + Spaces(FIELD - |name|)
  }

  /** Where the characters go: the base at 0, the extension at 8, blanks everywhere else. */
  lemma FieldPlaces(name: string)
    requires IsValid(name)
    ensures var f, n := Field(name), |name|;
      if n >= 5 && name[n - 4] == '.' then
        && (forall i | 0 <= i < 8 :: f[i] == if i < n - 4 then name[i] else ' ')
        && f[8] == name[n - 3] && f[9] == name[n - 2] && f[10] == name[n - 1]
      else forall i | 0 <= i < 11 :: f[i] == if i < n then name[i] else ' '
  {
    if '.' in name {
      NotPlain(name);
    }
  }

  /** fat32_dirent_set_name: blanks first, then the pieces of the name over them. */
  method DirentSetName(filename: array<char>, name: string)
    requires filename.Length == FIELD && IsValid(name)
    modifies filename
    ensures filename[..] == Field(name)
  {
    var n := |name|;
    var hasDot := HasDot(name);
    Fill(filename, Spaces(FIELD), 0);
    if hasDot {
      if IsPlain(name) {
        NotPlain(name);
        assert false;
      }
      Fill(filename, name[..n - 4], 0);
      Fill(filename, name[n - 3..], 8);
    } else {
      assert !IsDotted(name) by { assert n >= 4 ==> name[n - 4] in name; }
      Fill(filename, name, 0);
    }
  }

  /** memset and memcpy into the field. */
  method Fill(a: array<char>, s: string, at: nat)
    requires at + |s| <= a.Length
    modifies a
    ensures a[..] == old(a[..at]) + s + old(a[at + |s|..])
  {
    for i := 0 to |s|
      invariant forall j | 0 <= j < a.Length :: a[j] == if at <= j < at + i then s[j - at] else old(a[j])
    {
      a[at + i] := s[i];
    }
  }

  /** The base without its trailing blanks. */
  function TrimRight(s: string): (t: string)
    ensures t <= s && (t != [] ==> t[|t| - 1] != ' ')
    ensures forall i | |t| <= i < |s| :: s[i] == ' '
  {
    if s == [] || s[|s| - 1] != ' ' then s else TrimRight(s[..|s| - 1])
  }

  /** What a field reads as. */
  function Shown(field: string): string
    requires |field| == FIELD
  {
    TrimRight(field[..8]) + "." + field[8..]
  }

  predicate HasBase(field: string)
    requires |field| == FIELD
  {
    TrimRight(field[..8]) != []
  }

  /** The scan of to_8dot3 back over the blanks: where the dot goes, which is before a base that is all blanks. */
  method BaseLength(s: array<char>) returns (i: int)
    requires s.Length >= 8
    ensures i == if TrimRight(s[..8]) == [] then -1 else |TrimRight(s[..8])|
  {
    var k := 7;
    while k >= 0
      invariant -1 <= k <= 7
      invariant forall j | k < j < 8 :: s[j] == ' '
    {
      if s[k] != ' ' {
        TrimIs(s[..8], k + 1);
        return k + 1;
      }
      k := k - 1;
    }
    TrimIs(s[..8], 0);
    return k;
  }

  /** What becomes of a field: a name, or a store before the start of the buffer it is built in. */
  datatype Rendering = Name(name: string) | StoresBeforeBuffer

  /** to_8dot3: the name, exactly if the field has a base; otherwise the dot is stored at index -1. */
  method To8dot3(p: seq<char>) returns (r: Rendering)
    requires |p| == FIELD
    ensures r == if HasBase(p) then Name(Shown(p)) else StoresBeforeBuffer
  {
    var s := new char[14](_ => '\0');
    Fill(s, p[..8], 0);
    assert s[..8] == p[..8];
    var i := BaseLength(s);
    if i < 0 {
      return StoresBeforeBuffer;
    }
    assert s[..i] == TrimRight(p[..8]);
    var name := AddSuffix(s, i, p[8..]);
    return Name(name);
  }

  /** The fields without a base: those that start with eight blanks. */
  lemma HasNoBaseIff(field: string)
    requires |field| == FIELD
    ensures !HasBase(field) <==> field[..8] == Spaces(8)
  {
    if field[..8] == Spaces(8) {
      TrimIs(field[..8], 0);
    }
  }

  /** The end of to_8dot3: a dot and the extension behind the base. */
  method AddSuffix(s: array<char>, i: nat, suffix: seq<char>) returns (name: string)
    requires i + 1 + |suffix| <= s.Length
    modifies s
    ensures name == old(s[..i]) + "." + suffix
  {
    s[i] := '.';
    assert s[..i + 1] == old(s[..i]) + ".";
    Fill(s, suffix, i + 1);
    return s[..i + 1 + |suffix|];
  }

  /** Trimming is determined by where the blanks begin. */
  lemma {:induction false} TrimIs(s: string, k: nat)
    requires k <= |s| && (k > 0 ==> s[k - 1] != ' ')
    requires forall i | k <= i < |s| :: s[i] == ' '
    ensures TrimRight(s) == s[..k]
  {
    if k < |s| {
      TrimIs(s[..|s| - 1], k);
    }
  }

  // ----- Round trip -----

  /** What a legal name's field reads as: a dotted name as itself, a bare one with a dot and three blanks. */
  function Displayed(name: string): string {
    if IsDotted(name) then name else name + ".   "
  }

  lemma ShownField(name: string)
    requires IsValid(name)
    ensures HasBase(Field(name))
    ensures Shown(Field(name)) == Displayed(name)
  {
    var f := Field(name);
    if IsDotted(name) {
      var b := Base(name);
      assert f[..8][..|b|] == b && f[8..] == Ext(name);
      assert IsNameChar(b[|b| - 1]);
      TrimIs(f[..8], |b|);
      assert name == b + "." + Ext(name);
    } else {
      assert f[..8][..|name|] == name && f[8..] == "   ";
      assert IsNameChar(name[|name| - 1]);
      TrimIs(f[..8], |name|);
    }
  }

  /** The trimmed base determines the eight bytes it was trimmed from. */
  lemma TrimmedWith(s: string)
    ensures s == TrimRight(s) + Spaces(|s| - |TrimRight(s)|)
  {
  }

  /** Among all 11-byte fields, whatever they hold, only a name's own field reads as that name. */
  lemma ShownIdentifies(field: string, name: string)
    requires |field| == FIELD && IsValid(name)
    ensures field == Field(name) <==> Shown(field) == Displayed(name)
  {
    ShownField(name);
    if Shown(field) == Displayed(name) {
      var f := Field(name);
      SplitShown(field);
      SplitShown(f);
      assert field[8..] == f[8..] && TrimRight(field[..8]) == TrimRight(f[..8]);
      TrimmedWith(field[..8]);
      TrimmedWith(f[..8]);
      assert field == field[..8] + field[8..] && f == f[..8] + f[8..];
    }
  }

  /** The last three bytes are the extension, what precedes the dot is the base. */
  lemma SplitShown(field: string)
    requires |field| == FIELD
    ensures var s := Shown(field);
      |s| >= 4 && field[8..] == s[|s| - 3..] && TrimRight(field[..8]) == s[..|s| - 4]
  {
  }

  /** A name with a dot is read back as it was written. */
  lemma DottedNamesRoundTrip(name: string)
    requires IsValid(name) && '.' in name
    ensures HasBase(Field(name)) && Shown(Field(name)) == name
  {
    NotPlain(name);
    ShownField(name);
  }

  /** The name a field stands for. */
  function NameOf(field: string): string
    requires |field| == FIELD
  {
    if field[8..] == "   " then TrimRight(field[..8]) else Shown(field)
  }

  lemma NameOfField(name: string)
    requires IsValid(name)
    ensures NameOf(Field(name)) == name
  {
    ShownField(name);
    if IsDotted(name) {
      assert Field(name)[8..] == Ext(name) && IsNameChar(Ext(name)[0]);
    } else {
      var t := TrimRight(Field(name)[..8]);
      assert Shown(Field(name))[..|t|] == t;
      assert Field(name)[8..] == "   ";
      assert (name + ".   ")[..|name|] == name;
    }
  }

  /** Different legal names, with or without a dot, are stored in different fields. */
  lemma FieldsAreDistinct(m: string, n: string)
    requires IsValid(m) && IsValid(n)
    ensures Field(m) == Field(n) <==> m == n
  {
    NameOfField(m);
    NameOfField(n);
  }

  // ----- Directories -----

  datatype Dirent = Dirent(filename: string, attr: nat)

  /** Allocated, and not a piece of a long file name. */
  predicate IsLive(d: Dirent)
    requires |d.filename| == FIELD
  {
    d.attr != LONG_FILE_NAME && d.filename[0] != '\0' && d.filename[0] != DELETED
  }

  /** fat32_dir_lookup: the first live entry whose field is `raw`, or -1. */
  method DirLookup(raw: string, dirs: seq<Dirent>) returns (r: int)
    requires forall d | d in dirs :: |d.filename| == FIELD
    ensures -1 <= r < |dirs|
    ensures r >= 0 ==> IsLive(dirs[r]) && dirs[r].filename == raw
    ensures forall i | 0 <= i < (if r >= 0 then r else |dirs|) :: !(IsLive(dirs[i]) && dirs[i].filename == raw)
    ensures r >= 0 ==> dirs[r].attr != 0x0F && raw[0] != '\0' && raw[0] != '\U{00E5}'
    ensures r == -1 && |raw| == 11 && raw[0] != '\0' && raw[0] != '\U{00E5}' ==>
      forall d | d in dirs && d.filename == raw :: d.attr == 0x0F
  {
    for i := 0 to |dirs|
      invariant forall j | 0 <= j < i :: !(IsLive(dirs[j]) && dirs[j].filename == raw)
    {
      var d := dirs[i];
      if !IsLive(d) {
        continue;
      }
      if raw == d.filename {
        return i;
      }
    }
    return -1;
  }

  /**
   * Looking up a legal name's field finds the first live entry that reads as that
   * name, and -1 if no live entry does, whatever the directory holds otherwise: free
   * slots, deleted entries, long-name pieces or names no one could have written.
   */
  method LookupName(name: string, dirs: seq<Dirent>) returns (r: int)
    requires IsValid(name) && forall d | d in dirs :: |d.filename| == FIELD
    ensures -1 <= r < |dirs|
    ensures r >= 0 ==> IsLive(dirs[r]) && Shown(dirs[r].filename) == Displayed(name)
    ensures r >= 0 ==> forall n | IsValid(n) && dirs[r].filename == Field(n) :: n == name
    ensures forall i | 0 <= i < (if r >= 0 then r else |dirs|) ::
      IsLive(dirs[i]) ==> Shown(dirs[i].filename) != Displayed(name)
    ensures forall i | 0 <= i < (if r >= 0 then r else |dirs|) ::
      Shown(dirs[i].filename) == Displayed(name) ==> dirs[i].attr == 0x0F
  {
    r := DirLookup(Field(name), dirs);
    forall i | 0 <= i < |dirs|
      ensures dirs[i].filename == Field(name) <==> Shown(dirs[i].filename) == Displayed(name)
    {
      ShownIdentifies(dirs[i].filename, name);
    }
    forall n | IsValid(n) && Field(n) == Field(name)
      ensures n == name
    {
      FieldsAreDistinct(n, name);
    }
  }
}
