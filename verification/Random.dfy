// The additive-feedback generator of libpi/libc/random.c: two pointers walking a
// circular table refine a linear recurrence, seeding is exact modular arithmetic, and
// the state is multiplexed into the caller's buffers and taken up from there.
module Random {
  import opened Common
  import opened Words

  const MAX_TYPES := 5

  function Deg(t: nat): nat
    requires t < MAX_TYPES
  {
    [0, 7, 15, 31, 63][t]
  }

  function Sep(t: nat): nat
    requires t < MAX_TYPES
  {
    [0, 3, 1, 3, 1][t]
  }

  /** The trinomials: x^7 + x^3 + 1, x^15 + x + 1, x^31 + x^3 + 1 and x^63 + x + 1. */
  lemma Trinomials(t: nat)
    requires 1 <= t < MAX_TYPES
    ensures (Deg(t), Sep(t)) == if t == 1 then (7, 3) else if t == 2 then (15, 1) else if t == 3 then (31, 3) else (63, 1)
  {
  }

  // ----- The generator as a value -----

  /** Type 0 keeps one word; the others keep a table and the index of the rear pointer. */
  datatype Gen = Lcg(word: Word) | Additive(kind: nat, table: seq<Word>, rear: nat)
  {
    ghost predicate Valid() {
      Additive? ==> 1 <= kind < MAX_TYPES && |table| == Deg(kind) && rear < Deg(kind)
    }

    function Front(): nat
      requires Valid() && Additive?
    {
      (rear + Sep(kind)) % Deg(kind)
    }

    /** One draw: the state after it and the number drawn. */
    function Draw(): (r: (Gen, Word))
      requires Valid()
      ensures r.0.Valid() && r.0.Lcg? == Lcg? && (Additive? ==> r.0.kind == kind)
    {
      match this
      case Lcg(w) =>
        var v := ToWord(w as int * 1103515245 + 12345) % 0x8000_0000;
        (Lcg(v), v)
      case Additive(t, table, rear) =>
        var v := ToWord(table[Front()] as int + table[rear] as int);
        (Additive(t, table[Front() := v], (rear + 1) % Deg(t)), v / 2)
    }
  }

  /** The generator after `n` draws. */
  function After(g: Gen, n: nat): (r: Gen)
    requires g.Valid()
    ensures r.Valid() && r.Lcg? == g.Lcg? && (g.Additive? ==> r.kind == g.kind)
  {
    if n == 0 then g else After(g, n - 1).Draw().0
  }

  /** The k-th number drawn, counting from 0. */
  function Output(g: Gen, k: nat): Word
    requires g.Valid()
  {
    After(g, k).Draw().1
  }

  lemma {:induction false} AfterAdds(g: Gen, m: nat, n: nat)
    requires g.Valid()
    ensures After(After(g, m), n) == After(g, m + n)
  {
    hide Gen.Draw;
    if n > 0 {
      AfterAdds(g, m, n - 1);
    }
  }

  // ----- The recurrence -----

  /** x(n) = x(n - d) + x(n - s) modulo 2^32, from d given words. */
  function Recurrence(seeds: seq<Word>, s: nat, n: nat): Word
    requires 0 < s < |seeds|
  {
    if n < |seeds| then seeds[n]
    else ToWord(Recurrence(seeds, s, n - |seeds|) as int + Recurrence(seeds, s, n - s) as int)
  }

  /** The table read from the front pointer on. */
  function FromFront(g: Gen): (s: seq<Word>)
    requires g.Valid() && g.Additive?
    ensures |s| == Deg(g.kind)
  {
    var d := Deg(g.kind);
    seq(d, j requires 0 <= j < d => g.table[(g.Front() + j) % d])
  }

  /** After k draws the table, read from the front pointer, holds terms k .. k+d-1. */
  ghost predicate HoldsWindow(g: Gen, seeds: seq<Word>, k: nat)
  {
    && g.Valid() && g.Additive?
    && |seeds| == Deg(g.kind)
    && forall j | 0 <= j < |seeds| ::
         FromFront(g)[j] == Recurrence(seeds, Sep(g.kind), k + j)
  }

  /** The entry j places behind a slot of the circular table. */
  function Behind(table: seq<Word>, f: nat, j: nat): Word
    requires table != []
  {
    table[(f + j) % |table|]
  }

  lemma FromFrontAt(g: Gen, j: nat)
    requires g.Valid() && g.Additive? && j < Deg(g.kind)
    ensures g.Front() < |g.table| == Deg(g.kind) && FromFront(g)[j] == Behind(g.table, g.Front(), j)
  {
  }

  /** Overwriting the front slot and advancing drops the oldest entry and adds the new one. */
  lemma SlideTable(table: seq<Word>, f: nat, v: Word, j: nat)
    requires f < |table| && j < |table|
    ensures var d := |table|;
      Behind(table[f := v], (f + 1) % d, j) == if j == d - 1 then v else Behind(table, f, j + 1)
  {
    var d := |table|;
    WrapIsMod(f + 1, d);
    WrapIsMod((f + 1) % d + j, d);
    if j < d - 1 {
      WrapIsMod(f + (j + 1), d);
    }
  }

  /** The rear pointer trails the front pointer by the separation, around the circle. */
  lemma RearBehindFront(r: nat, s: nat, d: nat)
    requires r < d && 0 < s < d
    ensures (r + s) % d < d
    ensures ((r + s) % d + (d - s)) % d == r
    ensures ((r + s) % d + 0) % d == (r + s) % d
    ensures ((r + 1) % d + s) % d == ((r + s) % d + 1) % d
  {
    WrapIsMod(r + s, d);
    WrapIsMod((r + s) % d + (d - s), d);
    WrapIsMod((r + s) % d, d);
    WrapIsMod(r + 1, d);
    WrapIsMod((r + 1) % d + s, d);
    WrapIsMod((r + s) % d + 1, d);
  }

  lemma PolynomialsFit(t: nat)
    requires 1 <= t < MAX_TYPES
    ensures 0 < Sep(t) < Deg(t)
  {
  }

  /** A draw on a window of the recurrence computes the next term into the front slot. */
  lemma DrawIsNextTerm(g: Gen, seeds: seq<Word>, k: nat)
    requires HoldsWindow(g, seeds, k)
    ensures var d, v := Deg(g.kind), Recurrence(seeds, Sep(g.kind), |seeds| + k);
      g.Draw() == (Additive(g.kind, g.table[g.Front() := v], (g.rear + 1) % d), v / 2)
  {
    PolynomialsFit(g.kind);
    hide Deg, Sep, ToWord;
    var d, s := Deg(g.kind), Sep(g.kind);
    RearBehindFront(g.rear, s, d);
    assert FromFront(g)[0] == Recurrence(seeds, s, k + 0);
    assert FromFront(g)[d - s] == Recurrence(seeds, s, k + (d - s));
    assert k + (d - s) == d + k - s;
  }

  /** What the new front slot's order of reading shows at place j. */
  lemma WindowEntry(g: Gen, g': Gen, v: Word, j: nat)
    requires g.Valid() && g'.Valid() && g.Additive? && g'.Additive? && g'.kind == g.kind && j < Deg(g.kind)
    requires g'.table == g.table[g.Front() := v] && g'.Front() == (g.Front() + 1) % Deg(g.kind)
    ensures FromFront(g')[j] == if j == Deg(g.kind) - 1 then v else FromFront(g)[j + 1]
  {
    hide Deg, Sep, Gen.Front, FromFront, Behind;
    FromFrontAt(g, 0);
    FromFrontAt(g', j);
    SlideTable(g.table, g.Front(), v, j);
    if j < Deg(g.kind) - 1 {
      FromFrontAt(g, j + 1);
    }
  }

  /** The window after the front slot has been overwritten with the next term and passed. */
  lemma WindowSlides(g: Gen, g': Gen, seeds: seq<Word>, k: nat)
    requires HoldsWindow(g, seeds, k) && g'.Valid() && g'.Additive? && g'.kind == g.kind
    requires g'.table == g.table[g.Front() := Recurrence(seeds, Sep(g.kind), |seeds| + k)]
    requires g'.Front() == (g.Front() + 1) % Deg(g.kind)
    ensures HoldsWindow(g', seeds, k + 1)
  {
    PolynomialsFit(g.kind);
    hide Deg, Sep, Recurrence, Gen.Front, FromFront;
    var d := Deg(g.kind);
    forall j | 0 <= j < d
      ensures FromFront(g')[j] == Recurrence(seeds, Sep(g.kind), k + 1 + j)
    {
      WindowEntry(g, g', Recurrence(seeds, Sep(g.kind), d + k), j);
      if j < d - 1 {
        assert k + 1 + j == k + (j + 1);
      } else {
        assert k + 1 + j == d + k;
      }
    }
  }

  /** One draw computes the next term and slides the window by one. */
  lemma DrawSlidesWindow(g: Gen, seeds: seq<Word>, k: nat)
    requires HoldsWindow(g, seeds, k)
    ensures HoldsWindow(g.Draw().0, seeds, k + 1)
    ensures g.Draw().1 == Recurrence(seeds, Sep(g.kind), |seeds| + k) / 2
  {
    PolynomialsFit(g.kind);
    DrawIsNextTerm(g, seeds, k);
    RearBehindFront(g.rear, Sep(g.kind), Deg(g.kind));
    hide Deg, Sep, Recurrence, Gen.Draw;
    WindowSlides(g, g.Draw().0, seeds, k);
  }

  /**
   * The pointer walk is the recurrence: every output is the high 31 bits of a term
   * of x(n) = x(n-d) + x(n-s), seeded with the table as seen from the front pointer.
   */
  lemma {:induction false} PointerWalkRefinesRecurrence(g: Gen, k: nat)
    requires g.Valid() && g.Additive?
    ensures HoldsWindow(After(g, k), FromFront(g), k)
    ensures Output(g, k) == Recurrence(FromFront(g), Sep(g.kind), Deg(g.kind) + k) / 2
  {
    if k > 0 {
      PointerWalkRefinesRecurrence(g, k - 1);
      DrawSlidesWindow(After(g, k - 1), FromFront(g), k - 1);
    } else {
      forall j | 0 <= j < Deg(g.kind)
        ensures FromFront(g)[j] == Recurrence(FromFront(g), Sep(g.kind), 0 + j)
      {
      }
    }
    DrawSlidesWindow(After(g, k), FromFront(g), k);
  }

  /** Term n of x' = 1103515245 * x + 12345 modulo 2^31. */
  function LcgTerm(x: Word, n: nat): Word {
    if n == 0 then x else (1103515245 * (LcgTerm(x, n - 1) as int) + 12345) % 0x8000_0000
  }

  lemma WrapThenMask(x: nat)
    ensures x % TWO32 % 0x8000_0000 == x % 0x8000_0000
  {
    var q, r := x / TWO32, x % TWO32;
    DivModUnique(x, 0x8000_0000, 2 * q + r / 0x8000_0000, r % 0x8000_0000);
  }

  /** A buffer of type 0: wrapping to 32 bits and masking to 31 is one modulus. */
  lemma {:induction false} TypeZeroIsCongruential(word: Word, k: nat)
    ensures After(Lcg(word), k + 1) == Lcg(LcgTerm(word, k + 1))
    ensures Output(Lcg(word), k) == LcgTerm(word, k + 1)
  {
    var x := LcgTerm(word, k);
    if k > 0 {
      TypeZeroIsCongruential(word, k - 1);
    }
    assert After(Lcg(word), 0) == Lcg(word);
    assert After(Lcg(word), k) == Lcg(x);
    WrapThenMask(x as int * 1103515245 + 12345);
  }

  // ----- Seeding -----

  /** 2^31 - 1, the modulus of the multiplicative generator that fills the table. */
  const M := 2147483647

  function Pow(b: int, n: nat): int {
    if n == 0 then 1 else b * Pow(b, n - 1)
  }

  /** The i-th word of a freshly seeded table: 16807^i * seed modulo 2^31 - 1. */
  function SeedWord(seed: Word, i: nat): Word {
    if i == 0 then seed else Pow(16807, i) * Signed(seed) % M
  }

  function SeedTable(seed: Word, d: nat): (s: seq<Word>)
    ensures |s| == d
  {
    seq(d, i requires 0 <= i < d => SeedWord(seed, i))
  }

  /** The seed 0 is replaced by 1. */
  function NonzeroSeed(seed: Word): Word {
    if seed == 0 then 1 else seed
  }

  /** srandom_r as a value: the zero seed becomes 1, and 10 * d draws are thrown away. */
  function Seeded(seed0: Word, t: nat): (g: Gen)
    requires t < MAX_TYPES
    ensures g.Valid() && (g.Lcg? <==> t == 0) && (g.Additive? ==> g.kind == t)
  {
    var seed := NonzeroSeed(seed0);
    if t == 0 then Lcg(seed) else After(Additive(t, SeedTable(seed, Deg(t)), 0), 10 * Deg(t))
  }

  predicate InLong(x: int) {
    -0x8000_0000 <= x < 0x8000_0000
  }

  /** The step of the seeding loop, before the sign correction. */
  function SchrageDifference(word: int): int {
    16807 * TruncMod(word, 127773) - 2836 * TruncDiv(word, 127773)
  }

  lemma TruncParts(word: int)
    requires InLong(word)
    ensures word == 127773 * TruncDiv(word, 127773) + TruncMod(word, 127773)
    ensures -127773 < TruncMod(word, 127773) < 127773
    ensures -16808 < TruncDiv(word, 127773) < 16808
    ensures if word >= 0 then TruncDiv(word, 127773) >= 0 && TruncMod(word, 127773) >= 0
      else TruncDiv(word, 127773) <= 0 && TruncMod(word, 127773) <= 0
  {
  }

  lemma ModIs(a: int, q: int, r: int)
    requires a == M * q + r && 0 <= r < M
    ensures a % M == r
  {
    var d := a / M - q;
    assert M * d == r - a % M;
  }

  /**
   * The divide-first multiplication is exact for every 32-bit word: it yields
   * 16807 * word modulo 2^31 - 1 and no intermediate leaves the signed range.
   */
  lemma SchrageExact(word: int)
    requires InLong(word)
    ensures InLong(16807 * TruncMod(word, 127773)) && InLong(2836 * TruncDiv(word, 127773))
    ensures InLong(SchrageDifference(word))
    ensures var x := SchrageDifference(word);
      (if x < 0 then x + M else x) == 16807 * word % M
  {
    TruncParts(word);
    hide TruncDiv, TruncMod;
    var hi, lo := TruncDiv(word, 127773), TruncMod(word, 127773);
    var x := 16807 * lo - 2836 * hi;
    assert 16807 * word == M * hi + x;
    if x < 0 {
      ModIs(16807 * word, hi - 1, x + M);
    } else {
      ModIs(16807 * word, hi, x);
    }
  }

  lemma MulMod(b: nat, x: int)
    requires b == 16807
    ensures b * (x % M) % M == b * x % M
  {
    var q, r := x / M, x % M;
    assert x == M * q + r;
    assert b * x == M * (b * q) + b * r;
  }

  /** The loop's next word is the next power. */
  lemma NextSeedWord(seed: Word, i: nat)
    ensures SeedWord(seed, 0) == seed
    ensures SeedWord(seed, i + 1) == 16807 * Signed(SeedWord(seed, i)) % M
  {
    var s := Signed(seed);
    if i == 0 {
      assert Pow(16807, 1) == 16807 * Pow(16807, 0) == 16807;
    } else {
      assert Pow(16807, i + 1) * s == 16807 * (Pow(16807, i) * s);
      MulMod(16807, Pow(16807, i) * s);
      assert Signed(SeedWord(seed, i)) == SeedWord(seed, i);
    }
  }

  /** Every later word is a residue modulo 2^31 - 1, and 0 only if the seed itself is 0 modulo it. */
  lemma {:induction false} SeedWordZero(seed: Word, i: nat)
    requires i > 0
    ensures 0 <= SeedWord(seed, i) < M
    ensures SeedWord(seed, i) == 0 <==> Signed(seed) % M == 0
  {
    NextSeedWord(seed, i - 1);
    assert SeedWord(seed, 0) == seed;
    hide SeedWord;
    var w := SeedWord(seed, i - 1);
    TimesGeneratorZero(Signed(w));
    if i > 1 {
      SeedWordZero(seed, i - 1);
      ModIs(w, 0, w);
    }
  }

  /** 16807 is invertible modulo 2^31 - 1. */
  lemma TimesGeneratorZero(x: int)
    ensures 16807 * x % M == 0 <==> x % M == 0
  {
    if 16807 * x % M == 0 {
      ModIs(x, 1407677000 * (16807 * x / M) - 11017 * x, 0);
    }
    if x % M == 0 {
      ModIs(16807 * x, 16807 * (x / M), 0);
    }
  }

  /**
   * Seeding fails to fill the table for exactly two seeds: with 2^31 - 1 or its
   * negation every word after the first is 0; with any other seed every word lies
   * in 1 .. 2^31-2 (the seed 0 having been replaced by 1).
   */
  lemma DegenerateSeeds(seed: Word, i: nat)
    requires i > 0
    ensures var first: Word := if seed == 0 then 1 else seed;
      && (SeedWord(first, i) == 0 <==> seed == 0x7FFF_FFFF || seed == 0x8000_0001)
      && 0 <= SeedWord(first, i) <= 2147483646
  {
    SeedWordZero(NonzeroSeed(seed), i);
  }

  /**
   * What a caller of srandom_r sees: for every seed and type 1-4, the k-th output
   * afterwards is the high 31 bits of term 11d + k of the recurrence whose first d
   * terms are the seeded table rotated left by the separation.
   */
  lemma OutputsAfterSeeding(seed: Word, t: nat, k: nat)
    requires 1 <= t < MAX_TYPES
    ensures var d, s := Deg(t), Sep(t);
      var table := SeedTable(if seed == 0 then 1 else seed, d);
      Output(Seeded(seed, t), k) == Recurrence(table[s..] + table[..s], s, 11 * d + k) / 2
  {
    hide Recurrence, Gen.Draw, SeedTable, After;
    var d, s := Deg(t), Sep(t);
    var table := SeedTable(NonzeroSeed(seed), d);
    var g := Additive(t, table, 0);
    AfterAdds(g, 10 * d, k);
    PointerWalkRefinesRecurrence(g, 10 * d + k);
    assert d + (10 * d + k) == 11 * d + k;
    assert FromFront(g) == table[s..] + table[..s] by {
      WrapIsMod(s, d);
      assert g.Front() == s;
      forall j | 0 <= j < d
        ensures FromFront(g)[j] == (table[s..] + table[..s])[j]
      {
        WrapIsMod(s + j, d);
        assert FromFront(g)[j] == table[(s + j) % d];
      }
    }
  }

  /** Type 0 after seeding: the congruence from the seed itself, 0 standing for 1, with nothing thrown away. */
  lemma TypeZeroAfterSeeding(seed: Word, k: nat)
    ensures Output(Seeded(seed, 0), k) == LcgTerm(if seed == 0 then 1 else seed, k + 1)
  {
    TypeZeroIsCongruential(NonzeroSeed(seed), k);
  }

  // ----- The state multiplexed into the caller's buffers -----

  /** Word 0 of a buffer: the type, multiplexed with the rear pointer. */
  function Header(g: Gen): Word
    requires g.Valid()
  {
    if g.Lcg? then 0 else MAX_TYPES * g.rear + g.kind
  }

  /** A buffer's contents hold g, up to a stale header. */
  ghost predicate HoldsTable(words: seq<Word>, g: Gen)
    requires g.Valid()
  {
    match g
    case Lcg(w) => |words| >= 2 && words[1] == w
    case Additive(t, table, rear) => |words| >= 1 + Deg(t) && words[1..1 + Deg(t)] == table
  }

  /** A buffer that was left through setstate_r (or not touched since initstate_r). */
  ghost predicate Parked(words: seq<Word>, g: Gen)
    requires g.Valid()
  {
    HoldsTable(words, g) && words[0] == Header(g)
  }

  /** What setstate_r reads from a buffer: type by remainder, rear pointer by quotient. */
  function Decode(words: seq<Word>): Option<Gen>
    requires |words| >= 2
  {
    var h := Signed(words[0]);
    var t, rear := TruncMod(h, MAX_TYPES), TruncDiv(h, MAX_TYPES);
    if t < 0 then None
    else if t == 0 then Some(Lcg(words[1]))
    else if 1 + Deg(t) <= |words| && 0 <= rear < Deg(t) then Some(Additive(t, words[1..1 + Deg(t)], rear))
    else None
  }

  /** Division and remainder undo the multiplexing. */
  lemma DecodeUndoesHeader(words: seq<Word>, g: Gen)
    requires g.Valid() && Parked(words, g)
    ensures |words| >= 2 && Decode(words) == Some(g)
  {
  }

  /** What a buffer resumes as when it is left without a new header: at the pointer of the old one. */
  function Abandoned(g: Gen, header: Word): Gen {
    match g
    case Lcg(_) => g
    case Additive(t, table, _) => Additive(t, table, header / MAX_TYPES)
  }

  /** Where the rear pointer is after n steps around the circle. */
  function RearAt(r: nat, n: nat, d: nat): (p: nat)
    requires r < d
    ensures p < d
  {
    (r + n % d) % d
  }

  lemma RearStep(r: nat, n: nat, d: nat)
    requires r < d
    ensures RearAt(r, 0, d) == r
    ensures (RearAt(r, n, d) + 1) % d == RearAt(r, n + 1, d)
  {
    WrapIsMod(r + 0, d);
    WrapIsMod(0, d);
    ModSucc(n, d);
    WrapIsMod(r + n % d, d);
    WrapIsMod((r + n % d) % d + 1, d);
    WrapIsMod(r + (n + 1) % d, d);
  }

  lemma DrawCases(g: Gen)
    requires g.Valid()
    ensures g.Lcg? ==>
      var v := ToWord(g.word as int * 1103515245 + 12345) % 0x8000_0000; g.Draw() == (Lcg(v), v)
    ensures g.Additive? ==>
      var f, v := g.Front(), ToWord(g.table[g.Front()] as int + g.table[g.rear] as int);
      g.Draw() == (Additive(g.kind, g.table[f := v], (g.rear + 1) % Deg(g.kind)), v / 2)
  {
  }

  lemma DrawAdvances(g: Gen)
    requires g.Valid() && g.Additive?
    ensures g.Draw().0.rear == (g.rear + 1) % Deg(g.kind)
  {
  }

  lemma {:induction false} RearAfter(g: Gen, n: nat)
    requires g.Valid() && g.Additive?
    ensures After(g, n).rear == RearAt(g.rear, n, Deg(g.kind))
  {
    hide Deg, Gen.Draw, RearAt;
    var d := Deg(g.kind);
    RearStep(g.rear, 0, d);
    if n > 0 {
      RearAfter(g, n - 1);
      DrawAdvances(After(g, n - 1));
      RearStep(g.rear, n - 1, d);
    }
  }

  lemma FullTurns(r: nat, n: nat, d: nat)
    requires r < d
    ensures RearAt(r, n, d) == r <==> n % d == 0
  {
    WrapIsMod(r + n % d, d);
  }

  /** A generator that is taken up at an old pointer is where it was exactly after full turns. */
  lemma AbandonedIffFullTurns(g: Gen, drawn: nat)
    requires g.Valid() && g.Additive?
    ensures Abandoned(After(g, drawn), Header(g)) == After(g, drawn) <==> drawn % Deg(g.kind) == 0
  {
    hide Deg, RearAt, After;
    RearAfter(g, drawn);
    FullTurns(g.rear, drawn, Deg(g.kind));
    assert Header(g) / MAX_TYPES == g.rear;
  }

  /** An old header of the right type decodes to its own pointer. */
  lemma DecodesOldHeader(words: seq<Word>, g: Gen, stale: Gen)
    requires g.Valid() && stale.Valid() && g.Additive? && stale.Additive? && g.kind == stale.kind
    requires HoldsTable(words, g) && words[0] == Header(stale)
    ensures |words| >= 2 && Decode(words) == Some(Abandoned(g, words[0]))
  {
  }

  /**
   * A buffer resumes where it stopped exactly when its header is current. initstate_r
   * does not refresh the header of the buffer it abandons, so a buffer left that way
   * resumes correctly only if its draws were a multiple of the degree.
   */
  lemma ResumesIffHeaderCurrent(words: seq<Word>, g: Gen, drawn: nat)
    requires g.Valid() && g.Additive? && HoldsTable(words, After(g, drawn))
    requires words[0] == Header(g)
    ensures |words| >= 2
    ensures Decode(words) == Some(After(g, drawn)) <==> drawn % Deg(g.kind) == 0
  {
    hide After, Decode, Abandoned;
    DecodesOldHeader(words, After(g, drawn), g);
    AbandonedIffFullTurns(g, drawn);
  }

  /** The live generator: the buffer in use and the pointers into it. */
  class RandomData {
    var buffer: array<Word>   // word 0 is the header; the table follows
    var kind: int
    var deg: nat
    var sep: nat
    var rptr: nat             // index into the table
    var fptr: nat

    ghost predicate Valid()
      reads this
    {
      && 0 <= kind < MAX_TYPES && deg == Deg(kind) && sep == Sep(kind)
      && buffer.Length >= 2 && buffer.Length >= 1 + deg
      && (kind != 0 ==> rptr < deg && fptr == (rptr + sep) % deg)
    }

    ghost function View(): (g: Gen)
      requires Valid()
      reads this, buffer
      ensures g.Valid() && HoldsTable(buffer[..], g)
    {
      if kind == 0 then Lcg(buffer[1]) else Additive(kind, buffer[1..1 + deg], rptr)
    }

    /** random_r. */
    method RandomR() returns (result: Word)
      requires Valid()
      modifies this`fptr, this`rptr, buffer
      ensures Valid() && (View(), result) == old(View()).Draw()
      ensures buffer[0] == old(buffer[0])
    {
      DrawCases(View());
      hide Gen.Draw, Deg, Sep, ToWord, HoldsTable;
      if kind == 0 {
        var val := ToWord(buffer[1] as int * 1103515245 + 12345) % 0x8000_0000;
        buffer[1] := val;
        result := val;
      } else {
        var val := AddRear();
        result := val / 2;
        StepPointers();
      }
    }

    /** The rear entry is added into the front one. */
    method AddRear() returns (val: Word)
      requires Valid() && kind != 0
      modifies buffer
      ensures val == ToWord(old(buffer[1 + fptr]) as int + old(buffer[1 + rptr]) as int)
      ensures buffer[1..1 + deg] == old(buffer[1..1 + deg])[fptr := val] && buffer[0] == old(buffer[0])
    {
      FrontInTable(rptr, sep, deg);
      hide Deg, Sep, ToWord;
      val := ToWord(buffer[1 + fptr] as int + buffer[1 + rptr] as int);
      buffer[1 + fptr] := val;
    }

    /** Both pointers step; at most one of them wraps in a call. */
    method StepPointers()
      requires Valid() && kind != 0
      modifies this`fptr, this`rptr
      ensures Valid() && rptr == (old(rptr) + 1) % deg
    {
      var f, r := fptr, rptr;
      WalkWraps(f, r, sep, deg);
      hide Deg, Sep;
      f := f + 1;
      if f >= deg {
        f := 0;
        r := r + 1;
      } else {
        r := r + 1;
        if r >= deg {
          r := 0;
        }
      }
      fptr, rptr := f, r;
    }

    /**
     * srandom_r: fails on a type outside the table of polynomials, otherwise fills
     * the table from the seed, sets the pointers apart and discards 10 * deg draws.
     */
    method SrandomR(seed0: Word) returns (status: int)
      requires 0 <= kind < MAX_TYPES ==> BufferFits()
      modifies this`fptr, this`rptr, buffer
      ensures status == if 0 <= kind < MAX_TYPES then 0 else -1
      ensures status == 0 ==> Valid() && View() == Seeded(seed0, kind) && buffer[0] == old(buffer[0])
      ensures status != 0 ==> buffer[..] == old(buffer[..])
    {
      if kind < 0 || kind >= MAX_TYPES {
        return -1;
      }
      var seed := if seed0 == 0 then 1 else seed0;
      buffer[1] := seed;
      if kind == 0 {
        return 0;
      }
      FillTable(seed);
      fptr := sep;
      rptr := 0;
      WrapIsMod(sep, deg);
      assert View() == Additive(kind, SeedTable(seed, deg), 0);
      Discard();
      return 0;
    }

    /** The last loop of srandom_r: draws that are thrown away. */
    method Discard()
      requires Valid()
      modifies this`fptr, this`rptr, buffer
      ensures Valid() && View() == After(old(View()), 10 * deg)
      ensures buffer[0] == old(buffer[0])
    {
      hide Deg, Sep, Gen.Draw, HoldsTable;
      ghost var g := View();
      var kc := 10 * deg;
      while kc > 0
        invariant 0 <= kc <= 10 * deg
        invariant Valid() && View() == After(g, 10 * deg - kc)
        invariant buffer[0] == old(buffer[0])
      {
        kc := kc - 1;
        var discard := RandomR();
      }
    }

    ghost predicate BufferFits()
      reads this
    {
      && 0 <= kind < MAX_TYPES && deg == Deg(kind) && sep == Sep(kind)
      && buffer.Length >= 2 && buffer.Length >= 1 + deg
    }

    /** The seeding loop of srandom_r, with every intermediate inside a signed long. */
    method FillTable(seed: Word)
      requires BufferFits() && kind != 0 && buffer[1] == seed
      modifies buffer
      ensures buffer[1..1 + deg] == SeedTable(seed, deg)
      ensures buffer[0] == old(buffer[0])
    {
      var word := Signed(seed);
      var i := 1;
      while i < deg
        invariant 1 <= i <= deg
        invariant word == Signed(SeedWord(seed, i - 1))
        invariant forall j | 0 <= j < i :: buffer[1 + j] == SeedWord(seed, j)
        invariant buffer[0] == old(buffer[0])
      {
        SchrageExact(word);
        NextSeedWord(seed, i - 1);
        var hi, lo := TruncDiv(word, 127773), TruncMod(word, 127773);
        word := 16807 * lo - 2836 * hi;
        if word < 0 {
          word := word + M;
        }
        buffer[1 + i] := ToWord(word);
        i := i + 1;
      }
    }

    /**
     * initstate_r: the polynomial is chosen by the size of the caller's buffer; the
     * previous buffer is left as it is, with whatever header it last had.
     */
    method InitstateR(seed: Word, argState: array<Word>, n: nat) returns (status: int)
      requires n <= 4 * argState.Length
      modifies this, argState
      ensures status == if n < 8 then -1 else 0
      ensures n >= 8 ==> Valid() && buffer == argState && View() == Seeded(seed, TypeForSize(n))
      ensures n >= 8 ==> 0 <= kind < MAX_TYPES && 4 * (1 + Deg(kind)) <= n
      ensures n >= 8 ==> forall u | kind < u < MAX_TYPES :: 4 * (1 + Deg(u)) > n
      ensures n >= 8 ==> Parked(argState[..], View()) && argState[0] == if n < 32 then 0 else 5 * rptr + kind
      ensures n < 8 ==> unchanged(this) && unchanged(argState)
    {
      var t: nat;
      if n >= 128 {
        t := if n < 256 then 3 else 4;
      } else if n < 32 {
        if n < 8 {
          return -1;
        }
        t := 0;
      } else {
        t := if n < 64 then 1 else 2;
      }
      kind, sep, deg := t, Sep(t), Deg(t);
      buffer := argState;
      hide Seeded;
      var _ := SrandomR(seed);
      WriteHeader();
      return 0;
    }

    /** The type, multiplexed with the rear pointer, into word 0. */
    method WriteHeader()
      requires Valid()
      modifies buffer
      ensures buffer[..] == old(buffer[..])[0 := Header(View())]
      ensures buffer[0] == if kind == 0 then 0 else 5 * rptr + kind
      ensures View() == old(View()) && Parked(buffer[..], View())
    {
      ghost var header: Word := Header(View());
      hide Deg, Sep;
      buffer[0] := 0;
      if kind != 0 {
        buffer[0] := MAX_TYPES * rptr + kind;
      }
      assert kind != 0 ==> buffer[1..1 + deg] == old(buffer[1..1 + deg]);
    }

    /**
     * setstate_r: writes the pointers into the header of the buffer being left and
     * takes up the other one where it was left; fails on a header of negative type. A
     * header whose pointer lies outside the table, or a buffer too small for its type,
     * leaves pointers that do not fit.
     */
    method SetstateR(argState: array<Word>) returns (status: int)
      requires Valid()
      requires argState.Length >= 2
      modifies this, buffer
      ensures old(buffer)[..] == old(buffer[..])[0 := old(Header(View()))]
      ensures status == if TruncMod(Signed(argState[0]), MAX_TYPES) < 0 then -1 else 0
      ensures status == -1 <==> argState[0] >= 0x8000_0000 && (0x1_0000_0000 - argState[0] as int) % 5 != 0
      ensures status == 0 ==> buffer == argState && (Valid() <==> Decode(argState[..]).Some?)
      ensures status == 0 && Valid() ==> Some(View()) == Decode(argState[..])
      ensures status != 0 ==> unchanged(this)
    {
      WriteHeader();
      hide Header, HoldsTable;
      status := TakeUp(argState);
    }

    /** The second half of setstate_r: type and rear pointer out of the header of the new buffer. */
    method TakeUp(argState: array<Word>) returns (status: int)
      requires argState.Length >= 2
      modifies this
      ensures status == if TruncMod(Signed(argState[0]), MAX_TYPES) < 0 then -1 else 0
      ensures status == -1 <==> argState[0] >= 0x8000_0000 && (0x1_0000_0000 - argState[0] as int) % 5 != 0
      ensures status == 0 ==> buffer == argState && (Valid() <==> Decode(argState[..]).Some?)
      ensures status == 0 && Valid() ==> Some(View()) == Decode(argState[..])
      ensures status != 0 ==> unchanged(this)
    {
      var h := Signed(argState[0]);
      var t := TruncMod(h, MAX_TYPES);
      if t < 0 {
        return -1;
      }
      deg, sep, kind := Deg(t), Sep(t), t;
      if t != 0 {
        var rear := TruncDiv(h, MAX_TYPES);
        rptr := rear;
        fptr := (rear + sep) % deg;
      }
      buffer := argState;
      return 0;
    }
  }

  /** The break values on the size of the state, in bytes. */
  function TypeForSize(n: nat): (t: nat)
    requires n >= 8
    ensures t < MAX_TYPES && 4 * (1 + Deg(t)) <= n
    ensures forall u | t < u < MAX_TYPES :: 4 * (1 + Deg(u)) > n
  {
    if n < 32 then 0 else if n < 64 then 1 else if n < 128 then 2 else if n < 256 then 3 else 4
  }

  lemma FrontInTable(r: nat, s: nat, d: nat)
    requires d > 0
    ensures 0 <= (r + s) % d < d
  {
  }

  /** Not testing the rear pointer when the front one wraps is safe: they are sep apart. */
  lemma WalkWraps(f: nat, r: nat, s: nat, d: nat)
    requires r < d && 0 < s < d && f == (r + s) % d
    ensures f < d
    ensures (if f + 1 >= d then (0, r + 1) else (f + 1, if r + 1 >= d then 0 else r + 1))
         == (((r + 1) % d + s) % d, (r + 1) % d)
  {
    RearBehindFront(r, s, d);
    WrapIsMod(r + s, d);
    WrapIsMod(r + 1, d);
    WrapIsMod(f + 1, d);
  }
}
