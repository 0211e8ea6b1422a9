// One random_data object used for many state buffers: whatever the order of draws,
// switches, initialisations and reseedings, it behaves as independent generators do.
module RandomSwitching {
  import opened Common
  import opened Words
  import opened Random

  /** A call on the object; buffers are known by number. */
  datatype Op =
    | DrawOne                                  // random_r
    | Reseed(seed: Word)                       // srandom_r
    | SwitchTo(id: nat)                        // setstate_r
    | InitWith(id: nat, seed: Word, n: nat)    // initstate_r

  // ----- The specification: one generator per initialised buffer -----

  /** The generators, the one in use, and the header last written into its buffer. */
  datatype Streams = Streams(gens: map<nat, Gen>, cur: nat, header: Word)
  {
    ghost predicate Valid() {
      && cur in gens
      && (forall b | b in gens :: gens[b].Valid())
      && Abandoned(gens[cur], header).Valid() && header == Header(Abandoned(gens[cur], header))
    }
  }

  function Kind(g: Gen): nat {
    if g.Lcg? then 0 else g.kind
  }

  /** Only initialised buffers are switched to, and a buffer is as large as its caller says. */
  ghost predicate Legal(sizes: seq<nat>, s: Streams, op: Op) {
    match op
    case DrawOne => true
    case Reseed(_) => true
    case SwitchTo(id) => id in s.gens
    case InitWith(id, _, n) => id < |sizes| && n <= 4 * sizes[id]
  }

  /** One call: the streams after it, and what it drew from which buffer. */
  ghost function Step(s: Streams, op: Op): (r: (Streams, seq<(nat, Word)>))
    requires s.Valid() && (op.SwitchTo? ==> op.id in s.gens)
    ensures r.0.Valid()
  {
    match op
    case DrawOne =>
      var (g, v) := s.gens[s.cur].Draw();
      (s.(gens := s.gens[s.cur := g]), [(s.cur, v)])
    case Reseed(seed) =>
      (s.(gens := s.gens[s.cur := Seeded(seed, Kind(s.gens[s.cur]))]), [])
    case SwitchTo(id) =>
      CurrentHeader(s.gens[id]);
      (s.(cur := id, header := Header(s.gens[id])), [])
    case InitWith(id, seed, n) =>
      if n < 8 then (s, [])
      else
        var g := Seeded(seed, TypeForSize(n));
        CurrentHeader(g);
        (Streams(s.gens[s.cur := Abandoned(s.gens[s.cur], s.header)][id := g], id, Header(g)), [])
  }

  /** A current header is that of the generator itself. */
  lemma CurrentHeader(g: Gen)
    requires g.Valid()
    ensures Abandoned(g, Header(g)) == g
  {
  }

  ghost predicate LegalRun(sizes: seq<nat>, s: Streams, ops: seq<Op>)
    requires s.Valid()
    decreases |ops|
  {
    ops == [] || (Legal(sizes, s, ops[0]) && LegalRun(sizes, Step(s, ops[0]).0, ops[1..]))
  }

  /** Everything drawn during a run, tagged with the buffer it was drawn from. */
  ghost function Trace(sizes: seq<nat>, s: Streams, ops: seq<Op>): seq<(nat, Word)>
    requires s.Valid() && LegalRun(sizes, s, ops)
    decreases |ops|
  {
    if ops == [] then []
    else
      var (next, out) := Step(s, ops[0]);
      out + Trace(sizes, next, ops[1..])
  }

  // ----- Buffers do not disturb each other -----

  /** The call seeds buffer b, or leaves it under a header that no longer fits. */
  ghost predicate Disturbs(s: Streams, op: Op, b: nat)
    requires s.Valid() && b in s.gens
  {
    match op
    case DrawOne => false
    case SwitchTo(_) => false
    case Reseed(_) => b == s.cur
    case InitWith(id, _, n) => n >= 8 && (b == id || (b == s.cur && Abandoned(s.gens[b], s.header) != s.gens[b]))
  }

  ghost predicate Undisturbed(sizes: seq<nat>, s: Streams, ops: seq<Op>, b: nat)
    requires s.Valid() && LegalRun(sizes, s, ops) && b in s.gens
    decreases |ops|
  {
    ops == [] || (!Disturbs(s, ops[0], b) && Undisturbed(sizes, Step(s, ops[0]).0, ops[1..], b))
  }

  /** A call advances the stream it draws from, and changes only streams it disturbs. */
  lemma StepKeepsStreams(s: Streams, op: Op, b: nat)
    requires s.Valid() && (op.SwitchTo? ==> op.id in s.gens) && b in s.gens && !Disturbs(s, op, b)
    ensures var (next, _) := Step(s, op);
      b in next.gens && next.gens[b] == if op.DrawOne? && b == s.cur then s.gens[b].Draw().0 else s.gens[b]
  {
    hide Gen.Draw, Seeded;
  }

  function DrawnFrom(b: nat, trace: seq<(nat, Word)>): seq<Word> {
    if trace == [] then []
    else (if trace[0].0 == b then [trace[0].1] else []) + DrawnFrom(b, trace[1..])
  }

  function FirstOutputs(g: Gen, n: nat): (s: seq<Word>)
    requires g.Valid()
    ensures |s| == n
  {
    seq(n, k requires 0 <= k < n => Output(g, k))
  }

  lemma FirstOutputsStep(g: Gen, n: nat)
    requires g.Valid() && n > 0
    ensures FirstOutputs(g, n) == [g.Draw().1] + FirstOutputs(g.Draw().0, n - 1)
  {
    hide Gen.Draw;
    forall k | 1 <= k < n
      ensures Output(g, k) == Output(g.Draw().0, k - 1)
    {
      assert After(g, 1) == After(g, 0).Draw().0;
      AfterAdds(g, 1, k - 1);
    }
    assert After(g, 0) == g;
  }

  /**
   * Whatever is drawn, seeded, initialised or switched to in between, the numbers drawn
   * from an undisturbed buffer are the first outputs of its own generator, as if it
   * had run alone.
   */
  lemma {:induction false} SwitchingIsTransparent(sizes: seq<nat>, s: Streams, ops: seq<Op>, b: nat)
    requires s.Valid() && LegalRun(sizes, s, ops) && b in s.gens && Undisturbed(sizes, s, ops, b)
    ensures var drawn := DrawnFrom(b, Trace(sizes, s, ops));
      drawn == FirstOutputs(s.gens[b], |drawn|)
    decreases |ops|
  {
    hide Gen.Draw, Seeded, Disturbs;
    if ops != [] {
      StepKeepsStreams(s, ops[0], b);
      var (next, out) := Step(s, ops[0]);
      SwitchingIsTransparent(sizes, next, ops[1..], b);
      DrawnFromStep(s, ops[0], b, Trace(sizes, next, ops[1..]));
      hide Step;
      if ops[0].DrawOne? && b == s.cur {
        FirstOutputsStep(s.gens[b], |DrawnFrom(b, Trace(sizes, next, ops[1..]))| + 1);
      }
    }
  }

  lemma DrawnFromStep(s: Streams, op: Op, b: nat, rest: seq<(nat, Word)>)
    requires s.Valid() && (op.SwitchTo? ==> op.id in s.gens)
    ensures DrawnFrom(b, Step(s, op).1 + rest)
         == (if op.DrawOne? && b == s.cur then [s.gens[b].Draw().1] else []) + DrawnFrom(b, rest)
  {
    hide Gen.Draw, Seeded;
    var out := Step(s, op).1;
    if op.DrawOne? {
      assert (out + rest)[1..] == rest;
    } else {
      assert out + rest == rest;
    }
  }

  // ----- The object takes exactly these steps -----

  /** The object and the caller's buffers stand for the streams. */
  ghost predicate Represents(data: RandomData, bufs: seq<array<Word>>, s: Streams)
    reads data, bufs
  {
    && NoDuplicates(bufs)
    && s.Valid() && (forall b | b in s.gens :: b < |bufs|)
    && data.Valid() && data.buffer == bufs[s.cur]
    && data.View() == s.gens[s.cur] && bufs[s.cur][0] == s.header
    && forall b | b in s.gens && b != s.cur :: bufs[b].Length > 0 && Parked(bufs[b][..], s.gens[b])
  }

  function Sizes(bufs: seq<array<Word>>): (n: seq<nat>)
    ensures |n| == |bufs|
  {
    seq(|bufs|, i requires 0 <= i < |bufs| => bufs[i].Length)
  }

  /** The first initstate_r gives the object its first stream. */
  method Start(data: RandomData, bufs: seq<array<Word>>, id: nat, seed: Word, n: nat)
    requires NoDuplicates(bufs) && id < |bufs| && 8 <= n <= 4 * bufs[id].Length
    modifies data, bufs[id]
    ensures var g := Seeded(seed, TypeForSize(n));
      Represents(data, bufs, Streams(map[id := g], id, Header(g)))
  {
    hide Seeded;
    var _ := data.InitstateR(seed, bufs[id], n);
    CurrentHeader(data.View());
  }

  /** random_r on the object is a draw from the stream in use. */
  method PerformDraw(data: RandomData, bufs: seq<array<Word>>, ghost s: Streams) returns (v: Word)
    requires Represents(data, bufs, s)
    modifies data, data.buffer
    ensures Represents(data, bufs, Step(s, DrawOne).0) && Step(s, DrawOne).1 == [(s.cur, v)]
  {
    hide Gen.Draw, RandomData.View, RandomData.Valid, Parked;
    v := data.RandomR();
  }

  /** srandom_r on the object seeds the stream in use. */
  method PerformReseed(data: RandomData, bufs: seq<array<Word>>, ghost s: Streams, seed: Word)
    requires Represents(data, bufs, s)
    modifies data, data.buffer
    ensures Represents(data, bufs, Step(s, Reseed(seed)).0)
  {
    hide Seeded, Parked;
    var _ := data.SrandomR(seed);
  }

  /** setstate_r on the object takes up a stream where it was. */
  method PerformSwitch(data: RandomData, bufs: seq<array<Word>>, ghost s: Streams, id: nat)
    requires Represents(data, bufs, s) && id in s.gens
    modifies data, data.buffer
    ensures Represents(data, bufs, Step(s, SwitchTo(id)).0)
  {
    ghost var stamped: seq<Word> := data.buffer[..][0 := Header(data.View())];
    assert Parked(stamped, data.View());
    DecodeUndoesHeader(if id == s.cur then stamped else bufs[id][..], s.gens[id]);
    assert Step(s, SwitchTo(id)).0 == s.(cur := id, header := Header(s.gens[id]));
    hide Decode, RandomData.View, RandomData.Valid, HoldsTable, Abandoned, Step;
    var _ := data.SetstateR(bufs[id]);
  }

  /** A buffer that is left as it is stands for what its old header says. */
  lemma LeftUnderOldHeader(words: seq<Word>, g: Gen, header: Word)
    requires g.Valid() && HoldsTable(words, g) && words[0] == header
    requires Abandoned(g, header).Valid() && header == Header(Abandoned(g, header))
    ensures |words| > 0 && Parked(words, Abandoned(g, header))
  {
  }

  /** initstate_r on the object starts a stream and abandons the one in use. */
  method PerformInit(data: RandomData, bufs: seq<array<Word>>, ghost s: Streams, id: nat, seed: Word, n: nat)
    requires Represents(data, bufs, s) && id < |bufs| && n <= 4 * bufs[id].Length
    modifies data, bufs[id]
    ensures Represents(data, bufs, Step(s, InitWith(id, seed, n)).0)
  {
    LeftUnderOldHeader(bufs[s.cur][..], s.gens[s.cur], s.header);
    hide Seeded, HoldsTable, RandomData.View, RandomData.Valid;
    var _ := data.InitstateR(seed, bufs[id], n);
  }

  lemma BufferInUse(data: RandomData, bufs: seq<array<Word>>, s: Streams)
    requires Represents(data, bufs, s)
    ensures s.Valid() && data.buffer in bufs
  {
  }

  /** One call on the object. */
  method Perform(data: RandomData, bufs: seq<array<Word>>, ghost s: Streams, cur: nat, op: Op)
      returns (out: seq<(nat, Word)>, cur': nat)
    requires Represents(data, bufs, s) && Legal(Sizes(bufs), s, op) && cur == s.cur
    modifies data, bufs
    ensures Represents(data, bufs, Step(s, op).0) && out == Step(s, op).1 && cur' == Step(s, op).0.cur
  {
    BufferInUse(data, bufs, s);
    hide Represents;
    out, cur' := [], cur;
    match op
    case DrawOne =>
      var v := PerformDraw(data, bufs, s);
      out := [(cur, v)];
    case Reseed(seed) => PerformReseed(data, bufs, s, seed);
    case SwitchTo(id) =>
      PerformSwitch(data, bufs, s, id);
      cur' := id;
    case InitWith(id, seed, n) =>
      PerformInit(data, bufs, s, id, seed, n);
      cur' := if n < 8 then cur else id;
  }

  /**
   * A run of calls on one object draws exactly what independent generators, one to a
   * buffer, draw under the same calls.
   */
  method PerformAll(data: RandomData, bufs: seq<array<Word>>, ghost s0: Streams, cur0: nat, ops: seq<Op>)
      returns (trace: seq<(nat, Word)>)
    requires Represents(data, bufs, s0) && cur0 == s0.cur && LegalRun(Sizes(bufs), s0, ops)
    modifies data, bufs
    ensures trace == Trace(Sizes(bufs), s0, ops)
  {
    hide Represents, Step, Streams.Valid;
    ghost var s := s0;
    var i, cur := 0, cur0;
    trace := [];
    BufferInUse(data, bufs, s);
    assert ops[0..] == ops;
    while i < |ops|
      invariant 0 <= i <= |ops| && cur == s.cur && s.Valid()
      invariant Represents(data, bufs, s) && LegalRun(Sizes(bufs), s, ops[i..])
      invariant trace + Trace(Sizes(bufs), s, ops[i..]) == Trace(Sizes(bufs), s0, ops)
    {
      ghost var rest := Trace(Sizes(bufs), Step(s, ops[i]).0, ops[i..][1..]);
      assert ops[i..][1..] == ops[i + 1..];
      var out: seq<(nat, Word)>;
      out, cur := Perform(data, bufs, s, cur, ops[i]);
      assert (trace + out) + rest == trace + (out + rest);
      trace := trace + out;
      s := Step(s, ops[i]).0;
      i := i + 1;
    }
  }
}
