/** PCG32 streams derived by name from one seed, created when first used. */
module RandomStreams {

  const STATE_DOMAIN: bv64 := 0x243f_6a88_85a3_08d3
  const STREAM_DOMAIN: bv64 := 0x1319_8a2e_0370_7344

  /** A name as its UTF-8 bytes. */
  type Name = seq<bv8>

  datatype Pcg32 = Pcg32(state: bv64, inc: bv64)

  // --- Words ---------------------------------------------------------------------------

  function Xor(x: bv64, y: bv64): bv64 { x ^ y }

  /** Sums and products wrap at 64 bits. */
  function Sum(x: bv64, y: bv64): bv64 { x + y }

  function Multiplied(x: bv64): bv64 { x * 6_364_136_223_846_793_005 }

  function Folded30(x: bv64): bv64 { x ^ (x >> 30) }

  function Folded27(x: bv64): bv64 { x ^ (x >> 27) }

  function Folded31(x: bv64): bv64 { x ^ (x >> 31) }

  function Spread(x: bv64): bv64 { x * 0xbf58_476d_1ce4_e5b9 }

  function SpreadAgain(x: bv64): bv64 { x * 0x94d0_49bb_1331_11eb }

  function MadeOdd(x: bv64): bv64 { x | 1 }

  function ByteWord(b: bv8): bv64 { b as bv64 }

  /** A length as a word, counted up so that it wraps. */
  function LengthWord(n: nat): bv64 {
    if n == 0 then 0 else LengthWord(n - 1) + 1
  }

  /** The 32 bits of a state that its output shows. */
  function ShownBits(state: bv64): bv32 {
    ((((state >> 18) ^ state) >> 27) & 0xFFFF_FFFF) as bv32
  }

  function TopFive(state: bv64): bv64 { state >> 59 }

  function TurnedRight(w: bv32, r: bv64): bv32
    requires r < 32
  {
    (w >> r) | (w << ((32 - r) & 31))
  }

  lemma TopFiveIsSmall(state: bv64)
    ensures TopFive(state) < 32
  {
  }

  // --- Streams -------------------------------------------------------------------------

  /** The stream one step further. */
  function Advance(p: Pcg32): Pcg32 {
    Pcg32(Sum(Multiplied(p.state), p.inc), p.inc)
  }

  /** The word a stream yields next: the shown bits, turned right by the top five. */
  function Output(p: Pcg32): bv32 {
    TopFiveIsSmall(p.state);
    TurnedRight(ShownBits(p.state), TopFive(p.state))
  }

  function SplitMix64(x: bv64): bv64 {
    Folded31(SpreadAgain(Folded27(Spread(Folded30(Sum(x, 0x9e37_79b9_7f4a_7c15))))))
  }

  function MixName(mixed: bv64, name: Name): bv64
    decreases |name|
  {
    if name == [] then mixed else MixName(SplitMix64(Xor(mixed, ByteWord(name[0]))), name[1..])
  }

  /** The seed mixed with the length and the bytes of a name. */
  function MixedName(seed: bv64, name: Name): bv64 {
    MixName(Xor(seed, SplitMix64(LengthWord(|name|))), name)
  }

  /** A stream depends on nothing but the seed and the name. */
  function DeriveStream(seed: bv64, name: Name): Pcg32 {
    var mixed := MixedName(seed, name);
    Pcg32(SplitMix64(Xor(mixed, STATE_DOMAIN)), MadeOdd(SplitMix64(Xor(mixed, STREAM_DOMAIN))))
  }

  /** The stream `(seed, name)` after `k` draws. */
  ghost function After(seed: bv64, name: Name, k: nat): Pcg32 {
    if k == 0 then DeriveStream(seed, name) else Advance(After(seed, name, k - 1))
  }

  /** The first `k` words of the stream `(seed, name)`. */
  ghost function Words(seed: bv64, name: Name, k: nat): seq<bv32> {
    if k == 0 then [] else Words(seed, name, k - 1) + [Output(After(seed, name, k - 1))]
  }

  type Streams = map<Name, Pcg32>

  datatype Op = Touch(name: Name) | Draw(name: Name)

  /** The streams after one use of a named stream. */
  function Touched(seed: bv64, streams: Streams, name: Name): Pcg32 {
    if name in streams then streams[name] else DeriveStream(seed, name)
  }

  function Step(seed: bv64, streams: Streams, op: Op): Streams {
    var current := Touched(seed, streams, op.name);
    streams[op.name := if op.Draw? then Advance(current) else current]
  }

  ghost function Run(seed: bv64, streams: Streams, ops: seq<Op>): Streams {
    if ops == [] then streams
    else Step(seed, Run(seed, streams, ops[..|ops| - 1]), ops[|ops| - 1])
  }

  /** The words drawn from one name, in order. */
  ghost function DrawnFrom(seed: bv64, streams: Streams, ops: seq<Op>, name: Name): seq<bv32> {
    if ops == [] then []
    else
      var n := |ops| - 1;
      DrawnFrom(seed, streams, ops[..n], name) +
      if ops[n] == Draw(name) then [Output(Touched(seed, Run(seed, streams, ops[..n]), name))] else []
  }

  ghost function Draws(ops: seq<Op>, name: Name): nat {
    if ops == [] then 0
    else Draws(ops[..|ops| - 1], name) + if ops[|ops| - 1] == Draw(name) then 1 else 0
  }

  ghost predicate Uses(ops: seq<Op>, name: Name) {
    exists i :: 0 <= i < |ops| && ops[i].name == name
  }

  /** Whatever the interleaving, each name's words are the first words of its own sequence, and its
      stream stands where that many draws leave it. */
  lemma {:induction false} StreamsDoNotInterfere(seed: bv64, ops: seq<Op>, name: Name)
    ensures DrawnFrom(seed, map[], ops, name) == Words(seed, name, Draws(ops, name))
    ensures name in Run(seed, map[], ops) <==> Uses(ops, name)
    ensures Touched(seed, Run(seed, map[], ops), name) == After(seed, name, Draws(ops, name))
    decreases |ops|
  {
    hide Output, DeriveStream, Advance;
    if ops != [] {
      var n := |ops| - 1;
      StreamsDoNotInterfere(seed, ops[..n], name);
      assert Uses(ops, name) <==> Uses(ops[..n], name) || ops[n].name == name by {
        assert forall i :: 0 <= i < n ==> ops[..n][i] == ops[i];
      }
      var before := Run(seed, map[], ops[..n]);
      if ops[n].name != name {
        assert Touched(seed, Step(seed, before, ops[n]), name) == Touched(seed, before, name);
      }
    }
  }

  /** The final state depends only on which names were used and how often each was drawn from. */
  lemma OrderOfDrawsIsIrrelevant(seed: bv64, a: seq<Op>, b: seq<Op>)
    requires forall name :: Draws(a, name) == Draws(b, name) && (Uses(a, name) <==> Uses(b, name))
    ensures Run(seed, map[], a) == Run(seed, map[], b)
  {
    hide DeriveStream, Output, Advance, Step, Draws, Uses, After, Words, DrawnFrom, Run;
    var x, y := Run(seed, map[], a), Run(seed, map[], b);
    forall name ensures (name in x <==> name in y) && (name in x ==> x[name] == y[name]) {
      StreamsDoNotInterfere(seed, a, name);
      StreamsDoNotInterfere(seed, b, name);
    }
  }

  // --- Loading -------------------------------------------------------------------------

  /** The guard of deserialization: odd increments that belong to their seed and name. */
  predicate Loads(seed: bv64, streams: Streams) {
    forall name :: name in streams ==> streams[name].inc & 1 == 1 && streams[name].inc == DeriveStream(seed, name).inc
  }

  /** The guard accepts exactly the states whose streams are those of their seed and name, wherever
      they stand. */
  lemma GuardMeans(seed: bv64, streams: Streams)
    ensures Loads(seed, streams) <==>
            forall name :: name in streams ==> streams[name] == DeriveStream(seed, name).(state := streams[name].state)
  {
    hide DeriveStream;
    forall name ensures DeriveStream(seed, name).inc & 1 == 1 {
      DerivedIsOdd(seed, name);
    }
  }

  lemma MadeOddIsOdd(x: bv64)
    ensures MadeOdd(x) & 1 == 1
  {
  }

  lemma DerivedIsOdd(seed: bv64, name: Name)
    ensures DeriveStream(seed, name).inc & 1 == 1
  {
    hide SplitMix64, MixedName, Xor, MadeOdd;
    MadeOddIsOdd(SplitMix64(Xor(MixedName(seed, name), STREAM_DOMAIN)));
  }

  lemma UsingKeepsIncrement(seed: bv64, streams: Streams, op: Op)
    requires Loads(seed, streams)
    ensures op.name in Step(seed, streams, op)
    ensures Step(seed, streams, op)[op.name].inc == DeriveStream(seed, op.name).inc
  {
    hide DeriveStream;
  }

  /** Neither creating a stream nor drawing from one makes a state the guard refuses. */
  lemma StepKeepsGuard(seed: bv64, streams: Streams, op: Op)
    requires Loads(seed, streams)
    ensures Loads(seed, Step(seed, streams, op))
  {
    hide DeriveStream, Advance, Output;
    UsingKeepsIncrement(seed, streams, op);
    DerivedIsOdd(seed, op.name);
  }

  /** Every state a run reaches, from nothing or from a loaded state, passes the guard again. */
  lemma {:induction false} RunKeepsGuard(seed: bv64, streams: Streams, ops: seq<Op>)
    requires Loads(seed, streams)
    ensures Loads(seed, Run(seed, streams, ops))
    decreases |ops|
  {
    hide Loads, Step;
    if ops != [] {
      RunKeepsGuard(seed, streams, ops[..|ops| - 1]);
      StepKeepsGuard(seed, Run(seed, streams, ops[..|ops| - 1]), ops[|ops| - 1]);
    }
  }

  /** The simulation's single source of randomness. */
  class DeterministicRng {
    const seed: bv64
    var streams: Streams

    constructor (seed: bv64)
      ensures this.seed == seed && streams == map[]
    {
      this.seed := seed;
      streams := map[];
    }

    /** Creates the named stream on first use and returns where it stands. */
    method Stream(name: Name) returns (p: Pcg32)
      modifies this
      ensures streams == Step(seed, old(streams), Touch(name))
      ensures name in streams && p == streams[name] == Touched(seed, old(streams), name)
    {
      hide DeriveStream;
      if name !in streams {
        streams := streams[name := DeriveStream(seed, name)];
      }
      p := streams[name];
    }

    /** Draws one word from the named stream and advances only that stream. */
    method NextU32(name: Name) returns (word: bv32)
      modifies this
      ensures streams == Step(seed, old(streams), Draw(name))
      ensures word == Output(Touched(seed, old(streams), name))
    {
      hide DeriveStream, Output, Advance;
      var p := Stream(name);
      word := Output(p);
      streams := streams[name := Advance(p)];
    }
  }
}
