/** Two guests over one host memory: neither can tell that the other is there. */
module Isolation {
  import opened Words
  import opened Accessor

  /** The accesses a guest's devices make. */
  datatype Op =
    | GetBuffer(g: nat, n: nat)
    | PutBuffer(g: nat, data: seq<Byte>)
    | GetObject(g: nat, n: nat)
    | PutObject(g: nat, data: seq<Byte>)

  /** What the caller sees: success or failure, and any bytes read. */
  datatype Answer = Answer(ok: bool, bytes: seq<Byte>)

  predicate Fits(t: Translator, g: nat, n: nat) {
    t(g).Some? && n <= t(g).value.limit
  }

  function Effect(t: Translator, memory: seq<Byte>, op: Op): (memory': seq<Byte>)
    requires InMemory(t, |memory|)
    ensures |memory'| == |memory|
  {
    match op
    case GetBuffer(_, _) => memory
    case PutBuffer(g, data) => Store(t, memory, g, data)
    case GetObject(_, _) => memory
    case PutObject(g, data) => if Fits(t, g, |data|) then Store(t, memory, g, data) else memory
  }

  function Reply(t: Translator, memory: seq<Byte>, op: Op): Answer
    requires InMemory(t, |memory|)
  {
    match op
    case GetBuffer(g, n) => Answer(Reach(t, g, n) == n, Load(t, memory, g, n))
    case PutBuffer(g, data) => Answer(Reach(t, g, |data|) == |data|, [])
    case GetObject(g, n) => if Fits(t, g, n) then Answer(true, Load(t, memory, g, n)) else Answer(false, [])
    case PutObject(g, data) => Answer(Fits(t, g, |data|), [])
  }

  /** The addresses of the access stay below 2^64. */
  predicate InWord(op: Op) {
    match op
    case GetBuffer(g, n) => g + n < WORD_LIMIT
    case PutBuffer(g, data) => g + |data| < WORD_LIMIT
    case GetObject(_, _) => true
    case PutObject(_, _) => true
  }

  /** Carries an access out by the call it stands for. */
  method Perform(t: Translator, memory: array<Byte>, op: Op) returns (answer: Answer)
    requires Sound(t, memory.Length) && InWord(op)
    modifies memory
    ensures answer == Reply(t, old(memory[..]), op)
    ensures memory[..] == Effect(t, old(memory[..]), op)
  {
    match op
    case GetBuffer(g, n) =>
      var buffer := new Byte[n];
      var ok := ReadBuffer(t, memory, g, buffer);
      answer := Answer(ok, buffer[..Reach(t, g, n)]);
    case PutBuffer(g, data) =>
      var ok := WriteBuffer(t, memory, g, data);
      answer := Answer(ok, []);
    case GetObject(g, n) =>
      var r := ReadObj(t, memory, g, n);
      answer := if r.Some? then Answer(true, r.value) else Answer(false, []);
    case PutObject(g, data) =>
      var ok := WriteObj(t, memory, g, data);
      answer := Answer(ok, []);
  }

  /** A put over a range without aliases, then a get of it: what arrived before the first gap comes back. */
  lemma PutThenGet(t: Translator, memory: seq<Byte>, g: nat, data: seq<Byte>)
    requires InMemory(t, |memory|) && InjectiveOn(t, g, |data|)
    ensures var k := Reach(t, g, |data|);
            Alone(t, memory, [PutBuffer(g, data), GetBuffer(g, |data|)]) ==
            [Answer(k == |data|, []), Answer(k == |data|, data[..k])]
  {
    var ops := [PutBuffer(g, data), GetBuffer(g, |data|)];
    var memory' := Store(t, memory, g, data);
    WriteReadRoundTrip(t, memory, g, data);
    assert ops[1..] == [ops[1]] && ops[1..][1..] == [];
    assert Alone(t, memory', ops[1..]) == [Reply(t, memory', ops[1])] + Alone(t, memory', []);
  }

  /**
   * What a device can tell of the cut into regions, for two translators with the same byte map: nothing through
   * the buffer calls, and through the object calls exactly whether the object fits one region.
   */
  lemma RegionsObserved(t: Translator, u: Translator, memory: seq<Byte>, op: Op)
    requires SameBytes(t, u) && InMemory(t, |memory|) && InMemory(u, |memory|)
    ensures op.GetBuffer? || op.PutBuffer? ==>
              Reply(t, memory, op) == Reply(u, memory, op) && Effect(t, memory, op) == Effect(u, memory, op)
    ensures op.GetObject? ==>
              (Reply(t, memory, op) == Reply(u, memory, op) <==> Fits(t, op.g, op.n) == Fits(u, op.g, op.n))
    ensures op.PutObject? ==>
              (Effect(t, memory, op) == Effect(u, memory, op) && Reply(t, memory, op) == Reply(u, memory, op) <==>
               Fits(t, op.g, |op.data|) == Fits(u, op.g, |op.data|))
  {
    match op
    case GetBuffer(g, n) => RegionsInvisible(t, u, memory, g, seq(n, _ => 0));
    case PutBuffer(g, data) => RegionsInvisible(t, u, memory, g, data);
    case GetObject(g, n) => RegionsInvisible(t, u, memory, g, seq(n, _ => 0));
    case PutObject(g, data) => RegionsInvisible(t, u, memory, g, data);
  }

  /** An access by one of the two guests. */
  datatype Turn = Turn(first: bool, op: Op)

  /** The answers one guest gets while both run. */
  function Interleaved(t: Translator, u: Translator, memory: seq<Byte>, turns: seq<Turn>, first: bool): seq<Answer>
    requires InMemory(t, |memory|) && InMemory(u, |memory|)
    decreases |turns|
  {
    if turns == [] then []
    else
      var turn := turns[0];
      var own := if turn.first then t else u;
      (if turn.first == first then [Reply(own, memory, turn.op)] else []) +
      Interleaved(t, u, Effect(own, memory, turn.op), turns[1..], first)
  }

  /** The answers a guest gets when it runs alone. */
  function Alone(t: Translator, memory: seq<Byte>, ops: seq<Op>): seq<Answer>
    requires InMemory(t, |memory|)
    decreases |ops|
  {
    if ops == [] then [] else [Reply(t, memory, ops[0])] + Alone(t, Effect(t, memory, ops[0]), ops[1..])
  }

  function Mine(turns: seq<Turn>, first: bool): seq<Op> {
    if turns == [] then []
    else (if turns[0].first == first then [turns[0].op] else []) + Mine(turns[1..], first)
  }

  /** No host byte belongs to both guests. */
  ghost predicate Apart(t: Translator, u: Translator) {
    forall g: nat, k: nat :: t(g).Some? && u(k).Some? ==> t(g).value.host != u(k).value.host
  }

  /** Two memories look the same through a translator. */
  ghost predicate Agree(t: Translator, memory: seq<Byte>, other: seq<Byte>) {
    && InMemory(t, |memory|) && |other| == |memory|
    && forall g: nat :: t(g).Some? ==> memory[t(g).value.host] == other[t(g).value.host]
  }

  lemma {:induction false} LoadAgrees(t: Translator, memory: seq<Byte>, other: seq<Byte>, g: nat, n: nat)
    requires Agree(t, memory, other)
    ensures Load(t, memory, g, n) == Load(t, other, g, n)
    decreases n
  {
    if n != 0 && t(g).Some? {
      LoadAgrees(t, memory, other, g + 1, n - 1);
    }
  }

  lemma {:induction false} StoreAgrees(t: Translator, memory: seq<Byte>, other: seq<Byte>, g: nat, data: seq<Byte>)
    requires Agree(t, memory, other)
    ensures Agree(t, Store(t, memory, g, data), Store(t, other, g, data))
    decreases |data|
  {
    if data != [] && t(g).Some? {
      var h := t(g).value.host;
      StoreAgrees(t, memory[h := data[0]], other[h := data[0]], g + 1, data[1..]);
    }
  }

  /** Through its own translator a guest sees its own access act alike on memories that look the same. */
  lemma OwnTurn(t: Translator, memory: seq<Byte>, other: seq<Byte>, op: Op)
    requires Agree(t, memory, other)
    ensures Reply(t, memory, op) == Reply(t, other, op)
    ensures Agree(t, Effect(t, memory, op), Effect(t, other, op))
  {
    match op
    case GetBuffer(g, n) => LoadAgrees(t, memory, other, g, n);
    case PutBuffer(g, data) => StoreAgrees(t, memory, other, g, data);
    case GetObject(g, n) => LoadAgrees(t, memory, other, g, n);
    case PutObject(g, data) => StoreAgrees(t, memory, other, g, data);
  }

  /** An access of the other guest, failing or not, leaves what this guest sees as it was. */
  lemma ForeignTurn(t: Translator, u: Translator, memory: seq<Byte>, op: Op)
    requires InMemory(t, |memory|) && InMemory(u, |memory|) && Apart(t, u)
    ensures Agree(t, memory, Effect(u, memory, op))
  {
    if op.PutBuffer? || op.PutObject? {
      forall g: nat | t(g).Some?
        ensures memory[t(g).value.host] == Store(u, memory, op.g, op.data)[t(g).value.host]
      {
        StoreElsewhere(u, memory, op.g, op.data, t(g).value.host);
      }
    }
  }

  lemma {:induction false} FirstIsolated(t: Translator, u: Translator, memory: seq<Byte>, alone: seq<Byte>,
                                         turns: seq<Turn>)
    requires Agree(t, memory, alone) && InMemory(u, |memory|) && Apart(t, u)
    ensures Interleaved(t, u, memory, turns, true) == Alone(t, alone, Mine(turns, true))
    decreases |turns|
  {
    if turns != [] {
      var op := turns[0].op;
      if turns[0].first {
        OwnTurn(t, memory, alone, op);
        FirstIsolated(t, u, Effect(t, memory, op), Effect(t, alone, op), turns[1..]);
        assert Mine(turns, true) == [op] + Mine(turns[1..], true);
        assert Mine(turns, true)[1..] == Mine(turns[1..], true);
      } else {
        ForeignTurn(t, u, memory, op);
        FirstIsolated(t, u, Effect(u, memory, op), alone, turns[1..]);
        assert Mine(turns, true) == Mine(turns[1..], true);
      }
    }
  }

  /** Exchanging the roles of the two guests. */
  function Swapped(turns: seq<Turn>): seq<Turn> {
    if turns == [] then [] else [turns[0].(first := !turns[0].first)] + Swapped(turns[1..])
  }

  lemma {:induction false} SwapRoles(t: Translator, u: Translator, memory: seq<Byte>, turns: seq<Turn>)
    requires InMemory(t, |memory|) && InMemory(u, |memory|)
    ensures Interleaved(t, u, memory, turns, false) == Interleaved(u, t, memory, Swapped(turns), true)
    ensures Mine(turns, false) == Mine(Swapped(turns), true)
    decreases |turns|
  {
    if turns != [] {
      var own := if turns[0].first then t else u;
      SwapRoles(t, u, Effect(own, memory, turns[0].op), turns[1..]);
      assert Swapped(turns)[1..] == Swapped(turns[1..]);
    }
  }

  /**
   * Isolation: with disjoint host images, any interleaving of accesses, failing ones included, gives each
   * guest exactly the answers it would get running its own accesses alone.
   */
  lemma GuestsIsolated(t: Translator, u: Translator, memory: seq<Byte>, turns: seq<Turn>)
    requires InMemory(t, |memory|) && InMemory(u, |memory|) && Apart(t, u)
    ensures Interleaved(t, u, memory, turns, true) == Alone(t, memory, Mine(turns, true))
    ensures Interleaved(t, u, memory, turns, false) == Alone(u, memory, Mine(turns, false))
  {
    FirstIsolated(t, u, memory, memory, turns);
    SwapRoles(t, u, memory, turns);
    FirstIsolated(u, t, memory, memory, Swapped(turns));
  }

  lemma InterleavedStep(t: Translator, u: Translator, memory: seq<Byte>, turns: seq<Turn>, first: bool)
    requires InMemory(t, |memory|) && InMemory(u, |memory|) && turns != []
    ensures var own := if turns[0].first then t else u;
            Interleaved(t, u, memory, turns, first) ==
            (if turns[0].first == first then [Reply(own, memory, turns[0].op)] else []) +
            Interleaved(t, u, Effect(own, memory, turns[0].op), turns[1..], first)
  {
  }

  lemma InterleavedNone(t: Translator, u: Translator, memory: seq<Byte>, first: bool)
    requires InMemory(t, |memory|) && InMemory(u, |memory|)
    ensures Interleaved(t, u, memory, [], first) == []
  {
  }

  /** The accesses of two guests as the host carries them out, one after the other. */
  method Serve(t: Translator, u: Translator, memory: array<Byte>, turns: seq<Turn>)
    returns (one: seq<Answer>, two: seq<Answer>)
    requires Sound(t, memory.Length) && Sound(u, memory.Length) && forall turn :: turn in turns ==> InWord(turn.op)
    modifies memory
    ensures one == Interleaved(t, u, old(memory[..]), turns, true)
    ensures two == Interleaved(t, u, old(memory[..]), turns, false)
    ensures Apart(t, u) ==>
              && one == Alone(t, old(memory[..]), Mine(turns, true))
              && two == Alone(u, old(memory[..]), Mine(turns, false))
  {
    hide Interleaved, Reply, Effect, Apart;
    ghost var start := memory[..];
    one, two := [], [];
    var i := 0;
    while i < |turns|
      invariant i <= |turns|
      invariant Interleaved(t, u, start, turns, true) == one + Interleaved(t, u, memory[..], turns[i..], true)
      invariant Interleaved(t, u, start, turns, false) == two + Interleaved(t, u, memory[..], turns[i..], false)
    {
      assert turns[i..][0] == turns[i] && turns[i..][1..] == turns[i + 1..];
      InterleavedStep(t, u, memory[..], turns[i..], true);
      InterleavedStep(t, u, memory[..], turns[i..], false);
      if turns[i].first {
        var answer := Perform(t, memory, turns[i].op);
        one := one + [answer];
      } else {
        var answer := Perform(u, memory, turns[i].op);
        two := two + [answer];
      }
      i := i + 1;
    }
    assert turns[i..] == [];
    InterleavedNone(t, u, memory[..], true);
    InterleavedNone(t, u, memory[..], false);
    if Apart(t, u) {
      GuestsIsolated(t, u, start, turns);
    }
  }
}
