/** Access to guest memory through an address translator, region by region. */
module Accessor {
  import opened Flags
  import opened Words

  type Byte = b: nat | b < 256

  /** A translation: a host address and how many bytes from there are accessible. */
  datatype Region = Region(host: nat, limit: nat)

  type Translator = nat -> Option<Region>

  /** The `k` guest bytes from `g` on translate to the host bytes from `h` on, in order. */
  ghost predicate Contiguous(t: Translator, g: nat, h: nat, k: nat) {
    forall v: nat :: g <= v < g + k ==> t(v).Some? && t(v).value.host == h + (v - g)
  }

  /** Every translated byte exists in a host memory of `size` bytes. */
  ghost predicate InMemory(t: Translator, size: nat) {
    forall g: nat :: t(g).Some? ==> t(g).value.host < size
  }

  /** An accessible region: not empty, inside the memory, and continuing the translation. */
  ghost predicate GoodRegion(t: Translator, g: nat, r: Region, size: nat) {
    1 <= r.limit && r.host + r.limit <= size && Contiguous(t, g, r.host, r.limit)
  }

  /**
   * What the interface asks of a translator: a translated address has at least one accessible byte, and
   * its accessible bytes are those of the guest addresses that follow.
   */
  ghost predicate Sound(t: Translator, size: nat) {
    && InMemory(t, size)
    && forall g: nat :: t(g).Some? ==> GoodRegion(t, g, t(g).value, size)
  }

  // ----- the byte-wise reference

  /** How many of the `n` bytes from `g` on translate before the first one that does not. */
  function Reach(t: Translator, g: nat, n: nat): (k: nat)
    ensures k <= n
    decreases n
  {
    if n == 0 || t(g).None? then 0 else 1 + Reach(t, g + 1, n - 1)
  }

  /** The bytes from `g` on, read one by one, up to the first that does not translate. */
  function Load(t: Translator, memory: seq<Byte>, g: nat, n: nat): (bytes: seq<Byte>)
    requires InMemory(t, |memory|)
    ensures |bytes| == Reach(t, g, n)
    decreases n
  {
    if n == 0 || t(g).None? then [] else [memory[t(g).value.host]] + Load(t, memory, g + 1, n - 1)
  }

  /** Memory after writing bytes one by one from `g` on, up to the first that does not translate. */
  function Store(t: Translator, memory: seq<Byte>, g: nat, data: seq<Byte>): (memory': seq<Byte>)
    requires InMemory(t, |memory|)
    ensures |memory'| == |memory|
    decreases |data|
  {
    if data == [] || t(g).None? then memory
    else Store(t, memory[t(g).value.host := data[0]], g + 1, data[1..])
  }

  /** Everything before the reach translates; the byte at the reach, if asked for, does not. */
  lemma {:induction false} ReachIsFirstGap(t: Translator, g: nat, n: nat, v: nat)
    ensures g <= v < g + Reach(t, g, n) ==> t(v).Some?
    ensures Reach(t, g, n) < n ==> t(g + Reach(t, g, n)).None?
    decreases n
  {
    if n != 0 && t(g).Some? {
      ReachIsFirstGap(t, g + 1, n - 1, v);
    }
  }

  // ----- a region at a time agrees with a byte at a time

  lemma ContiguousTail(t: Translator, g: nat, h: nat, k: nat)
    requires Contiguous(t, g, h, k) && k > 0
    ensures t(g).Some? && t(g).value.host == h && Contiguous(t, g + 1, h + 1, k - 1)
  {
  }

  lemma {:induction false} ReachRegion(t: Translator, g: nat, n: nat, h: nat, k: nat)
    requires Contiguous(t, g, h, k) && k <= n
    ensures Reach(t, g, n) == k + Reach(t, g + k, n - k)
    decreases k
  {
    if k != 0 {
      ContiguousTail(t, g, h, k);
      ReachRegion(t, g + 1, n - 1, h + 1, k - 1);
    }
  }

  /** Memory with a chunk copied to host address `h`. */
  function Copy(memory: seq<Byte>, h: nat, chunk: seq<Byte>): (memory': seq<Byte>)
    requires h + |chunk| <= |memory|
    ensures |memory'| == |memory|
  {
    memory[..h] + chunk + memory[h + |chunk|..]
  }

  lemma {:induction false} StoreRegion(t: Translator, memory: seq<Byte>, g: nat, data: seq<Byte>, h: nat, k: nat)
    requires InMemory(t, |memory|) && Contiguous(t, g, h, k) && k <= |data| && h + k <= |memory|
    ensures Store(t, memory, g, data) == Store(t, Copy(memory, h, data[..k]), g + k, data[k..])
    decreases k
  {
    if k == 0 {
      assert Copy(memory, h, data[..0]) == memory;
    } else {
      ContiguousTail(t, g, h, k);
      var memory1 := memory[h := data[0]];
      StoreRegion(t, memory1, g + 1, data[1..], h + 1, k - 1);
      assert data[1..][k - 1..] == data[k..];
      assert Copy(memory1, h + 1, data[1..][..k - 1]) == Copy(memory, h, data[..k]);
    }
  }

  // ----- buffers

  /** Byte `i` read is the host byte behind guest byte `g + i`. */
  lemma {:induction false} LoadAt(t: Translator, memory: seq<Byte>, g: nat, n: nat, i: nat)
    requires InMemory(t, |memory|) && i < Reach(t, g, n)
    ensures t(g + i).Some? && Load(t, memory, g, n)[i] == memory[t(g + i).value.host]
    decreases n
  {
    if i != 0 {
      LoadAt(t, memory, g + 1, n - 1, i - 1);
    }
  }

  /** Reading inside one region is copying it. */
  lemma LoadRegion(t: Translator, memory: seq<Byte>, g: nat, h: nat, n: nat)
    requires InMemory(t, |memory|) && Contiguous(t, g, h, n) && h + n <= |memory|
    ensures Reach(t, g, n) == n && Load(t, memory, g, n) == memory[h..h + n]
  {
    ReachRegion(t, g, n, h, n);
    forall i: nat | i < n ensures Load(t, memory, g, n)[i] == memory[h..h + n][i] {
      LoadAt(t, memory, g, n, i);
    }
  }

  /** The first `done` bytes of a read are in the buffer, the rest of it is as before. */
  ghost predicate Reading(t: Translator, memory: seq<Byte>, g: nat, before: seq<Byte>, buffer: seq<Byte>, done: nat)
    requires InMemory(t, |memory|)
  {
    && |buffer| == |before| && done <= |before|
    && Reach(t, g, |before|) == done + Reach(t, g + done, |before| - done)
    && (forall v: nat :: g <= v < g + done ==> t(v).Some? && buffer[v - g] == memory[t(v).value.host])
    && (forall i :: done <= i < |before| ==> buffer[i] == before[i])
  }

  lemma ReadingNone(t: Translator, memory: seq<Byte>, g: nat, before: seq<Byte>)
    requires InMemory(t, |memory|)
    ensures Reading(t, memory, g, before, before, 0)
  {
  }

  /** One more region has been copied. */
  lemma ReadingNext(t: Translator, memory: seq<Byte>, g: nat, before: seq<Byte>, buffer: seq<Byte>, done: nat,
                    h: nat, k: nat, buffer': seq<Byte>)
    requires InMemory(t, |memory|) && Reading(t, memory, g, before, buffer, done)
    requires done + k <= |before| && h + k <= |memory| && Contiguous(t, g + done, h, k)
    requires buffer' == buffer[..done] + memory[h..h + k] + buffer[done + k..]
    ensures Reading(t, memory, g, before, buffer', done + k)
  {
    ReachRegion(t, g + done, |before| - done, h, k);
    hide Reach;
    forall v: nat | g <= v < g + done + k ensures t(v).Some? && buffer'[v - g] == memory[t(v).value.host] {
      if v < g + done {
        assert buffer'[v - g] == buffer[v - g];
      } else {
        assert buffer'[v - g] == memory[h + (v - g - done)];
      }
    }
  }

  /** At the end, or at a gap, the buffer holds the loaded bytes and is untouched after them. */
  lemma ReadingEnds(t: Translator, memory: seq<Byte>, g: nat, before: seq<Byte>, buffer: seq<Byte>, done: nat)
    requires InMemory(t, |memory|) && Reading(t, memory, g, before, buffer, done)
    requires done == |before| || t(g + done).None?
    ensures Reach(t, g, |before|) == done
    ensures buffer == Load(t, memory, g, |before|) + before[done..]
  {
    var loaded := Load(t, memory, g, |before|);
    forall i: nat | i < done ensures buffer[i] == loaded[i] {
      LoadAt(t, memory, g, |before|, i);
    }
  }

  /** Copies guest memory into a buffer region by region, up to the first address that does not translate. */
  method ReadRegions(t: Translator, memory: array<Byte>, g: nat, buffer: array<Byte>) returns (ok: bool)
    requires Sound(t, memory.Length) && buffer != memory
    modifies buffer
    ensures ok <==> Reach(t, g, buffer.Length) == buffer.Length
    ensures buffer[..] == Load(t, memory[..], g, buffer.Length) + old(buffer[..])[Reach(t, g, buffer.Length)..]
  {
    hide Reading, InMemory;
    ghost var m, before := memory[..], buffer[..];
    var current, done := g, 0;
    ReadingNone(t, m, g, before);
    while done < buffer.Length
      invariant done <= buffer.Length && current == g + done && memory[..] == m
      invariant Reading(t, m, g, before, buffer[..], done)
    {
      var r := t(current);
      if r == None {
        ReadingEnds(t, m, g, before, buffer[..], done);
        return false;
      }
      var k := if buffer.Length - done < r.value.limit then buffer.Length - done else r.value.limit;
      ghost var sofar := buffer[..];
      CopyOut(memory, r.value.host, buffer, done, k);
      ReadingNext(t, m, g, before, sofar, done, r.value.host, k, buffer[..]);
      current, done := current + k, done + k;
    }
    ReadingEnds(t, m, g, before, buffer[..], done);
    ok := true;
  }

  /** Copies guest memory into a buffer, through one region or several. */
  method ReadBuffer(t: Translator, memory: array<Byte>, g: nat, buffer: array<Byte>) returns (ok: bool)
    requires Sound(t, memory.Length) && buffer != memory && g + buffer.Length < WORD_LIMIT
    modifies buffer
    ensures ok <==> Reach(t, g, buffer.Length) == buffer.Length
    ensures buffer[..] == Load(t, memory[..], g, buffer.Length) + old(buffer[..])[Reach(t, g, buffer.Length)..]
  {
    if buffer.Length == 0 {
      return true;
    }
    var first := t(g);
    if first == None {
      return false;
    }
    if first.value.limit >= buffer.Length {
      LoadRegion(t, memory[..], g, first.value.host, buffer.Length);
      CopyOut(memory, first.value.host, buffer, 0, buffer.Length);
      return true;
    }
    ok := ReadRegions(t, memory, g, buffer);
  }

  /** A non-overlapping copy of `k` bytes from memory into a buffer. */
  method CopyOut(memory: array<Byte>, h: nat, buffer: array<Byte>, at: nat, k: nat)
    requires buffer != memory && h + k <= memory.Length && at + k <= buffer.Length
    modifies buffer
    ensures buffer[..] == old(buffer[..])[..at] + memory[h..h + k] + old(buffer[..])[at + k..]
  {
    forall i | 0 <= i < k {
      buffer[at + i] := memory[h + i];
    }
  }

  /** What is still to be written turns the memory reached so far into the final one. */
  ghost predicate Writing(t: Translator, memory: seq<Byte>, g: nat, data: seq<Byte>, sofar: seq<Byte>, rest: seq<Byte>)
    requires InMemory(t, |memory|)
  {
    && |rest| <= |data| && |sofar| == |memory|
    && Reach(t, g, |data|) == |data| - |rest| + Reach(t, g + (|data| - |rest|), |rest|)
    && Store(t, memory, g, data) == Store(t, sofar, g + (|data| - |rest|), rest)
  }

  lemma WritingNext(t: Translator, memory: seq<Byte>, g: nat, data: seq<Byte>, sofar: seq<Byte>, rest: seq<Byte>,
                    h: nat, k: nat)
    requires InMemory(t, |memory|) && Writing(t, memory, g, data, sofar, rest)
    requires k <= |rest| && h + k <= |memory| && Contiguous(t, g + (|data| - |rest|), h, k)
    ensures Writing(t, memory, g, data, Copy(sofar, h, rest[..k]), rest[k..])
  {
    var current := g + (|data| - |rest|);
    ReachRegion(t, current, |rest|, h, k);
    StoreRegion(t, sofar, current, rest, h, k);
  }

  /** Copies a buffer into guest memory, through one region or several. */
  method WriteBuffer(t: Translator, memory: array<Byte>, g: nat, data: seq<Byte>) returns (ok: bool)
    requires Sound(t, memory.Length) && g + |data| < WORD_LIMIT
    modifies memory
    ensures ok <==> Reach(t, g, |data|) == |data|
    ensures memory[..] == Store(t, old(memory[..]), g, data)
  {
    ghost var m := memory[..];
    if data == [] {
      return true;
    }
    var first := t(g);
    if first == None {
      return false;
    }
    if first.value.limit >= |data| {
      WritingNext(t, m, g, data, m, data, first.value.host, |data|);
      assert data[..|data|] == data && data[|data|..] == [];
      CopyIn(memory, first.value.host, data);
      return true;
    }
    var current, rest := g, data;
    while rest != []
      invariant current == g + (|data| - |rest|)
      invariant Writing(t, m, g, data, memory[..], rest)
    {
      var r := t(current);
      if r == None {
        return false;
      }
      var k := if |rest| < r.value.limit then |rest| else r.value.limit;
      WritingNext(t, m, g, data, memory[..], rest, r.value.host, k);
      CopyIn(memory, r.value.host, rest[..k]);
      current, rest := current + k, rest[k..];
    }
    ok := true;
  }

  /** A non-overlapping copy of a chunk into memory. */
  method CopyIn(memory: array<Byte>, h: nat, chunk: seq<Byte>)
    requires h + |chunk| <= memory.Length
    modifies memory
    ensures memory[..] == Copy(old(memory[..]), h, chunk)
  {
    forall i | 0 <= i < |chunk| {
      memory[h + i] := chunk[i];
    }
  }

  // ----- objects

  /** Reads an object of `n` bytes; it must lie in one region. */
  method ReadObj(t: Translator, memory: array<Byte>, g: nat, n: nat) returns (r: Option<seq<Byte>>)
    requires Sound(t, memory.Length)
    ensures r.Some? <==> t(g).Some? && n <= t(g).value.limit
    ensures r.Some? ==> Reach(t, g, n) == n && r.value == Load(t, memory[..], g, n)
  {
    var region := t(g);
    if region == None || region.value.limit < n {
      return None;
    }
    var h := region.value.host;
    LoadRegion(t, memory[..], g, h, n);
    r := Some(memory[h..h + n]);
  }

  /** Writes an object; it must fit in one region. */
  method WriteObj(t: Translator, memory: array<Byte>, g: nat, value: seq<Byte>) returns (ok: bool)
    requires Sound(t, memory.Length)
    modifies memory
    ensures ok <==> t(g).Some? && |value| <= t(g).value.limit
    ensures ok ==> Reach(t, g, |value|) == |value|
    ensures memory[..] == if ok then Store(t, old(memory[..]), g, value) else old(memory[..])
  {
    var region := t(g);
    if region == None || region.value.limit < |value| {
      return false;
    }
    ReachRegion(t, g, |value|, region.value.host, |value|);
    StoreRegion(t, memory[..], g, value, region.value.host, |value|);
    assert value[..|value|] == value;
    CopyIn(memory, region.value.host, value);
    ok := true;
  }

  // ----- what byte-wise access promises

  /** A host byte outside the image of the range is not written. */
  lemma {:induction false} StoreElsewhere(t: Translator, memory: seq<Byte>, g: nat, data: seq<Byte>, h: nat)
    requires InMemory(t, |memory|) && h < |memory|
    requires forall v: nat :: g <= v < g + |data| && t(v).Some? ==> t(v).value.host != h
    ensures Store(t, memory, g, data)[h] == memory[h]
    decreases |data|
  {
    if data != [] && t(g).Some? {
      StoreElsewhere(t, memory[t(g).value.host := data[0]], g + 1, data[1..], h);
    }
  }

  /** No two guest bytes of the range share a host byte. */
  ghost predicate InjectiveOn(t: Translator, g: nat, n: nat) {
    forall v: nat, w: nat :: g <= v < w < g + n && t(v).Some? && t(w).Some? ==> t(v).value.host != t(w).value.host
  }

  lemma {:induction false} StoreAt(t: Translator, memory: seq<Byte>, g: nat, data: seq<Byte>, i: nat)
    requires InMemory(t, |memory|) && InjectiveOn(t, g, |data|) && i < Reach(t, g, |data|)
    ensures t(g + i).Some? && Store(t, memory, g, data)[t(g + i).value.host] == data[i]
    decreases |data|
  {
    var memory1 := memory[t(g).value.host := data[0]];
    if i == 0 {
      StoreElsewhere(t, memory1, g + 1, data[1..], t(g).value.host);
    } else {
      StoreAt(t, memory1, g + 1, data[1..], i - 1);
    }
  }

  /** Reading back what was written, over any split into regions, returns the bytes written before the first gap. */
  lemma WriteReadRoundTrip(t: Translator, memory: seq<Byte>, g: nat, data: seq<Byte>)
    requires InMemory(t, |memory|) && InjectiveOn(t, g, |data|)
    ensures Load(t, Store(t, memory, g, data), g, |data|) == data[..Reach(t, g, |data|)]
  {
    var memory' := Store(t, memory, g, data);
    forall i | 0 <= i < Reach(t, g, |data|) ensures Load(t, memory', g, |data|)[i] == data[i] {
      LoadAt(t, memory', g, |data|, i);
      StoreAt(t, memory, g, data, i);
    }
  }

  /** Two translators with the same byte map. */
  ghost predicate SameBytes(t: Translator, u: Translator) {
    forall g: nat :: t(g).Some? == u(g).Some? && (t(g).Some? ==> t(g).value.host == u(g).value.host)
  }

  /** The cut into regions cannot be observed: only the byte map matters. */
  lemma {:induction false} RegionsInvisible(t: Translator, u: Translator, memory: seq<Byte>, g: nat, data: seq<Byte>)
    requires SameBytes(t, u) && InMemory(t, |memory|) && InMemory(u, |memory|)
    ensures Reach(t, g, |data|) == Reach(u, g, |data|)
    ensures Load(t, memory, g, |data|) == Load(u, memory, g, |data|)
    ensures Store(t, memory, g, data) == Store(u, memory, g, data)
    decreases |data|
  {
    if data != [] && t(g).Some? {
      RegionsInvisible(t, u, memory, g + 1, data[1..]);
      RegionsInvisible(t, u, memory[t(g).value.host := data[0]], g + 1, data[1..]);
    }
  }
}
