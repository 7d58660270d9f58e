/** Binary arithmetic of the tree of dict sizes. */
module LowestBit {

  function Pow2(n: nat): nat
    ensures Pow2(n) > 0
  {
    if n == 0 then 1 else 2 * Pow2(n - 1)
  }

  /** `x & y` on w-bit words. */
  function BitAnd(w: nat, x: nat, y: nat): nat {
    if w == 0 then 0
    else (if x % 2 == 1 && y % 2 == 1 then 1 else 0) + 2 * BitAnd(w - 1, x / 2, y / 2)
  }

  /** The largest power of two that divides i. */
  function LowBit(i: nat): (r: nat)
    requires i > 0
    ensures 0 < r <= i
  {
    if i % 2 == 1 then 1 else 2 * LowBit(i / 2)
  }

  lemma {:induction false} AndComplement(w: nat, x: nat)
    requires x < Pow2(w)
    ensures BitAnd(w, x, Pow2(w) - 1 - x) == 0
  {
    if w > 0 {
      var y := Pow2(w) - 1 - x;
      assert y / 2 == Pow2(w - 1) - 1 - x / 2;
      AndComplement(w - 1, x / 2);
    }
  }

  /** `i & -i` in two's complement is the lowest set bit. */
  lemma {:induction false} AndNegated(w: nat, i: nat)
    requires 0 < i < Pow2(w)
    ensures BitAnd(w, i, Pow2(w) - i) == LowBit(i)
  {
    var y := Pow2(w) - i;
    if i % 2 == 1 {
      assert y / 2 == Pow2(w - 1) - 1 - i / 2;
      AndComplement(w - 1, i / 2);
    } else {
      assert y / 2 == Pow2(w - 1) - i / 2;
      AndNegated(w - 1, i / 2);
    }
  }

  /** `idx & -idx`, on words of any width that holds idx. */
  method LowestBitOf(w: nat, idx: nat) returns (r: nat)
    requires 0 < idx < Pow2(w)
    ensures r == LowBit(idx)
  {
    AndNegated(w, idx);
    r := BitAnd(w, idx, Pow2(w) - idx);
  }

  lemma {:induction false} LowBitOfPow2(b: nat)
    ensures LowBit(Pow2(b)) == Pow2(b)
  {
    if b > 0 {
      LowBitOfPow2(b - 1);
    }
  }

  lemma {:induction false} LowBitNext(i: nat)
    requires i > 0
    ensures LowBit(i + LowBit(i)) >= 2 * LowBit(i)
  {
    if i % 2 == 0 {
      LowBitNext(i / 2);
      assert (i + LowBit(i)) / 2 == i / 2 + LowBit(i / 2);
    }
  }

  lemma {:induction false} LowBitBetween(i: nat, r: nat)
    requires i > 0 && 0 < r < LowBit(i)
    ensures LowBit(i + r) <= r
  {
    if r % 2 == 0 {
      LowBitBetween(i / 2, r / 2);
      assert (i + r) / 2 == i / 2 + r / 2;
    }
  }

  /** Tree node i sums the dicts i - LowBit(i) to i - 1. */
  predicate Covers(i: nat, d: nat) {
    0 < i && i - LowBit(i) <= d < i
  }

  /** The step of the walk: the next node that covers d is i + LowBit(i), and there is none in between. */
  lemma NextCovering(i: nat, d: nat)
    requires Covers(i, d)
    ensures Covers(i + LowBit(i), d)
    ensures forall j :: i < j < i + LowBit(i) ==> !Covers(j, d)
  {
    LowBitNext(i);
    forall j | i < j < i + LowBit(i) ensures !Covers(j, d) {
      LowBitBetween(i, j - i);
    }
  }
}

/** A key store sharded over dicts, with a binary indexed tree of the dict sizes. */
module KvStore {
  import opened Wire
  import opened Sums
  import opened LowestBit

  type Key = Bytes

  /** How many of the first n entries are not zero. */
  function Positive(s: seq<nat>, n: nat): nat
    requires n <= |s|
  {
    if n == 0 then 0 else Positive(s, n - 1) + if s[n - 1] > 0 then 1 else 0
  }

  lemma {:induction false} PositiveUpdate(s: seq<nat>, d: nat, x: nat, n: nat)
    requires d < |s| && n <= |s|
    ensures Positive(s[d := x], n) ==
            Positive(s, n) + if d < n then (if x > 0 then 1 else 0) - (if s[d] > 0 then 1 else 0) else 0
  {
    if n > 0 {
      PositiveUpdate(s, d, x, n - 1);
    }
  }

  lemma {:induction false} PositiveZeros(s: seq<nat>, n: nat)
    requires n <= |s| && forall d :: 0 <= d < |s| ==> s[d] == 0
    ensures Positive(s, n) == 0
  {
    if n > 0 {
      PositiveZeros(s, n - 1);
    }
  }

  /** What tree node i should hold: the sum over the dicts it covers. */
  ghost function NodeSum(sizes: seq<nat>, i: nat): int
    requires 1 <= i <= |sizes|
  {
    Sum(sizes, i - LowBit(i), i)
  }

  /** The tree agrees with the sizes. */
  ghost predicate IndexAgrees(index: seq<int>, sizes: seq<nat>) {
    |index| == |sizes| + 1 &&
    forall i :: 1 <= i <= |sizes| ==> index[i] == NodeSum(sizes, i)
  }

  /** During a walk that has reached node idx: the nodes before it are up to date, the others are as before. */
  ghost predicate WalkAgrees(index: seq<int>, before: seq<nat>, after: seq<nat>, idx: nat) {
    |index| == |after| + 1 && |before| == |after| &&
    forall i :: 1 <= i <= |after| ==> index[i] == NodeSum(if i < idx then after else before, i)
  }

  /** A new size for dict d changes exactly the nodes that cover it. */
  lemma NodeSumUpdate(sizes: seq<nat>, d: nat, x: nat, i: nat)
    requires d < |sizes| && 1 <= i <= |sizes|
    ensures NodeSum(sizes[d := x], i) == NodeSum(sizes, i) + if Covers(i, d) then x - sizes[d] else 0
  {
    SumUpdate(sizes, d, x, i - LowBit(i), i);
  }

  lemma WalkStarts(index: seq<int>, before: seq<nat>, d: nat, x: nat)
    requires IndexAgrees(index, before) && d < |before|
    ensures WalkAgrees(index, before, before[d := x], d + 1)
  {
    forall i | 1 <= i <= |before| ensures index[i] == NodeSum(if i < d + 1 then before[d := x] else before, i) {
      NodeSumUpdate(before, d, x, i);
    }
  }

  lemma WalkStep(index: seq<int>, before: seq<nat>, d: nat, x: nat, idx: nat)
    requires d < |before| && idx <= |before| && Covers(idx, d)
    requires WalkAgrees(index, before, before[d := x], idx)
    ensures WalkAgrees(index[idx := index[idx] + x - before[d]], before, before[d := x], idx + LowBit(idx))
  {
    var index' := index[idx := index[idx] + x - before[d]];
    var next := idx + LowBit(idx);
    forall i | 1 <= i <= |before| ensures index'[i] == NodeSum(if i < next then before[d := x] else before, i) {
      WalkNode(index, before, d, x, idx, i);
    }
  }

  lemma WalkNode(index: seq<int>, before: seq<nat>, d: nat, x: nat, idx: nat, i: nat)
    requires |index| == |before| + 1 && d < |before| && idx <= |before| && Covers(idx, d) && 1 <= i <= |before|
    requires index[i] == NodeSum(if i < idx then before[d := x] else before, i)
    ensures index[idx := index[idx] + x - before[d]][i] ==
            NodeSum(if i < idx + LowBit(idx) then before[d := x] else before, i)
  {
    NextCovering(idx, d);
    NodeSumUpdate(before, d, x, i);
  }

  /** How many of the first n dicts have been created. */
  function Created<D>(dicts: seq<Option<D>>, n: nat): nat
    requires n <= |dicts|
  {
    if n == 0 then 0 else Created(dicts, n - 1) + if dicts[n - 1].Some? then 1 else 0
  }

  lemma {:induction false} CreatedUpdate<D>(dicts: seq<Option<D>>, d: nat, x: D, n: nat)
    requires d < |dicts| && n <= |dicts|
    ensures Created(dicts[d := Some(x)], n) == Created(dicts, n) + if d < n && dicts[d].None? then 1 else 0
  {
    if n > 0 {
      CreatedUpdate(dicts, d, x, n - 1);
    }
  }

  lemma {:induction false} CreatedNone<D>(dicts: seq<Option<D>>, n: nat)
    requires n <= |dicts| && forall d :: 0 <= d < n ==> dicts[d].None?
    ensures Created(dicts, n) == 0
  {
    if n > 0 {
      CreatedNone(dicts, n - 1);
    }
  }

  lemma UpdateSize<V>(m: map<Key, V>, key: Key, v: V)
    ensures |m[key := v]| == |m| + if key in m then 0 else 1
  {
    assert m[key := v].Keys == m.Keys + {key};
  }

  lemma RemoveSize<V>(m: map<Key, V>, key: Key)
    requires key in m
    ensures |m - {key}| == |m| - 1
  {
    assert (m - {key}).Keys == m.Keys - {key};
  }

  class Store<V(0)> {
    const bits: nat
    const numDicts: nat
    const dicts: array<Option<map<Key, V>>>
    /** dict_size_index; empty when there is a single dict. */
    const index: array<int>
    var keyCount: int
    var nonEmptyDicts: int
    var allocatedDicts: int

    /** The size of every dict, and how many deletions have left a dict with exactly one key. */
    ghost var sizes: seq<nat>
    ghost var leftOne: nat

    ghost function Dict(d: nat): map<Key, V>
      reads dicts
      requires d < dicts.Length
    {
      if dicts[d].Some? then dicts[d].value else map[]
    }

    ghost predicate Shape()
      reads this
    {
      && bits <= 16 && numDicts == Pow2(bits) && dicts.Length == numDicts == |sizes|
      && index.Length == (if numDicts > 1 then numDicts + 1 else 0)
    }

    ghost predicate SizesAgree()
      reads this, dicts
      requires Shape()
    {
      && (forall d :: 0 <= d < numDicts ==> sizes[d] == |Dict(d)|)
      && allocatedDicts == Created(dicts[..], numDicts)
    }

    ghost predicate Valid()
      reads this, dicts, index
    {
      && Shape() && SizesAgree()
      && keyCount == Sum(sizes, 0, numDicts)
      && nonEmptyDicts == Positive(sizes, numDicts) + leftOne
      && (numDicts > 1 ==> IndexAgrees(index[..], sizes))
    }

    /** The number of keys is also at the root of the tree. */
    lemma RootIsKeyCount()
      requires Valid() && numDicts > 1
      ensures index[numDicts] == keyCount
    {
      LowBitOfPow2(bits);
      assert index[..][numDicts] == NodeSum(sizes, numDicts);
    }

    constructor (bits: nat, onDemand: bool)
      requires bits <= 16
      ensures Valid() && fresh(dicts) && fresh(index) && this.bits == bits && leftOne == 0
      ensures forall d :: 0 <= d < numDicts ==> Dict(d) == map[]
      ensures allocatedDicts == if onDemand then 0 else numDicts
    {
      this.bits, numDicts := bits, Pow2(bits);
      dicts := new Option<map<Key, V>>[Pow2(bits)](_ => None);
      index := new int[if Pow2(bits) > 1 then Pow2(bits) + 1 else 0](_ => 0);
      keyCount, nonEmptyDicts, allocatedDicts := 0, 0, 0;
      sizes, leftOne := seq(Pow2(bits), _ => 0), 0;
      new;
      CreatedNone(dicts[..], numDicts);
      SumZeros(sizes, 0, numDicts);
      PositiveZeros(sizes, numDicts);
      forall i | 1 <= i <= numDicts ensures NodeSum(sizes, i) == 0 {
        SumZeros(sizes, i - LowBit(i), i);
      }
      assert forall d :: 0 <= d < numDicts ==> Dict(d) == map[];
      assert IndexAgrees(index[..], sizes) || numDicts == 1;
      if !onDemand {
        CreateAllDicts();
      }
    }

    /** src/redis/db.c:320-323 */
    method CreateAllDicts()
      requires Valid() && allocatedDicts == 0
      requires forall d :: 0 <= d < numDicts ==> dicts[d].None?
      modifies this`allocatedDicts, dicts
      ensures Valid() && allocatedDicts == numDicts
      ensures forall d :: 0 <= d < numDicts ==> Dict(d) == map[]
    {
      for i := 0 to numDicts
        invariant Valid() && allocatedDicts == i
        invariant forall d :: 0 <= d < numDicts ==> Dict(d) == map[] && (d >= i ==> dicts[d].None?)
      {
        CreateDictIfNeeded(i);
      }
    }

    /** src/redis/db.c:116-124 */
    method CreateDictIfNeeded(didx: nat)
      requires Valid() && didx < numDicts
      modifies this`allocatedDicts, dicts
      ensures Valid() && dicts[didx].Some?
      ensures forall d :: 0 <= d < numDicts ==> Dict(d) == old(Dict(d)) && (d != didx ==> dicts[d] == old(dicts[d]))
      ensures allocatedDicts == old(allocatedDicts) + if old(dicts[didx].None?) then 1 else 0
    {
      if dicts[didx].Some? {
        return;
      }
      CreatedUpdate(dicts[..], didx, map[], numDicts);
      dicts[didx] := Some(map[]);
      assert dicts[..] == old(dicts[..])[didx := Some(map[])];
      allocatedDicts := allocatedDicts + 1;
    }

    /** src/redis/db.c:156-160: one node; the assertion on deletions follows from what the node sums. */
    method BumpNode(idx: nat, didx: nat, delta: int, ghost before: seq<nat>, ghost after: seq<nat>)
      requires index.Length == |before| + 1 && didx < |before| && idx <= |before| && Covers(idx, didx)
      requires before[didx] + delta >= 0 && after == before[didx := before[didx] + delta]
      requires WalkAgrees(index[..], before, after, idx)
      modifies index
      ensures WalkAgrees(index[..], before, after, idx + LowBit(idx))
    {
      if delta < 0 {
        SumAtLeast(before, didx, idx - LowBit(idx), idx);
        assert index[..][idx] == NodeSum(before, idx);
        assert index[idx] >= -delta;
      }
      WalkStep(index[..], before, didx, before[didx] + delta, idx);
      index[idx] := index[idx] + delta;
      assert index[..] == old(index[..])[idx := old(index[..])[idx] + (before[didx] + delta) - before[didx]];
    }

    /** src/redis/db.c:151-165: adds delta to every node that covers didx, and to no other. */
    method UpdateIndex(didx: nat, delta: int, ghost before: seq<nat>)
      requires Shape() && didx < numDicts
      requires |before| == numDicts && before[didx] + delta >= 0 && sizes == before[didx := before[didx] + delta]
      requires numDicts > 1 ==> IndexAgrees(index[..], before)
      modifies index
      ensures numDicts > 1 ==> IndexAgrees(index[..], sizes)
    {
      if numDicts == 1 {
        return;
      }
      WalkStarts(index[..], before, didx, before[didx] + delta);
      var idx := didx + 1;
      while idx <= numDicts
        invariant Covers(idx, didx)
        invariant WalkAgrees(index[..], before, sizes, idx)
        decreases numDicts + 1 - idx
      {
        BumpNode(idx, didx, delta, before, sizes);
        NextCovering(idx, didx);
        var bit := LowestBitOf(bits + 1, idx);
        idx := idx + bit;
      }
    }

    /** A dict has gained or lost a key, and nothing has been counted yet. */
    ghost predicate Pending(didx: nat, delta: int)
      reads this, dicts, index
    {
      && Shape() && didx < numDicts && dicts[didx].Some?
      && (delta == 1 || delta == -1) && sizes[didx] + delta == |dicts[didx].value|
      && (forall d :: 0 <= d < numDicts && d != didx ==> sizes[d] == |Dict(d)|)
      && allocatedDicts == Created(dicts[..], numDicts)
      && keyCount == Sum(sizes, 0, numDicts)
      && nonEmptyDicts == Positive(sizes, numDicts) + leftOne
      && (numDicts > 1 ==> IndexAgrees(index[..], sizes))
    }

    /** src/redis/db.c:144-149: the counters; a deletion that leaves one key counts its dict again. */
    method BumpCounters(didx: nat, delta: int, dsize: nat)
      requires didx < numDicts == |sizes| && (delta == 1 || delta == -1) && sizes[didx] + delta == dsize
      requires keyCount == Sum(sizes, 0, numDicts) && nonEmptyDicts == Positive(sizes, numDicts) + leftOne
      modifies this`keyCount, this`nonEmptyDicts, this`sizes, this`leftOne
      ensures sizes == old(sizes)[didx := dsize]
      ensures keyCount == Sum(sizes, 0, numDicts) && keyCount == old(keyCount) + delta
      ensures nonEmptyDicts == Positive(sizes, numDicts) + leftOne
      ensures leftOne == old(leftOne) + if delta < 0 && dsize == 1 then 1 else 0
    {
      SumUpdate(sizes, didx, dsize, 0, numDicts);
      PositiveUpdate(sizes, didx, dsize, numDicts);
      keyCount := keyCount + delta;
      nonEmptyDicts := nonEmptyDicts + if dsize == 1 then 1 else if dsize == 0 then -1 else 0;
      leftOne := leftOne + if delta < 0 && dsize == 1 then 1 else 0;
      sizes := sizes[didx := dsize];
    }

    method UpdateCounters(didx: nat, delta: int)
      requires Pending(didx, delta)
      modifies this`keyCount, this`nonEmptyDicts, this`sizes, this`leftOne
      ensures Shape() && SizesAgree() && sizes == old(sizes)[didx := old(sizes)[didx] + delta]
      ensures keyCount == Sum(sizes, 0, numDicts) && keyCount == old(keyCount) + delta
      ensures nonEmptyDicts == Positive(sizes, numDicts) + leftOne
      ensures leftOne == old(leftOne) + if delta < 0 && sizes[didx] == 1 then 1 else 0
    {
      BumpCounters(didx, delta, |dicts[didx].value|);
    }

    /** src/redis/db.c:143-167 */
    method CumulativeKeyCountAdd(didx: nat, delta: int)
      requires Pending(didx, delta)
      modifies this`keyCount, this`nonEmptyDicts, this`sizes, this`leftOne, index
      ensures Valid() && keyCount == old(keyCount) + delta
      ensures leftOne == old(leftOne) + if delta < 0 && sizes[didx] == 1 then 1 else 0
    {
      UpdateCounters(didx, delta);
      UpdateIndex(didx, delta, old(sizes));
    }

    /** Gives a created dict a new content; the caller accounts for its size. */
    method Install(didx: nat, m: map<Key, V>)
      requires dicts.Length == numDicts && didx < numDicts && dicts[didx].Some?
      requires allocatedDicts == Created(dicts[..], numDicts)
      modifies dicts
      ensures dicts[didx] == Some(m) && allocatedDicts == Created(dicts[..], numDicts)
      ensures forall d :: 0 <= d < numDicts && d != didx ==> dicts[d] == old(dicts[d])
    {
      CreatedUpdate(dicts[..], didx, m, numDicts);
      dicts[didx] := Some(m);
      assert dicts[..] == old(dicts[..])[didx := Some(m)];
    }

    /** Gives a created dict a content with one key more or less, and accounts for it. */
    method Resize(didx: nat, m: map<Key, V>, delta: int)
      requires Valid() && didx < numDicts && dicts[didx].Some?
      requires (delta == 1 || delta == -1) && |m| == |dicts[didx].value| + delta
      modifies this`keyCount, this`nonEmptyDicts, this`sizes, this`leftOne, dicts, index
      ensures Valid() && Dict(didx) == m && keyCount == old(keyCount) + delta
      ensures forall d :: 0 <= d < numDicts && d != didx ==> Dict(d) == old(Dict(d))
      ensures leftOne == old(leftOne) + if delta < 0 && |m| == 1 then 1 else 0
    {
      Install(didx, m);
      CumulativeKeyCountAdd(didx, delta);
    }

    /** src/redis/db.c:169-174: a new entry with an unset value, or nothing when the key is present. */
    method AddRaw(didx: nat, key: Key) returns (added: bool)
      requires Valid() && didx < numDicts
      modifies this, dicts, index
      ensures Valid() && added == (key !in old(Dict(didx)))
      ensures key in Dict(didx) && Dict(didx) == old(Dict(didx))[key := Dict(didx)[key]]
      ensures !added ==> Dict(didx) == old(Dict(didx))
      ensures forall d :: 0 <= d < numDicts && d != didx ==> Dict(d) == old(Dict(d))
      ensures leftOne == old(leftOne) && keyCount == old(keyCount) + if added then 1 else 0
    {
      CreateDictIfNeeded(didx);
      var m := dicts[didx].value;
      added := key !in m;
      if added {
        var unset: V := *;
        UpdateSize(m, key, unset);
        Resize(didx, m[key := unset], 1);
      }
    }

    /** src/redis/db.c:132-139 */
    method DeleteKey(didx: nat, key: Key) returns (ok: bool)
      requires Valid() && didx < numDicts
      modifies this, dicts, index
      ensures Valid() && ok == (key in old(Dict(didx)))
      ensures Dict(didx) == old(Dict(didx)) - {key}
      ensures forall d :: 0 <= d < numDicts && d != didx ==> Dict(d) == old(Dict(d))
      ensures keyCount == old(keyCount) - if ok then 1 else 0
      ensures leftOne == old(leftOne) + if ok && |Dict(didx)| == 1 then 1 else 0
    {
      if dicts[didx].None? {
        return false;
      }
      var m := dicts[didx].value;
      ok := key in m;
      if ok {
        RemoveSize(m, key);
        Resize(didx, m - {key}, -1);
      }
    }

    /** src/redis/db.c:126-130 */
    method Find(didx: nat, key: Key) returns (v: Option<V>)
      requires Valid() && didx < numDicts
      ensures v == if key in Dict(didx) then Some(Dict(didx)[key]) else None
    {
      if dicts[didx].None? {
        return None;
      }
      var m := dicts[didx].value;
      v := if key in m then Some(m[key]) else None;
    }

    /** src/redis/db.c:176-180: the value of an entry that exists. */
    method SetVal(didx: nat, key: Key, v: V)
      requires Valid() && didx < numDicts && key in Dict(didx)
      modifies dicts
      ensures Valid() && Dict(didx) == old(Dict(didx))[key := v]
      ensures forall d :: 0 <= d < numDicts && d != didx ==> Dict(d) == old(Dict(d))
    {
      var m := dicts[didx].value;
      UpdateSize(m, key, v);
      Install(didx, m[key := v]);
    }
  }

  /** A run of insertions and deletions on a store of any number of dicts. */
  datatype Op = Insert(didx: nat, key: Key) | Remove(didx: nat, key: Key)

  /** The keys of every dict after the first k operations: plain sets, without counters or tree. */
  ghost function Shards(n: nat, ops: seq<Op>, k: nat): (r: seq<set<Key>>)
    requires k <= |ops| && forall i :: 0 <= i < |ops| ==> ops[i].didx < n
    ensures |r| == n
  {
    if k == 0 then seq(n, _ => {})
    else
      var s := Shards(n, ops, k - 1);
      match ops[k - 1]
      case Insert(d, key) => s[d := s[d] + {key}]
      case Remove(d, key) => s[d := s[d] - {key}]
  }

  /** How many of the first k operations deleted a key and left exactly one in its dict. */
  ghost function LeftOne(n: nat, ops: seq<Op>, k: nat): nat
    requires k <= |ops| && forall i :: 0 <= i < |ops| ==> ops[i].didx < n
  {
    if k == 0 then 0
    else
      var o := ops[k - 1];
      LeftOne(n, ops, k - 1) +
      if o.Remove? && o.key in Shards(n, ops, k - 1)[o.didx] && |Shards(n, ops, k)[o.didx]| == 1 then 1 else 0
  }

  /** Without deletions the count of non-empty dicts is exact. */
  lemma {:induction false} InsertsLeaveNone(n: nat, ops: seq<Op>, k: nat)
    requires k <= |ops| && forall i :: 0 <= i < |ops| ==> ops[i].didx < n && ops[i].Insert?
    ensures LeftOne(n, ops, k) == 0
  {
    if k > 0 {
      InsertsLeaveNone(n, ops, k - 1);
    }
  }

  /** The store holds the given sets of keys. */
  ghost predicate Holds<V(0)>(s: Store<V>, shards: seq<set<Key>>)
    reads s, s.dicts
  {
    |shards| == s.numDicts == s.dicts.Length && forall d :: 0 <= d < |shards| ==> s.Dict(d).Keys == shards[d]
  }

  method ApplyInsert(s: Store<int>, d: nat, key: Key, ghost shards: seq<set<Key>>)
    requires s.Valid() && Holds(s, shards) && d < s.numDicts
    modifies s, s.dicts, s.index
    ensures s.Valid() && Holds(s, shards[d := shards[d] + {key}]) && s.leftOne == old(s.leftOne)
  {
    var _ := s.AddRaw(d, key);
  }

  method ApplyRemove(s: Store<int>, d: nat, key: Key, ghost shards: seq<set<Key>>)
    requires s.Valid() && Holds(s, shards) && d < s.numDicts
    modifies s, s.dicts, s.index
    ensures s.Valid() && Holds(s, shards[d := shards[d] - {key}])
    ensures s.leftOne == old(s.leftOne) + if key in shards[d] && |shards[d] - {key}| == 1 then 1 else 0
  {
    var _ := s.DeleteKey(d, key);
    assert s.Dict(d).Keys == shards[d] - {key};
    assert |s.Dict(d)| == |s.Dict(d).Keys|;
  }

  method Apply(s: Store<int>, ghost n: nat, ops: seq<Op>, k: nat)
    requires forall i :: 0 <= i < |ops| ==> ops[i].didx < n
    requires s.Valid() && s.numDicts == n && k < |ops| && Holds(s, Shards(n, ops, k)) && s.leftOne == LeftOne(n, ops, k)
    modifies s, s.dicts, s.index
    ensures s.Valid() && Holds(s, Shards(n, ops, k + 1)) && s.leftOne == LeftOne(n, ops, k + 1)
  {
    match ops[k]
    case Insert(d, key) => ApplyInsert(s, d, key, Shards(n, ops, k));
    case Remove(d, key) => ApplyRemove(s, d, key, Shards(n, ops, k));
  }

  method ApplyAll(s: Store<int>, ghost n: nat, ops: seq<Op>)
    requires forall i :: 0 <= i < |ops| ==> ops[i].didx < n
    requires s.Valid() && s.numDicts == n && Holds(s, Shards(n, ops, 0)) && s.leftOne == 0
    modifies s, s.dicts, s.index
    ensures s.Valid() && Holds(s, Shards(n, ops, |ops|)) && s.leftOne == LeftOne(n, ops, |ops|)
  {
    for k := 0 to |ops|
      invariant s.Valid() && Holds(s, Shards(n, ops, k)) && s.leftOne == LeftOne(n, ops, k)
    {
      Apply(s, n, ops, k);
    }
  }

  method NewStore(bits: nat, ghost n: nat, ghost ops: seq<Op>) returns (s: Store<int>)
    requires bits <= 16 && n == Pow2(bits) && forall i :: 0 <= i < |ops| ==> ops[i].didx < n
    ensures fresh(s) && fresh(s.dicts) && fresh(s.index)
    ensures s.Valid() && s.numDicts == n && Holds(s, Shards(n, ops, 0)) && s.leftOne == 0
  {
    s := new Store<int>(bits, true);
  }

  /**
   Every run: the counters and the tree are those of the plain sets of keys. The count of non-empty dicts is off by
   the number of deletions that left exactly one key, and exact when there was none.
   */
  method Run(bits: nat, ops: seq<Op>) returns (s: Store<int>)
    requires bits <= 16 && forall i :: 0 <= i < |ops| ==> ops[i].didx < Pow2(bits)
    ensures s.numDicts == Pow2(bits) && s.Valid() && Holds(s, Shards(Pow2(bits), ops, |ops|))
    ensures s.leftOne == LeftOne(Pow2(bits), ops, |ops|)
  {
    ghost var n := Pow2(bits);
    s := NewStore(bits, n, ops);
    ApplyAll(s, n, ops);
  }

  /** A run after which the count is wrong: two keys in one dict, of which one is deleted. */
  method NonEmptyCountDrifts(a: Key, b: Key) returns (counted: int, actual: nat)
    requires a != b
    ensures counted == 2 && actual == 1
  {
    var s := new Store<int>(0, true);
    var _ := s.AddRaw(0, a);
    var _ := s.AddRaw(0, b);
    assert s.Dict(0).Keys == {a, b};
    var _ := s.DeleteKey(0, a);
    assert s.Dict(0).Keys == {b};
    assert s.numDicts == 1 && s.sizes[0] == |s.Dict(0)| == |s.Dict(0).Keys| == 1;
    counted, actual := s.nonEmptyDicts, 1;
    assert Positive(s.sizes, 1) == 1;
  }
}
