/** The pool of eviction candidates: a fixed array of slots whose key buffers are recycled. */
module EvictionPool {
  import opened Wire
  import opened TopScores

  const CACHED_SIZE: nat := 255

  /** A slot; `key` and `cached` are addresses of strings in memory. */
  datatype Slot = Slot(idle: nat, key: Option<nat>, cached: nat, dbid: int)

  /** What a filled slot stands for. */
  datatype Candidate = Candidate(idle: nat, name: Bytes, dbid: int)

  const SCORE: Candidate -> int := (c: Candidate) => c.idle

  type Memory = map<nat, Bytes>

  /** Memory with strings at the addresses below n. */
  function FreshMemory(n: nat): (m: Memory)
    ensures forall b: nat :: b in m <==> b < n
    ensures forall b :: b in m ==> m[b] == []
  {
    if n == 0 then map[] else FreshMemory(n - 1)[n - 1 := []]
  }

  /** The addresses of the recycled buffers, slot by slot. */
  ghost function Cached(s: seq<Slot>): seq<nat> {
    seq(|s|, i requires 0 <= i < |s| => s[i].cached)
  }

  ghost predicate Distinct(s: seq<nat>) {
    forall i, j :: 0 <= i < j < |s| ==> s[i] != s[j]
  }

  /** The recycled buffers of the slots are the original ones, in some order, and nothing in them is over 255 bytes. */
  ghost predicate Recycled(s: seq<Slot>, mem: Memory, originals: seq<nat>) {
    && |s| == POOL_SIZE && multiset(Cached(s)) == multiset(originals)
    && Distinct(originals) && (forall b :: b in originals ==> b in mem && |mem[b]| <= 255)
  }

  lemma {:induction false} DistinctCount(s: seq<nat>, x: nat)
    requires Distinct(s)
    ensures multiset(s)[x] <= 1
  {
    if s != [] {
      var t, l := s[..|s| - 1], s[|s| - 1];
      assert s == t + [l];
      DistinctCount(t, x);
      if l == x {
        assert x !in t;
      }
    }
  }

  /** No two slots share a recycled buffer. */
  lemma CachedDiffer(s: seq<Slot>, mem: Memory, originals: seq<nat>, i: nat, j: nat)
    requires Recycled(s, mem, originals) && i < j < |s|
    ensures s[i].cached != s[j].cached && s[i].cached in originals && s[j].cached in originals
  {
    var c := Cached(s);
    assert c[i] in multiset(c) && c[j] in multiset(c);
    assert c == c[..i] + [c[i]] + c[i + 1..j] + [c[j]] + c[j + 1..];
    DistinctCount(originals, c[i]);
  }

  lemma CachedIsOriginal(s: seq<Slot>, mem: Memory, originals: seq<nat>, i: nat)
    requires Recycled(s, mem, originals) && i < |s|
    ensures s[i].cached in originals && s[i].cached in mem
  {
    assert Cached(s)[i] == s[i].cached && Cached(s)[i] in multiset(Cached(s));
  }

  /**
   A slot holds a key: in its own recycled buffer exactly when the key has at most 255 bytes, and otherwise in a copy
   that is not one of the recycled buffers.
   */
  ghost predicate Filled(s: Slot, mem: Memory, originals: seq<nat>) {
    && s.key.Some? && s.key.value in mem
    && (s.key.value == s.cached <==> |mem[s.key.value]| <= 255)
    && (s.key.value == s.cached || s.key.value !in originals)
  }

  /**
   The first n slots are filled, except that slot `hole` (if it is below n) is about to be written. No two slots share
   a key, and memory holds the recycled buffers and the keys of filled slots, and nothing else.
   */
  ghost predicate Owned(s: seq<Slot>, n: nat, hole: nat, mem: Memory, originals: seq<nat>) {
    && Recycled(s, mem, originals) && n <= |s|
    && (forall i :: 0 <= i < n && i != hole ==> Filled(s[i], mem, originals))
    && (forall i :: n <= i < |s| ==> s[i].key.None?)
    && (forall i, j :: 0 <= i < j < n && i != hole && j != hole ==> s[i].key != s[j].key)
    && (forall b :: b in mem ==> b in originals || exists i :: 0 <= i < n && i != hole && s[i].key == Some(b))
  }

  ghost function Entry(s: Slot, mem: Memory): Candidate
    requires s.key.Some? && s.key.value in mem
  {
    Candidate(s.idle, mem[s.key.value], s.dbid)
  }

  /** The entries of the first n slots, in order. */
  ghost function View(s: seq<Slot>, n: nat, mem: Memory, originals: seq<nat>): seq<Candidate>
    requires Owned(s, n, n, mem, originals)
  {
    seq(n, i requires 0 <= i < n => Entry(s[i], mem))
  }

  /** The entries of the first n slots without slot `hole`. */
  ghost function Others(s: seq<Slot>, n: nat, hole: nat, mem: Memory, originals: seq<nat>): seq<Candidate>
    requires hole < n && Owned(s, n, hole, mem, originals)
  {
    seq(n - 1, i requires 0 <= i < n - 1 => Entry(s[if i < hole then i else i + 1], mem))
  }

  ghost function ShiftedRight(s: seq<Slot>, k: nat, x: Slot): seq<Slot>
    requires k < |s|
  {
    s[..k] + [x] + s[k..|s| - 1]
  }

  ghost function ShiftedLeft(s: seq<Slot>, k: nat, x: Slot): seq<Slot>
    requires k < |s|
  {
    s[1..k + 1] + [x] + s[k + 1..]
  }

  lemma RotateRight(c: seq<nat>, k: nat)
    requires k < |c|
    ensures multiset(c[..k] + [c[|c| - 1]] + c[k..|c| - 1]) == multiset(c)
  {
    assert c == c[..k] + c[k..|c| - 1] + [c[|c| - 1]];
  }

  lemma RotateLeft(c: seq<nat>, k: nat)
    requires k < |c|
    ensures multiset(c[1..k + 1] + [c[0]] + c[k + 1..]) == multiset(c)
  {
    assert c == [c[0]] + c[1..k + 1] + c[k + 1..];
  }

  lemma RightRecycled(s: seq<Slot>, k: nat, x: Slot, mem: Memory, originals: seq<nat>)
    requires Recycled(s, mem, originals) && k < |s| && x.cached == s[|s| - 1].cached
    ensures Recycled(ShiftedRight(s, k, x), mem, originals)
  {
    var c := Cached(s);
    RotateRight(c, k);
    assert Cached(ShiftedRight(s, k, x)) == c[..k] + [c[|c| - 1]] + c[k..|c| - 1];
  }

  lemma LeftRecycled(s: seq<Slot>, k: nat, x: Slot, mem: Memory, originals: seq<nat>)
    requires Recycled(s, mem, originals) && k < |s| && x.cached == s[0].cached
    ensures Recycled(ShiftedLeft(s, k, x), mem, originals)
  {
    var c := Cached(s);
    RotateLeft(c, k);
    assert Cached(ShiftedLeft(s, k, x)) == c[1..k + 1] + [c[0]] + c[k + 1..];
  }

  lemma RightMemory(s: seq<Slot>, n: nat, k: nat, x: Slot, mem: Memory, originals: seq<nat>, b: nat)
    requires Owned(s, n, n, mem, originals) && k < n < |s| && b in mem && b !in originals
    ensures exists i :: 0 <= i < n + 1 && i != k && ShiftedRight(s, k, x)[i].key == Some(b)
  {
    var i :| 0 <= i < n && s[i].key == Some(b);
    assert ShiftedRight(s, k, x)[if i < k then i else i + 1].key == Some(b);
  }

  /** There is room on the right: the slots from k on move up, and the last recycled buffer comes to slot k. */
  lemma RightOwned(s: seq<Slot>, n: nat, k: nat, x: Slot, mem: Memory, originals: seq<nat>)
    requires Owned(s, n, n, mem, originals) && k < n < |s| && x.cached == s[|s| - 1].cached
    ensures Owned(ShiftedRight(s, k, x), n + 1, k, mem, originals)
  {
    var s' := ShiftedRight(s, k, x);
    RightRecycled(s, k, x, mem, originals);
    forall i | 0 <= i < |s| && i != k ensures s'[i] == s[if i < k then i else i - 1] { }
    forall i | 0 <= i < n + 1 && i != k ensures Filled(s'[i], mem, originals) {
      assert Filled(s[if i < k then i else i - 1], mem, originals);
    }
    forall i, j | 0 <= i < j < n + 1 && i != k && j != k ensures s'[i].key != s'[j].key {
      assert s[if i < k then i else i - 1].key != s[if j < k then j else j - 1].key;
    }
    forall b | b in mem ensures b in originals || exists i :: 0 <= i < n + 1 && i != k && s'[i].key == Some(b) {
      if b !in originals {
        RightMemory(s, n, k, x, mem, originals, b);
      }
    }
  }

  lemma RightView(s: seq<Slot>, n: nat, k: nat, x: Slot, mem: Memory, originals: seq<nat>)
    requires Owned(s, n, n, mem, originals) && k < n < |s|
    requires Owned(ShiftedRight(s, k, x), n + 1, k, mem, originals)
    ensures Others(ShiftedRight(s, k, x), n + 1, k, mem, originals) == View(s, n, mem, originals)
  {
    var s' := ShiftedRight(s, k, x);
    forall i | 0 <= i < n ensures Others(s', n + 1, k, mem, originals)[i] == View(s, n, mem, originals)[i] {
      assert s'[if i < k then i else i + 1] == s[i];
    }
  }

  lemma RightRoom(s: seq<Slot>, n: nat, k: nat, x: Slot, s': seq<Slot>, mem: Memory, originals: seq<nat>)
    requires Owned(s, n, n, mem, originals) && k < n < |s| && x.cached == s[|s| - 1].cached
    requires s' == ShiftedRight(s, k, x)
    ensures Owned(s', n + 1, k, mem, originals) && Others(s', n + 1, k, mem, originals) == View(s, n, mem, originals)
  {
    RightOwned(s, n, k, x, mem, originals);
    RightView(s, n, k, x, mem, originals);
  }

  /** What pushing out the first entry does to memory: a key that is not its recycled buffer is released. */
  ghost function Released(s: Slot, mem: Memory): Memory
    requires s.key.Some?
  {
    if s.key.value != s.cached then mem - {s.key.value} else mem
  }

  lemma ReleasedOwned(s: seq<Slot>, mem: Memory, originals: seq<nat>, b: nat)
    requires Owned(s, |s|, |s|, mem, originals) && b in Released(s[0], mem) && b !in originals
    ensures exists i :: 0 < i < |s| && s[i].key == Some(b)
  {
    CachedDiffer(s, mem, originals, 0, 1);
    var i :| 0 <= i < |s| && s[i].key == Some(b);
  }

  /** Every string that is left in memory has its owner among the slots that moved down. */
  lemma LeftMemory(s: seq<Slot>, k: nat, x: Slot, mem: Memory, originals: seq<nat>, b: nat)
    requires Owned(s, |s|, |s|, mem, originals) && k < |s| && b in Released(s[0], mem) && b !in originals
    ensures exists i :: 0 <= i < |s| && i != k && ShiftedLeft(s, k, x)[i].key == Some(b)
  {
    ReleasedOwned(s, mem, originals, b);
    var i :| 0 < i < |s| && s[i].key == Some(b);
    assert ShiftedLeft(s, k, x)[if i <= k then i - 1 else i].key == Some(b);
  }

  /** A slot other than the first keeps its key when that of the first is released. */
  lemma LeftFilled(s: seq<Slot>, mem: Memory, originals: seq<nat>, i: nat)
    requires Owned(s, |s|, |s|, mem, originals) && 0 < i < |s|
    ensures Filled(s[i], Released(s[0], mem), originals)
  {
    CachedDiffer(s, mem, originals, 0, i);
    assert s[0].key != s[i].key;
  }

  /** The pool is full: the slots up to k move down, and the first recycled buffer comes to slot k. */
  lemma LeftOwned(s: seq<Slot>, k: nat, x: Slot, mem: Memory, originals: seq<nat>)
    requires Owned(s, |s|, |s|, mem, originals) && k < |s| && x.cached == s[0].cached
    ensures Owned(ShiftedLeft(s, k, x), |s|, k, Released(s[0], mem), originals)
  {
    var mem', s' := Released(s[0], mem), ShiftedLeft(s, k, x);
    LeftRecycled(s, k, x, mem', originals);
    forall i | 0 <= i < |s| && i != k ensures s'[i] == s[if i < k then i + 1 else i] { }
    forall i | 0 <= i < |s| && i != k ensures Filled(s'[i], mem', originals) {
      LeftFilled(s, mem, originals, if i < k then i + 1 else i);
    }
    forall i, j | 0 <= i < j < |s| && i != k && j != k ensures s'[i].key != s'[j].key {
      assert s[if i < k then i + 1 else i].key != s[if j < k then j + 1 else j].key;
    }
    forall b | b in mem' ensures b in originals || exists i :: 0 <= i < |s| && i != k && s'[i].key == Some(b) {
      if b !in originals {
        LeftMemory(s, k, x, mem, originals, b);
      }
    }
  }

  /** Releasing the key of the first slot changes no other entry. */
  lemma EntryKept(s: seq<Slot>, mem: Memory, originals: seq<nat>, i: nat)
    requires Owned(s, |s|, |s|, mem, originals) && 0 < i < |s|
    ensures Filled(s[i], mem, originals) && Filled(s[i], Released(s[0], mem), originals)
    ensures Entry(s[i], Released(s[0], mem)) == Entry(s[i], mem)
  {
    LeftFilled(s, mem, originals, i);
  }

  lemma LeftSlot(s: seq<Slot>, k: nat, x: Slot, i: nat)
    requires k < |s| && i + 1 < |s|
    ensures ShiftedLeft(s, k, x)[if i < k then i else i + 1] == s[i + 1]
  {
  }

  lemma LeftView(s: seq<Slot>, k: nat, x: Slot, mem: Memory, originals: seq<nat>)
    requires Owned(s, |s|, |s|, mem, originals) && k < |s|
    requires Owned(ShiftedLeft(s, k, x), |s|, k, Released(s[0], mem), originals)
    ensures Others(ShiftedLeft(s, k, x), |s|, k, Released(s[0], mem), originals) == View(s, |s|, mem, originals)[1..]
  {
    var mem', s' := Released(s[0], mem), ShiftedLeft(s, k, x);
    forall i | 0 <= i < |s| - 1
      ensures Others(s', |s|, k, mem', originals)[i] == View(s, |s|, mem, originals)[1..][i]
    {
      LeftSlot(s, k, x, i);
      EntryKept(s, mem, originals, i + 1);
    }
  }

  lemma LeftRoom(s: seq<Slot>, k: nat, x: Slot, s': seq<Slot>, mem: Memory, originals: seq<nat>)
    requires Owned(s, |s|, |s|, mem, originals) && k < |s| && x.cached == s[0].cached && s' == ShiftedLeft(s, k, x)
    ensures Owned(s', |s|, k, Released(s[0], mem), originals)
    ensures Others(s', |s|, k, Released(s[0], mem), originals) == View(s, |s|, mem, originals)[1..]
  {
    LeftOwned(s, k, x, mem, originals);
    LeftView(s, k, x, mem, originals);
  }

  /** Writing the entry into the free slot k, under the address of its recycled buffer or a new one. */
  lemma WriteOwned(s: seq<Slot>, n: nat, k: nat, mem: Memory, originals: seq<nat>, x: Slot, name: Bytes)
    requires k < n && Owned(s, n, k, mem, originals)
    requires x.cached == s[k].cached && x.key.Some? && (x.key.value == x.cached || x.key.value !in mem)
    requires x.key.value == x.cached <==> |name| <= 255
    ensures Owned(s[k := x], n, n, mem[x.key.value := name], originals)
    ensures forall i :: 0 <= i < n && i != k ==> s[i].key.value != x.key.value
  {
    var a, s', mem' := x.key.value, s[k := x], mem[x.key.value := name];
    assert Cached(s') == Cached(s);
    forall i | 0 <= i < n && i != k ensures s[i].key.value != a {
      if i < k { CachedDiffer(s, mem, originals, i, k); } else { CachedDiffer(s, mem, originals, k, i); }
    }
    forall b | b in mem' ensures b in originals || exists i :: 0 <= i < n && i != n && s'[i].key == Some(b) {
      if b == a {
        assert s'[k].key == Some(b);
      } else if b !in originals {
        var i :| 0 <= i < n && i != k && s[i].key == Some(b);
        assert s'[i].key == Some(b);
      }
    }
  }

  lemma WriteView(s: seq<Slot>, n: nat, k: nat, mem: Memory, originals: seq<nat>, x: Slot, name: Bytes)
    requires k < n && Owned(s, n, k, mem, originals) && x.key.Some?
    requires Owned(s[k := x], n, n, mem[x.key.value := name], originals)
    requires forall i :: 0 <= i < n && i != k ==> s[i].key.value != x.key.value
    ensures var o := Others(s, n, k, mem, originals);
            View(s[k := x], n, mem[x.key.value := name], originals) ==
            o[..k] + [Candidate(x.idle, name, x.dbid)] + o[k..]
  {
    var s', mem', o := s[k := x], mem[x.key.value := name], Others(s, n, k, mem, originals);
    forall i | 0 <= i < n ensures Entry(s'[i], mem') == (o[..k] + [Candidate(x.idle, name, x.dbid)] + o[k..])[i] {
      if i != k {
        assert Entry(s'[i], mem') == Entry(s[i], mem) == o[if i < k then i else i - 1];
      }
    }
  }

  /** The scores of a list of entries. */
  ghost function Scores(v: seq<Candidate>): (r: seq<int>)
    ensures |r| == |v|
  {
    seq(|v|, i requires 0 <= i < |v| => v[i].idle)
  }

  ghost const ID: int -> int := (x: int) => x

  lemma RankOfScores(v: seq<Candidate>, x: int)
    ensures Rank(ID, Scores(v), x) == Rank(SCORE, v, x)
  {
    var k, w := Rank(SCORE, v, x), Scores(v);
    assert forall i :: 0 <= i < |v| ==> ID(w[i]) == SCORE(v[i]);
    RankIs(ID, w, x, k);
  }

  lemma ScoresInserted(v: seq<Candidate>, k: nat, c: Candidate)
    requires k <= |v|
    ensures Scores(v[..k] + [c] + v[k..]) == Scores(v)[..k] + [c.idle] + Scores(v)[k..]
  {
  }

  lemma ScoresReplaced(v: seq<Candidate>, k: nat, c: Candidate)
    requires 1 <= k <= |v|
    ensures Scores(v[1..k] + [c] + v[k..]) == Scores(v)[1..k] + [c.idle] + Scores(v)[k..]
  {
  }

  lemma OfferScores(v: seq<Candidate>, c: Candidate)
    ensures Scores(Offer(SCORE, v, c)) == Offer(ID, Scores(v), c.idle)
  {
    var k := Rank(SCORE, v, c.idle);
    RankOfScores(v, c.idle);
    ScoresInserted(v, k, c);
    if k > 0 {
      ScoresReplaced(v, k, c);
    }
  }

  lemma FreshOwned(s: seq<Slot>, mem: Memory, originals: seq<nat>)
    requires |s| == |originals| == POOL_SIZE && (forall b: nat :: b in mem <==> b < POOL_SIZE)
    requires forall b :: b in mem ==> mem[b] == []
    requires forall i: nat :: i < POOL_SIZE ==> s[i].key.None? && s[i].cached == originals[i] == i
    ensures Owned(s, 0, 0, mem, originals)
  {
    assert Cached(s) == originals;
    assert forall b :: b in mem ==> originals[b] == b;
  }

  /** v is sorted, and holds the largest entries, and the largest scores, that were offered. */
  ghost predicate Ranked(offered: multiset<Candidate>, scores: multiset<int>, v: seq<Candidate>) {
    && Sorted(SCORE, v) && IsTop(SCORE, offered, multiset(v))
    && Sorted(ID, Scores(v)) && IsTop(ID, scores, multiset(Scores(v)))
  }

  lemma OfferRanks(offered: multiset<Candidate>, scores: multiset<int>, v: seq<Candidate>, c: Candidate)
    requires Ranked(offered, scores, v)
    ensures Ranked(offered + multiset{c}, scores + multiset{c.idle}, Offer(SCORE, v, c))
  {
    OfferSorted(SCORE, v, c);
    OfferTop(SCORE, offered, v, c);
    OfferScores(v, c);
    OfferSorted(ID, Scores(v), c.idle);
    OfferTop(ID, scores, Scores(v), c.idle);
  }

  class Pool {
    const pool: array<Slot>
    /** The strings that are allocated, and the next free address. */
    var mem: Memory
    var nextAddress: nat

    ghost var n: nat
    ghost const originals: seq<nat>
    /** Everything that has been offered since the pool was allocated. */
    ghost var offered: multiset<Candidate>
    ghost var scores: multiset<int>

    ghost predicate Slots()
      reads this, pool
    {
      Owned(pool[..], n, n, mem, originals) && forall b :: b in mem ==> b < nextAddress
    }

    ghost function Contents(): seq<Candidate>
      reads this, pool
      requires Slots()
    {
      View(pool[..], n, mem, originals)
    }

    ghost predicate Valid()
      reads this, pool
    {
      Slots() && Ranked(offered, scores, Contents())
    }

    /** src/redis/evict.c:22-34 */
    constructor ()
      ensures Valid() && fresh(pool) && Contents() == [] && offered == multiset{} && scores == multiset{}
    {
      pool := new Slot[POOL_SIZE](i => Slot(0, None, i, 0));
      originals := seq(POOL_SIZE, i => i);
      mem := FreshMemory(POOL_SIZE);
      nextAddress, n, offered, scores := POOL_SIZE, 0, multiset{}, multiset{};
      new;
      FreshOwned(pool[..], mem, originals);
      assert Contents() == [] && Scores(Contents()) == [];
    }

    /** src/redis/evict.c:101-104: the scan for the place of a score. */
    method FindPlace(idle: nat) returns (k: nat)
      requires Slots()
      ensures k == Rank(SCORE, Contents(), idle)
    {
      k := 0;
      while k < POOL_SIZE && pool[k].key.Some? && pool[k].idle < idle
        invariant k <= n
        invariant forall i :: 0 <= i < k ==> pool[i].idle < idle
      {
        k := k + 1;
      }
      RankIs(SCORE, Contents(), idle, k);
    }

    /** src/redis/evict.c:115-118 */
    method ShiftRight(k: nat)
      requires pool.Length == POOL_SIZE && k < POOL_SIZE
      modifies pool
      ensures pool[k].cached == old(pool[POOL_SIZE - 1].cached) && pool[..] == ShiftedRight(old(pool[..]), k, pool[k])
    {
      var cached := pool[POOL_SIZE - 1].cached;
      forall i | k < i < POOL_SIZE {
        pool[i] := pool[i - 1];
      }
      pool[k] := pool[k].(cached := cached);
      assert pool[..] == ShiftedRight(old(pool[..]), k, pool[k]);
    }

    /** src/redis/evict.c:126-129, without the release of the key that is pushed out. */
    method ShiftLeft(k: nat)
      requires pool.Length == POOL_SIZE && k < POOL_SIZE
      modifies pool
      ensures pool[k].cached == old(pool[0].cached) && pool[..] == ShiftedLeft(old(pool[..]), k, pool[k])
    {
      var cached := pool[0].cached;
      forall i | 0 <= i < k {
        pool[i] := pool[i + 1];
      }
      pool[k] := pool[k].(cached := cached);
      assert pool[..] == ShiftedLeft(old(pool[..]), k, pool[k]);
    }

    /** Over every run: a key of at most 255 bytes is in the recycled buffer of its slot, and a longer one in a copy. */
    lemma KeysFit(i: nat)
      requires Slots() && i < n
      ensures pool.Length == 16 && pool[i].key.Some? && pool[i].key.value in mem
      ensures pool[i].key == Some(pool[i].cached) <==> |mem[pool[i].key.value]| <= 255
      ensures forall b :: b in originals ==> b in mem && |mem[b]| <= 255
    {
      assert pool[..][i] == pool[i] && Filled(pool[..][i], mem, originals);
    }

    /** src/redis/evict.c:134-143: the key goes to the recycled buffer of slot k if it fits, else to a copy. */
    method Write(k: nat, idle: nat, key: Bytes, dbid: int)
      requires k < n && Owned(pool[..], n, k, mem, originals) && forall b :: b in mem ==> b < nextAddress
      modifies pool, this`mem, this`nextAddress
      ensures Slots()
      ensures var o := old(Others(pool[..], n, k, mem, originals));
              Contents() == o[..k] + [Candidate(idle, key, dbid)] + o[k..]
    {
      ghost var s, m := pool[..], mem;
      var cached := pool[k].cached;
      CachedIsOriginal(s, m, originals, k);
      var address := cached;
      if |key| > CACHED_SIZE {
        address := nextAddress;
        nextAddress := nextAddress + 1;
      }
      mem := mem[address := key];
      var x := Slot(idle, Some(address), cached, dbid);
      pool[k] := x;
      assert pool[..] == s[k := x];
      WriteOwned(s, n, k, m, originals, x, key);
      WriteView(s, n, k, m, originals, x, key);
    }

    /** Room at the end, and nothing to move. */
    method Append(k: nat, idle: nat, key: Bytes, dbid: int)
      requires Slots() && k == n < POOL_SIZE
      modifies pool, this`mem, this`nextAddress, this`n
      ensures Slots() && Contents() == old(Contents()) + [Candidate(idle, key, dbid)]
    {
      ghost var v := Contents();
      n := n + 1;
      assert Others(pool[..], n, k, mem, originals) == v;
      Write(k, idle, key, dbid);
      assert v[..k] == v && v[k..] == [];
    }

    /** src/redis/evict.c:113-118: the slots from k on move up, which leaves slot k to be written. */
    method MakeRoom(k: nat)
      requires Slots() && k < n < POOL_SIZE
      modifies pool, this`n
      ensures n == old(n) + 1 && Owned(pool[..], n, k, mem, originals)
      ensures Others(pool[..], n, k, mem, originals) == old(Contents())
    {
      ghost var s := pool[..];
      ShiftRight(k);
      RightRoom(s, n, k, pool[k], pool[..], mem, originals);
      n := n + 1;
    }

    /** src/redis/evict.c:113-118, 134-143: room at the end, and the larger entries move up. */
    method InsertRight(k: nat, idle: nat, key: Bytes, dbid: int)
      requires Slots() && k < n < POOL_SIZE
      modifies pool, this`mem, this`nextAddress, this`n
      ensures Slots()
      ensures Contents() == old(Contents())[..k] + [Candidate(idle, key, dbid)] + old(Contents())[k..]
    {
      MakeRoom(k);
      Write(k, idle, key, dbid);
    }

    /** src/redis/evict.c:120-130: the smallest entry goes, its key is released, and the slots up to k move down. */
    method PushOut(k: nat)
      requires Slots() && n == POOL_SIZE && k < POOL_SIZE
      modifies pool, this`mem
      ensures Owned(pool[..], n, k, mem, originals) && (forall b :: b in mem ==> b < nextAddress)
      ensures Others(pool[..], n, k, mem, originals) == old(Contents())[1..]
    {
      ghost var s, m := pool[..], mem;
      if pool[0].key != Some(pool[0].cached) {
        mem := mem - {pool[0].key.value};
      }
      assert mem == Released(s[0], m);
      ShiftLeft(k);
      LeftRoom(s, k, pool[k], pool[..], m, originals);
    }

    /** src/redis/evict.c:120-143: the pool is full, and the new entry takes the place of the smallest. */
    method InsertLeft(k: nat, idle: nat, key: Bytes, dbid: int)
      requires Slots() && n == POOL_SIZE && k < POOL_SIZE
      modifies pool, this`mem, this`nextAddress
      ensures Slots()
      ensures Contents() == old(Contents())[1..k + 1] + [Candidate(idle, key, dbid)] + old(Contents())[k + 1..]
    {
      ghost var v := Contents();
      PushOut(k);
      Write(k, idle, key, dbid);
      assert v[1..][..k] == v[1..k + 1] && v[1..][k..] == v[k + 1..];
    }

    /** src/redis/evict.c:101-143: one sample. */
    method Place(idle: nat, key: Bytes, dbid: int)
      requires Slots()
      modifies pool, this`mem, this`nextAddress, this`n
      ensures Slots() && Contents() == Offer(SCORE, old(Contents()), Candidate(idle, key, dbid))
    {
      ghost var v := Contents();
      var k := FindPlace(idle);
      if k == 0 && pool[POOL_SIZE - 1].key.Some? {
        return;
      } else if k < POOL_SIZE && pool[k].key.None? {
        Append(k, idle, key, dbid);
        assert v[..k] == v && v[k..] == [];
      } else if pool[POOL_SIZE - 1].key.None? {
        InsertRight(k, idle, key, dbid);
      } else {
        InsertLeft(k - 1, idle, key, dbid);
      }
    }

    method FilledScores() returns (r: seq<int>)
      requires Slots()
      ensures r == Scores(Contents())
    {
      r := [];
      var k := 0;
      while k < POOL_SIZE && pool[k].key.Some?
        invariant k <= n && |r| == k
        invariant forall i :: 0 <= i < k ==> r[i] == pool[i].idle
      {
        r := r + [pool[k].idle];
        k := k + 1;
      }
    }

    /** The pool after one more sample is again sorted and made of the largest entries ever offered. */
    method Sample(idle: nat, key: Bytes, dbid: int)
      requires Valid()
      modifies this, pool
      ensures Valid() && Contents() == Offer(SCORE, old(Contents()), Candidate(idle, key, dbid))
      ensures offered == old(offered) + multiset{Candidate(idle, key, dbid)} && scores == old(scores) + multiset{idle}
    {
      ghost var v, c := Contents(), Candidate(idle, key, dbid);
      OfferRanks(offered, scores, v, c);
      Place(idle, key, dbid);
      label Placed:
      offered, scores := offered + multiset{c}, scores + multiset{idle};
      assert Slots() == old@Placed(Slots());
    }
  }

  /** A sample as it is offered to the pool. */
  datatype Offered = Offered(idle: nat, key: Bytes, dbid: int)

  /** The scores among the first n offers. */
  ghost function OfferedScores(offers: seq<Offered>, n: nat): multiset<int>
    requires n <= |offers|
  {
    if n == 0 then multiset{} else OfferedScores(offers, n - 1) + multiset{offers[n - 1].idle}
  }

  lemma {:induction false} OfferedCount(offers: seq<Offered>, n: nat)
    requires n <= |offers|
    ensures |OfferedScores(offers, n)| == n
  {
    if n > 0 {
      OfferedCount(offers, n - 1);
    }
  }

  /**
   Every run from an empty pool: the scores in the pool are sorted and are the min(16, n) largest of those offered,
   ties included.
   */
  method Populate(offers: seq<Offered>) returns (scores: seq<int>)
    ensures IsTop(ID, OfferedScores(offers, |offers|), multiset(scores))
    ensures |scores| == (if |offers| < 16 then |offers| else 16)
    ensures forall i, j :: 0 <= i < j < |scores| ==> scores[i] <= scores[j]
  {
    var p := new Pool();
    for i := 0 to |offers|
      invariant p.Valid() && fresh(p) && fresh(p.pool) && p.scores == OfferedScores(offers, i)
    {
      p.Sample(offers[i].idle, offers[i].key, offers[i].dbid);
    }
    scores := p.FilledScores();
    OfferedCount(offers, |offers|);
    assert |multiset(scores)| == |scores|;
    assert forall i :: 0 <= i < |scores| ==> ID(scores[i]) == scores[i];
  }
}
