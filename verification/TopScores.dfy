/** What an eviction pool should hold: the entries with the largest scores offered so far. */
module TopScores {

  const POOL_SIZE: nat := 16

  ghost predicate Sorted<T>(score: T -> int, v: seq<T>) {
    forall i, j :: 0 <= i < j < |v| ==> score(v[i]) <= score(v[j])
  }

  /** How many leading entries score less than x. */
  ghost function Rank<T>(score: T -> int, v: seq<T>, x: int): (k: nat)
    ensures k <= |v|
    ensures forall i :: 0 <= i < k ==> score(v[i]) < x
    ensures k < |v| ==> score(v[k]) >= x
  {
    if v == [] || score(v[0]) >= x then 0 else 1 + Rank(score, v[1..], x)
  }

  lemma RankIs<T>(score: T -> int, v: seq<T>, x: int, k: nat)
    requires k <= |v| && (forall i :: 0 <= i < k ==> score(v[i]) < x) && (k < |v| ==> score(v[k]) >= x)
    ensures Rank(score, v, x) == k
  {
  }

  /** One more entry c: inserted in front of the first that is not smaller; when there is no room the smallest goes. */
  ghost function Offer<T>(score: T -> int, v: seq<T>, c: T): seq<T> {
    var k := Rank(score, v, score(c));
    if |v| < POOL_SIZE then v[..k] + [c] + v[k..]
    else if k == 0 then v
    else v[1..k] + [c] + v[k..]
  }

  lemma OfferSorted<T>(score: T -> int, v: seq<T>, c: T)
    requires Sorted(score, v)
    ensures Sorted(score, Offer(score, v, c))
  {
  }

  /** top is made of entries of all, as many as fit, and nothing outside it beats anything inside. */
  ghost predicate IsTop<T(!new)>(score: T -> int, all: multiset<T>, top: multiset<T>) {
    && top <= all
    && |top| == (if |all| < POOL_SIZE then |all| else POOL_SIZE)
    && forall x, y {:trigger top[x], (all - top)[y]} :: x in top && y in all - top ==> score(y) <= score(x)
  }

  lemma SplitMultiset<T>(v: seq<T>, k: nat)
    requires k <= |v|
    ensures multiset(v) == multiset(v[..k]) + multiset(v[k..])
  {
    assert v == v[..k] + v[k..];
  }

  lemma TopGrows<T(!new)>(score: T -> int, all: multiset<T>, top: multiset<T>, c: T)
    requires IsTop(score, all, top) && |top| < POOL_SIZE
    ensures IsTop(score, all + multiset{c}, top + multiset{c})
  {
    assert all == top + (all - top);
    assert |all - top| == 0;
    assert all == top;
  }

  lemma TopKeeps<T(!new)>(score: T -> int, all: multiset<T>, top: multiset<T>, c: T)
    requires IsTop(score, all, top) && |top| == POOL_SIZE
    requires forall x :: x in top ==> score(c) <= score(x)
    ensures IsTop(score, all + multiset{c}, top)
  {
    forall x, y | x in top && y in all + multiset{c} - top ensures score(y) <= score(x) {
      if y != c {
        assert y in all - top;
      }
    }
  }

  lemma TopReplaces<T(!new)>(score: T -> int, all: multiset<T>, top: multiset<T>, low: T, c: T)
    requires IsTop(score, all, top) && |top| == POOL_SIZE
    requires low in top && score(low) < score(c) && forall x :: x in top ==> score(low) <= score(x)
    ensures IsTop(score, all + multiset{c}, top - multiset{low} + multiset{c})
  {
    var all', top' := all + multiset{c}, top - multiset{low} + multiset{c};
    assert top' <= all';
    forall x, y | x in top' && y in all' - top' ensures score(y) <= score(x) {
      if y != low {
        assert y in all - top;
        assert score(y) <= score(low);
      }
      assert x in top || x == c;
    }
  }

  lemma InsertedMultiset<T>(v: seq<T>, k: nat, c: T)
    requires k <= |v|
    ensures multiset(v[..k] + [c] + v[k..]) == multiset(v) + multiset{c}
  {
    SplitMultiset(v, k);
  }

  lemma ReplacedMultiset<T>(v: seq<T>, k: nat, c: T)
    requires 0 < k <= |v|
    ensures multiset(v[1..k] + [c] + v[k..]) == multiset(v) - multiset{v[0]} + multiset{c}
  {
    assert v == [v[0]] + v[1..k] + v[k..];
  }

  /** Offering an entry keeps the pool to the largest ones. */
  lemma OfferTop<T(!new)>(score: T -> int, all: multiset<T>, v: seq<T>, c: T)
    requires Sorted(score, v) && IsTop(score, all, multiset(v))
    ensures IsTop(score, all + multiset{c}, multiset(Offer(score, v, c)))
  {
    var k := Rank(score, v, score(c));
    var top := multiset(v);
    if |v| < POOL_SIZE {
      TopGrows(score, all, top, c);
      InsertedMultiset(v, k, c);
    } else {
      assert |top| == POOL_SIZE;
      assert v[0] in top && forall x :: x in top ==> score(v[0]) <= score(x);
      if k == 0 {
        TopKeeps(score, all, top, c);
      } else {
        TopReplaces(score, all, top, v[0], c);
        ReplacedMultiset(v, k, c);
      }
    }
  }

  lemma Surplus<T>(a: multiset<T>, b: multiset<T>) returns (x: T)
    requires |a| == |b| && a != b
    ensures a[x] > b[x]
  {
    assert a == (a - b) + (a * b);
    assert b == (b - a) + (a * b);
    assert |a - b| == |b - a|;
    assert a - b != multiset{};
    x :| x in a - b;
  }

  lemma TopBeats(all: multiset<int>, a: multiset<int>, b: multiset<int>, x: int, y: int)
    requires IsTop(x => x, all, a) && b <= all && a[x] > b[x] && b[y] > a[y]
    ensures y <= x
  {
    assert x in a && y in all - a;
  }

  /** The scores that belong in the pool are determined by those offered, ties included. */
  lemma TopIsUnique(all: multiset<int>, a: multiset<int>, b: multiset<int>)
    requires IsTop(x => x, all, a) && IsTop(x => x, all, b)
    ensures a == b
  {
    if a != b {
      var x := Surplus(a, b);
      var y := Surplus(b, a);
      TopBeats(all, a, b, x, y);
      TopBeats(all, b, a, y, x);
    }
  }
}
