/** The command table and the bitmap ids of its commands. */
module CommandIds {
  import opened Wire

  const BITS_COUNT: nat := 1024

  function LowerByte(b: Byte): Byte {
    if 65 <= b <= 90 then b + 32 else b
  }

  /** sds_to_lower */
  function Lower(name: Bytes): (r: Bytes)
    ensures |r| == |name|
  {
    seq(|name|, i requires 0 <= i < |name| => LowerByte(name[i]))
  }

  /** Equal bytes, or the two cases of one ASCII letter. */
  predicate SameLetter(a: Byte, b: Byte) {
    a == b || (65 <= a <= 90 && b == a + 32) || (65 <= b <= 90 && a == b + 32)
  }

  predicate SameLetters(a: Bytes, b: Bytes) {
    |a| == |b| && forall i :: 0 <= i < |a| ==> SameLetter(a[i], b[i])
  }

  /** Folding makes two names equal exactly when they differ in the case of ASCII letters only. */
  lemma LowerIs(a: Bytes, b: Bytes)
    ensures Lower(a) == Lower(b) <==> SameLetters(a, b)
  {
    if Lower(a) == Lower(b) {
      forall i | 0 <= i < |a| ensures SameLetter(a[i], b[i]) {
        assert Lower(a)[i] == Lower(b)[i];
      }
    }
    if SameLetters(a, b) {
      assert forall i :: 0 <= i < |a| ==> Lower(a)[i] == Lower(b)[i];
    }
  }

  /** The id of the n-th name: the last bit of the bitmap is passed over. */
  function IdOf(n: nat): (id: nat)
    ensures id != BITS_COUNT - 1
  {
    if n < BITS_COUNT - 1 then n else n + 1
  }

  lemma IdsDiffer(m: nat, n: nat)
    ensures IdOf(m) == IdOf(n) <==> m == n
  {
  }

  class CommandManager {
    /** The tree of ids by folded name, the table of commands by folded name, and the next id. */
    var ids: map<Bytes, nat>
    var commands: map<Bytes, nat>
    var nextid: nat
    /** The folded names in the order in which they were first seen. */
    ghost var order: seq<Bytes>

    ghost predicate Valid()
      reads this
    {
      && (forall k :: k in ids <==> k in order)
      && (forall i, j :: 0 <= i < j < |order| ==> order[i] != order[j])
      && (forall i :: 0 <= i < |order| ==> order[i] in ids && ids[order[i]] == IdOf(i))
      && nextid == IdOf(|order|)
      && (forall k :: k in commands ==> k in ids && commands[k] == ids[k])
    }

    constructor ()
      ensures Valid() && order == [] && commands == map[]
    {
      ids, commands, nextid, order := map[], map[], 0, [];
    }

    /** src/commands/command_manager.c:116-141 */
    method GetCommandId(name: Bytes) returns (id: nat)
      requires Valid()
      modifies this`ids, this`nextid, this`order
      ensures Valid() && order == if Lower(name) in old(order) then old(order) else old(order) + [Lower(name)]
      ensures Lower(name) in ids && id == ids[Lower(name)]
      ensures forall k :: k in old(ids) ==> k in ids && ids[k] == old(ids[k])
    {
      var lower := Lower(name);
      if lower in ids {
        return ids[lower];
      }
      ids := ids[lower := nextid];
      id := nextid;
      order := order + [lower];
      nextid := nextid + 1;
      if nextid == BITS_COUNT - 1 {
        nextid := nextid + 1;
      }
    }

    /** src/commands/command_manager.c:225-228: a name that is taken keeps its command. */
    method RegisterCommand(name: Bytes) returns (id: nat, added: bool)
      requires Valid()
      modifies this
      ensures Valid() && order == if Lower(name) in old(order) then old(order) else old(order) + [Lower(name)]
      ensures Lower(name) in ids && id == ids[Lower(name)]
      ensures added == (Lower(name) !in old(commands)) && Lower(name) in commands
      ensures forall k :: k in old(commands) ==> k in commands && commands[k] == old(commands[k])
      ensures forall k :: k in old(ids) ==> k in ids && ids[k] == old(ids[k])
    {
      id := GetCommandId(name);
      added := Lower(name) !in commands;
      if added {
        commands := commands[Lower(name) := id];
      }
    }
  }

  /** The distinct folded names among the first n, in order of appearance. */
  ghost function Distinct(names: seq<Bytes>, n: nat): seq<Bytes>
    requires n <= |names|
  {
    if n == 0 then []
    else
      var d := Distinct(names, n - 1);
      if Lower(names[n - 1]) in d then d else d + [Lower(names[n - 1])]
  }

  /** Name i has got the id that the tree m holds for it. */
  ghost predicate Got(names: seq<Bytes>, ids: seq<nat>, m: map<Bytes, nat>, i: nat) {
    i < |names| && i < |ids| && Lower(names[i]) in m && ids[i] == m[Lower(names[i])]
  }

  ghost predicate Assigned(names: seq<Bytes>, ids: seq<nat>, m: map<Bytes, nat>) {
    forall i :: 0 <= i < |ids| ==> Got(names, ids, m, i)
  }

  lemma AssignedNext(names: seq<Bytes>, ids: seq<nat>, m: map<Bytes, nat>, id: nat, m': map<Bytes, nat>)
    requires Assigned(names, ids, m) && |ids| < |names|
    requires forall k :: k in m ==> k in m' && m'[k] == m[k]
    requires Lower(names[|ids|]) in m' && m'[Lower(names[|ids|])] == id
    ensures Assigned(names, ids + [id], m')
  {
    forall i | 0 <= i < |ids| + 1 ensures Got(names, ids + [id], m', i) {
      if i < |ids| {
        assert Got(names, ids, m, i);
      }
    }
  }

  /** The name's folded form is the p-th distinct one, and id belongs to that place. */
  ghost predicate HasPlace(d: seq<Bytes>, lower: Bytes, id: nat) {
    exists p :: 0 <= p < |d| && d[p] == lower && id == IdOf(p)
  }

  ghost predicate AllPlacedIn(d: seq<Bytes>, names: seq<Bytes>, ids: seq<nat>)
    requires |ids| == |names|
  {
    forall i {:trigger ids[i]} :: 0 <= i < |names| ==> HasPlace(d, Lower(names[i]), ids[i])
  }

  lemma PlacedIn(d: seq<Bytes>, m: map<Bytes, nat>, lower: Bytes)
    requires lower in m && lower in d
    requires forall i :: 0 <= i < |d| ==> d[i] in m && m[d[i]] == IdOf(i)
    ensures HasPlace(d, lower, m[lower])
  {
    var p :| 0 <= p < |d| && d[p] == lower;
    assert m[d[p]] == IdOf(p);
  }

  lemma AllPlaced(d: seq<Bytes>, m: map<Bytes, nat>, names: seq<Bytes>, ids: seq<nat>)
    requires Assigned(names, ids, m) && |ids| == |names|
    requires forall k :: k in m <==> k in d
    requires forall i :: 0 <= i < |d| ==> d[i] in m && m[d[i]] == IdOf(i)
    ensures AllPlacedIn(d, names, ids)
  {
    forall i | 0 <= i < |names| ensures HasPlace(d, Lower(names[i]), ids[i]) {
      assert Got(names, ids, m, i);
      PlacedIn(d, m, Lower(names[i]));
    }
  }

  /** Equal folded names get one id, and different ones different ids. */
  lemma PlacesDiffer(d: seq<Bytes>, a: Bytes, x: nat, b: Bytes, y: nat)
    requires HasPlace(d, a, x) && HasPlace(d, b, y)
    requires forall i, j :: 0 <= i < j < |d| ==> d[i] != d[j]
    ensures x == y <==> a == b
    ensures x != BITS_COUNT - 1
  {
    var p :| 0 <= p < |d| && d[p] == a && x == IdOf(p);
    var q :| 0 <= q < |d| && d[q] == b && y == IdOf(q);
    IdsDiffer(p, q);
  }

  lemma {:induction false} DistinctAreDistinct(names: seq<Bytes>, n: nat)
    requires n <= |names|
    ensures forall i, j :: 0 <= i < j < |Distinct(names, n)| ==> Distinct(names, n)[i] != Distinct(names, n)[j]
  {
    if n > 0 {
      DistinctAreDistinct(names, n - 1);
    }
  }

  /** No name before the i-th has the same letters. */
  ghost predicate New(names: seq<Bytes>, i: nat)
    requires i < |names|
  {
    forall j :: 0 <= j < i ==> !SameLetters(names[j], names[i])
  }

  /** How many of the first n names were new. */
  ghost function NewBefore(names: seq<Bytes>, n: nat): nat
    requires n <= |names|
  {
    if n == 0 then 0 else NewBefore(names, n - 1) + if New(names, n - 1) then 1 else 0
  }

  lemma {:induction false} DistinctHas(names: seq<Bytes>, n: nat, x: Bytes)
    requires n <= |names|
    ensures Lower(x) in Distinct(names, n) <==> exists j :: 0 <= j < n && SameLetters(names[j], x)
  {
    if n > 0 {
      DistinctHas(names, n - 1, x);
      LowerIs(names[n - 1], x);
      if Lower(x) in Distinct(names, n) && Lower(x) !in Distinct(names, n - 1) {
        assert SameLetters(names[n - 1], x);
      }
    }
  }

  lemma NewIs(names: seq<Bytes>, n: nat)
    requires n < |names|
    ensures New(names, n) <==> Lower(names[n]) !in Distinct(names, n)
  {
    DistinctHas(names, n, names[n]);
  }

  /** The distinct names are the new ones, in order. */
  lemma {:induction false} DistinctCount(names: seq<Bytes>, n: nat)
    requires n <= |names|
    ensures |Distinct(names, n)| == NewBefore(names, n)
  {
    if n > 0 {
      DistinctCount(names, n - 1);
      NewIs(names, n - 1);
    }
  }

  lemma {:induction false} DistinctGrows(names: seq<Bytes>, m: nat, n: nat)
    requires m <= n <= |names|
    ensures Distinct(names, m) <= Distinct(names, n)
  {
    if m < n {
      DistinctGrows(names, m, n - 1);
    }
  }

  lemma PlaceOfNew(names: seq<Bytes>, i: nat)
    requires i < |names| && New(names, i)
    ensures var d := Distinct(names, |names|);
            NewBefore(names, i) < |d| && d[NewBefore(names, i)] == Lower(names[i])
  {
    NewIs(names, i);
    DistinctCount(names, i);
    DistinctGrows(names, i + 1, |names|);
    assert Distinct(names, i + 1) == Distinct(names, i) + [Lower(names[i])];
  }

  lemma IdOfNew(names: seq<Bytes>, i: nat, id: nat)
    requires i < |names| && New(names, i) && HasPlace(Distinct(names, |names|), Lower(names[i]), id)
    ensures var p := NewBefore(names, i); id == if p < 1023 then p else p + 1
  {
    var d := Distinct(names, |names|);
    PlaceOfNew(names, i);
    DistinctAreDistinct(names, |names|);
    var q :| 0 <= q < |d| && d[q] == Lower(names[i]) && id == IdOf(q);
  }

  lemma IdsDecided(names: seq<Bytes>, ids: seq<nat>)
    requires |ids| == |names| && AllPlacedIn(Distinct(names, |names|), names, ids)
    ensures forall i, j :: 0 <= i < |names| && 0 <= j < |names| ==>
              (ids[i] == ids[j] <==> SameLetters(names[i], names[j]))
    ensures forall i :: 0 <= i < |ids| ==> ids[i] != 1023
    ensures forall i {:trigger ids[i]} :: 0 <= i < |names| && New(names, i) ==>
              ids[i] == if NewBefore(names, i) < 1023 then NewBefore(names, i) else NewBefore(names, i) + 1
  {
    var d := Distinct(names, |names|);
    DistinctAreDistinct(names, |names|);
    forall i, j | 0 <= i < |names| && 0 <= j < |names|
      ensures ids[i] != 1023 && (ids[i] == ids[j] <==> SameLetters(names[i], names[j]))
    {
      assert HasPlace(d, Lower(names[i]), ids[i]) && HasPlace(d, Lower(names[j]), ids[j]);
      PlacesDiffer(d, Lower(names[i]), ids[i], Lower(names[j]), ids[j]);
      LowerIs(names[i], names[j]);
    }
    forall i | 0 <= i < |names| && New(names, i)
      ensures ids[i] == if NewBefore(names, i) < 1023 then NewBefore(names, i) else NewBefore(names, i) + 1
    {
      assert HasPlace(d, Lower(names[i]), ids[i]);
      IdOfNew(names, i, ids[i]);
    }
  }

  method RegisterEach(names: seq<Bytes>) returns (ids: seq<nat>)
    ensures |ids| == |names| && AllPlacedIn(Distinct(names, |names|), names, ids)
  {
    var cm := new CommandManager();
    ids := [];
    for n := 0 to |names|
      invariant fresh(cm) && cm.Valid() && cm.order == Distinct(names, n) && |ids| == n && Assigned(names, ids, cm.ids)
    {
      ghost var before := cm.ids;
      var id, added := cm.RegisterCommand(names[n]);
      AssignedNext(names, ids, before, id, cm.ids);
      ids := ids + [id];
    }
    AllPlaced(cm.order, cm.ids, names, ids);
  }

  /**
   Every registration run: two names share an id exactly when they differ in the case of letters only, each time they
   are registered; the p-th new name (from 0) gets p, or p + 1 from 1023 on; and 1023 is never given.
   */
  method RegisterAll(names: seq<Bytes>) returns (ids: seq<nat>)
    ensures |ids| == |names|
    ensures forall i, j :: 0 <= i < |names| && 0 <= j < |names| ==>
              (ids[i] == ids[j] <==> SameLetters(names[i], names[j]))
    ensures forall i {:trigger ids[i]} :: 0 <= i < |names| && New(names, i) ==>
              ids[i] == if NewBefore(names, i) < 1023 then NewBefore(names, i) else NewBefore(names, i) + 1
    ensures forall i :: 0 <= i < |ids| ==> ids[i] != 1023
  {
    ids := RegisterEach(names);
    IdsDecided(names, ids);
  }
}
