/** The key space with its reference-counted values: what the commands do, as functions of the whole state. */
module KeySpace {
  import opened Wire

  type Ref = nat

  datatype Object = Object(bytes: Bytes, count: nat)

  /** The two dicts of a database, the live objects, and the argument vectors of the clients. */
  datatype World = World(keys: map<Bytes, Ref>, expires: map<Bytes, int>, heap: map<Ref, Object>, argvs: seq<seq<Ref>>)

  // ---------------------------------------------------------------- reference counts

  /** Occurrences of o in the argument vectors of the first n clients. */
  ghost function ArgvCount(argvs: seq<seq<Ref>>, n: nat, o: Ref): nat
    requires n <= |argvs|
  {
    if n == 0 then 0 else ArgvCount(argvs, n - 1, o) + multiset(argvs[n - 1])[o]
  }

  ghost function KeysOf(keys: map<Bytes, Ref>, o: Ref): set<Bytes> {
    set k | k in keys && keys[k] == o
  }

  /** How often o is an argument or a stored value. */
  ghost function Owners(w: World, o: Ref): nat {
    ArgvCount(w.argvs, |w.argvs|, o) + |KeysOf(w.keys, o)|
  }

  /** Counts are exact when the references in `held` are counted besides; what nobody owns is not in memory. */
  ghost predicate Balanced(w: World, held: multiset<Ref>) {
    forall o: Ref {:trigger Owners(w, o)} ::
      if o in w.heap then w.heap[o].count == Owners(w, o) + held[o] && w.heap[o].count > 0
      else Owners(w, o) + held[o] == 0
  }

  /** Every live object is counted once per argument and per stored value, and is released when there are none. */
  ghost predicate Conserved(w: World) {
    Balanced(w, multiset{})
  }

  function Incr(w: World, o: Ref): World
    requires o in w.heap
  {
    w.(heap := w.heap[o := w.heap[o].(count := w.heap[o].count + 1)])
  }

  /** Releases the object when its last reference goes. */
  function Decr(w: World, o: Ref): World
    requires o in w.heap && w.heap[o].count > 0
  {
    if w.heap[o].count == 1 then w.(heap := w.heap - {o})
    else w.(heap := w.heap[o := w.heap[o].(count := w.heap[o].count - 1)])
  }

  lemma IncrBalanced(w: World, o: Ref, held: multiset<Ref>)
    requires o in w.heap && Balanced(w, held)
    ensures Balanced(Incr(w, o), held + multiset{o})
  {
    var w' := Incr(w, o);
    forall x: Ref ensures Owners(w', x) == Owners(w, x) { }
  }

  lemma DecrBalanced(w: World, o: Ref, held: multiset<Ref>)
    requires o in held && Balanced(w, held)
    ensures o in w.heap && w.heap[o].count > 0
    ensures Balanced(Decr(w, o), held - multiset{o})
  {
    assert Owners(w, o) >= 0;
    var w' := Decr(w, o);
    forall x: Ref ensures Owners(w', x) == Owners(w, x) { }
  }

  lemma KeysOfUpdate(keys: map<Bytes, Ref>, k: Bytes, o: Ref, x: Ref)
    ensures |KeysOf(keys[k := o], x)| ==
            |KeysOf(keys, x)| + (if x == o then 1 else 0) - (if k in keys && keys[k] == x then 1 else 0)
  {
    var before, after := KeysOf(keys, x), KeysOf(keys[k := o], x);
    assert before - {k} == after - {k};
    assert |before - {k}| == |before| - if k in before then 1 else 0;
    assert |after - {k}| == |after| - if k in after then 1 else 0;
  }

  lemma KeysOfRemove(keys: map<Bytes, Ref>, k: Bytes, x: Ref)
    requires k in keys
    ensures |KeysOf(keys - {k}, x)| == |KeysOf(keys, x)| - if keys[k] == x then 1 else 0
  {
    assert KeysOf(keys - {k}, x) == KeysOf(keys, x) - {k};
  }

  /** Storing a held reference under a key hands it over, and takes over the reference that was stored there. */
  lemma StoreBalanced(w: World, k: Bytes, o: Ref, held: multiset<Ref>)
    requires o in held && Balanced(w, held)
    ensures Balanced(w.(keys := w.keys[k := o]),
                     held - multiset{o} + if k in w.keys then multiset{w.keys[k]} else multiset{})
  {
    var w' := w.(keys := w.keys[k := o]);
    forall x: Ref ensures Owners(w', x) == Owners(w, x) + (if x == o then 1 else 0) -
                                           (if k in w.keys && w.keys[k] == x then 1 else 0)
    {
      KeysOfUpdate(w.keys, k, o, x);
    }
  }

  lemma RemoveBalanced(w: World, k: Bytes, held: multiset<Ref>)
    requires k in w.keys && Balanced(w, held)
    ensures Balanced(w.(keys := w.keys - {k}), held + multiset{w.keys[k]})
  {
    var w' := w.(keys := w.keys - {k});
    forall x: Ref ensures Owners(w', x) == Owners(w, x) - if w.keys[k] == x then 1 else 0 {
      KeysOfRemove(w.keys, k, x);
    }
  }

  lemma {:induction false} ArgvCountUpdate(argvs: seq<seq<Ref>>, c: nat, a: seq<Ref>, n: nat, x: Ref)
    requires c < |argvs| && n <= |argvs|
    ensures ArgvCount(argvs[c := a], n, x) + (if c < n then multiset(argvs[c])[x] else 0) ==
            ArgvCount(argvs, n, x) + if c < n then multiset(a)[x] else 0
  {
    if n > 0 {
      ArgvCountUpdate(argvs, c, a, n - 1, x);
    }
  }

  /** Changing one argument vector trades the references that leave it for those that enter it. */
  lemma ArgvBalanced(w: World, c: nat, a: seq<Ref>, held: multiset<Ref>, held': multiset<Ref>)
    requires c < |w.argvs| && Balanced(w, held)
    requires forall x: Ref :: held'[x] + multiset(a)[x] == held[x] + multiset(w.argvs[c])[x]
    ensures Balanced(w.(argvs := w.argvs[c := a]), held')
  {
    var w' := w.(argvs := w.argvs[c := a]);
    forall x: Ref ensures Owners(w', x) + held'[x] == Owners(w, x) + held[x] {
      ArgvCountUpdate(w.argvs, c, a, |w.argvs|, x);
    }
  }

  // ---------------------------------------------------------------- the commands

  /** Two's complement: what a 64-bit sum comes to. */
  function Wrap64(x: int): (r: int)
    ensures -INT64_LIMIT <= r < INT64_LIMIT
    ensures r == x <==> -INT64_LIMIT <= x < INT64_LIMIT
  {
    (x + INT64_LIMIT) % (2 * INT64_LIMIT) - INT64_LIMIT
  }

  datatype Cmd = Set | Get | Expire

  datatype Reply = Ok | Null | Bulk(bytes: Bytes) | Integer(n: int) | WrongArguments | NotAnInteger | CouldNotExpire

  /** A command either replies or fails an assertion, which ends the process. */
  datatype Result = Replied(w: World, reply: Reply) | Aborted

  /** From w to w' objects may go, but none appears and none changes its bytes. */
  ghost predicate Shrinks(w: World, w': World) {
    forall o: Ref :: o in w'.heap ==> o in w.heap && w'.heap[o].bytes == w.heap[o].bytes
  }

  /** What every step keeps: exact reference counts, and a deadline only for a key that is there. */
  ghost predicate Inv(w: World) {
    Conserved(w) && w.expires.Keys <= w.keys.Keys
  }

  lemma {:induction false} ArgvCountPositive(argvs: seq<seq<Ref>>, n: nat, c: nat, i: nat)
    requires c < n <= |argvs| && i < |argvs[c]|
    ensures ArgvCount(argvs, n, argvs[c][i]) > 0
  {
    if c < n - 1 {
      ArgvCountPositive(argvs, n - 1, c, i);
    } else {
      assert argvs[c][i] in multiset(argvs[c]);
    }
  }

  /** No reference dangles: arguments and stored values are live. */
  lemma ArgIsLive(w: World, held: multiset<Ref>, c: nat, i: nat)
    requires Balanced(w, held) && c < |w.argvs| && i < |w.argvs[c]|
    ensures w.argvs[c][i] in w.heap
  {
    ArgvCountPositive(w.argvs, |w.argvs|, c, i);
    assert Owners(w, w.argvs[c][i]) > 0;
  }

  lemma ValueIsLive(w: World, held: multiset<Ref>, k: Bytes)
    requires Balanced(w, held) && k in w.keys
    ensures w.keys[k] in w.heap && w.heap[w.keys[k]].count > 0
  {
    assert k in KeysOf(w.keys, w.keys[k]);
    assert Owners(w, w.keys[k]) > 0;
  }

  /** The bytes of argument i of client c. */
  function Arg(w: World, c: nat, i: nat): Bytes
    requires Inv(w) && c < |w.argvs| && i < |w.argvs[c]|
  {
    ArgIsLive(w, multiset{}, c, i);
    w.heap[w.argvs[c][i]].bytes
  }

  /** src/redis/db.c:205-210: the deadline and the key go; so does the value, if nobody else has it. */
  function DeleteKey(w: World, k: Bytes): (w': World)
    requires Inv(w)
    ensures Inv(w') && w'.argvs == w.argvs && Shrinks(w, w')
  {
    var w1 := w.(expires := w.expires - {k});
    assert Balanced(w1, multiset{}) by { assert forall x: Ref :: Owners(w1, x) == Owners(w, x); }
    if k in w.keys then
      RemoveBalanced(w1, k, multiset{});
      DecrBalanced(w1.(keys := w.keys - {k}), w.keys[k], multiset{w.keys[k]});
      assert multiset{w.keys[k]} - multiset{w.keys[k]} == multiset{};
      Decr(w1.(keys := w.keys - {k}), w.keys[k])
    else w1
  }

  predicate Expired(w: World, k: Bytes, now: int) {
    k in w.expires && now >= w.expires[k]
  }

  /** src/redis/module.c:307-321 with src/redis/db.c:212-219: looking a key up deletes it when its time is over. */
  function Lookup(w: World, k: Bytes, now: int): (w': World)
    requires Inv(w)
    ensures Inv(w') && w'.argvs == w.argvs && Shrinks(w, w') && !Expired(w', k, now)
  {
    if Expired(w, k, now) then DeleteKey(w, k) else w
  }

  /** src/modules/string.c:19-23: the new value is counted before the old one is given up. */
  function SetValue(w: World, k: Bytes, o: Ref): (w': World)
    requires Inv(w) && k in w.keys && o in w.heap
    ensures Inv(w') && w'.argvs == w.argvs && Shrinks(w, w')
  {
    IncrBalanced(w, o, multiset{});
    var w1 := Incr(w, o).(keys := w.keys[k := o]);
    StoreBalanced(Incr(w, o), k, o, multiset{o});
    assert multiset{} + multiset{o} == multiset{o};
    assert multiset{o} - multiset{o} + multiset{w.keys[k]} == multiset{w.keys[k]};
    DecrBalanced(w1, w.keys[k], multiset{w.keys[k]});
    assert multiset{w.keys[k]} - multiset{w.keys[k]} == multiset{};
    Decr(w1, w.keys[k])
  }

  /** src/modules/string.c:14-17 with src/redis/db.c:84-106: a new key. */
  function AddValue(w: World, k: Bytes, o: Ref): (w': World)
    requires Inv(w) && k !in w.keys && o in w.heap
    ensures Inv(w') && w'.argvs == w.argvs && Shrinks(w, w')
  {
    IncrBalanced(w, o, multiset{});
    StoreBalanced(Incr(w, o), k, o, multiset{o});
    assert multiset{} + multiset{o} == multiset{o};
    assert multiset{o} - multiset{o} + multiset{} == multiset{};
    Incr(w, o).(keys := w.keys[k := o])
  }

  /** src/modules/string.c:6-31: a key that is looked up whole but added as a C string may already be there. */
  function SetCommand(w: World, c: nat, now: int): Result
    requires Inv(w) && c < |w.argvs|
  {
    if |w.argvs[c]| != 3 then Replied(w, WrongArguments)
    else
      var k, o := Arg(w, c, 1), w.argvs[c][2];
      var w1 := Lookup(w, k, now);
      ArgIsLive(w1, multiset{}, c, 2);
      if k in w1.keys then Replied(SetValue(w1, k, o), Ok)
      else if CString(k) in w1.keys then Aborted
      else Replied(AddValue(w1, CString(k), o), Ok)
  }

  /** src/modules/string.c:34-52 */
  function GetCommand(w: World, c: nat, now: int): Result
    requires Inv(w) && c < |w.argvs|
  {
    if |w.argvs[c]| != 2 then Replied(w, WrongArguments)
    else
      var w1 := Lookup(w, Arg(w, c, 1), now);
      if Arg(w, c, 1) in w1.keys then
        ValueIsLive(w1, multiset{}, Arg(w, c, 1));
        Replied(w1, Bulk(w1.heap[w1.keys[Arg(w, c, 1)]].bytes))
      else Replied(w1, Null)
  }

  /** src/commands/command_manager.c:152-179: no lazy deletion here, and a deadline that is set stays as it is. */
  function ExpireCommand(w: World, c: nat, now: int): Result
    requires Inv(w) && c < |w.argvs|
  {
    if |w.argvs[c]| != 3 then Replied(w, WrongArguments)
    else
      var k, s := Arg(w, c, 1), ParseInt64(Arg(w, c, 2));
      if s.None? || s.value < 0 then Replied(w, NotAnInteger)
      else if k !in w.keys then Replied(w, Integer(0))
      else if k in w.expires then Replied(w, CouldNotExpire)
      else Replied(w.(expires := w.expires[k := Wrap64(now + s.value * 1000)]), Integer(1))
  }

  function Exec(w: World, c: nat, cmd: Cmd, now: int): Result
    requires Inv(w) && c < |w.argvs|
  {
    match cmd
    case Set => SetCommand(w, c, now)
    case Get => GetCommand(w, c, now)
    case Expire => ExpireCommand(w, c, now)
  }

  /** Every command that replies keeps the invariant, and the argument vectors. */
  lemma ExecKeepsInv(w: World, c: nat, cmd: Cmd, now: int)
    requires Inv(w) && c < |w.argvs|
    ensures var r := Exec(w, c, cmd, now); r.Replied? ==> Inv(r.w) && r.w.argvs == w.argvs && Shrinks(w, r.w)
  {
    var r := Exec(w, c, cmd, now);
    if cmd == Expire && r.Replied? {
      assert forall x: Ref :: Owners(r.w, x) == Owners(w, x);
    }
  }

  /** The parser stores an argument: a new object o with one reference (src/redis/client.c:330, 338). */
  function PushArg(w: World, c: nat, bytes: Bytes, o: Ref): (w': World)
    requires Inv(w) && c < |w.argvs| && o !in w.heap
    ensures Inv(w') && w'.keys == w.keys && w'.expires == w.expires && |w'.argvs| == |w.argvs|
  {
    var w1 := w.(heap := w.heap[o := Object(bytes, 1)]);
    assert Balanced(w1, multiset{o}) by {
      assert Owners(w, o) == 0;
      assert forall x: Ref :: Owners(w1, x) == Owners(w, x);
    }
    ArgvBalanced(w1, c, w.argvs[c] + [o], multiset{o}, multiset{});
    w1.(argvs := w.argvs[c := w.argvs[c] + [o]])
  }

  /** One reference that a client has goes with its place in the argument vector. */
  function DropFirst(w: World, c: nat): (w': World)
    requires Inv(w) && c < |w.argvs| && w.argvs[c] != []
    ensures Inv(w') && w'.keys == w.keys && w'.expires == w.expires && Shrinks(w, w')
    ensures w'.argvs == w.argvs[c := w.argvs[c][1..]]
    ensures w.argvs[c][0] in w.heap && w.heap[w.argvs[c][0]].count > 0
    ensures w' == Decr(w, w.argvs[c][0]).(argvs := w.argvs[c := w.argvs[c][1..]])
  {
    var o, rest := w.argvs[c][0], w.argvs[c][1..];
    var w1 := w.(argvs := w.argvs[c := rest]);
    assert w.argvs[c] == [o] + rest;
    ArgvBalanced(w, c, rest, multiset{}, multiset{o});
    DecrBalanced(w1, o, multiset{o});
    assert multiset{o} - multiset{o} == multiset{};
    Decr(w1, o)
  }

  /** src/redis/client.c:60-64: the client gives up its arguments, the first one first. */
  function Reset(w: World, c: nat): (w': World)
    requires Inv(w) && c < |w.argvs|
    ensures Inv(w') && w'.keys == w.keys && w'.expires == w.expires && w'.argvs == w.argvs[c := []] && Shrinks(w, w')
    decreases |w.argvs[c]|
  {
    if w.argvs[c] == [] then
      assert w.argvs[c := []] == w.argvs;
      w
    else
      assert DropFirst(w, c).argvs[c := []] == w.argvs[c := []];
      Reset(DropFirst(w, c), c)
  }

  lemma {:induction false} NoArgs(argvs: seq<seq<Ref>>, n: nat, x: Ref)
    requires n <= |argvs| && forall c :: 0 <= c < |argvs| ==> argvs[c] == []
    ensures ArgvCount(argvs, n, x) == 0
  {
    if n > 0 {
      NoArgs(argvs, n - 1, x);
    }
  }

  lemma FreshInv(clients: nat)
    ensures Inv(World(map[], map[], map[], seq(clients, _ => [])))
  {
    var w := World(map[], map[], map[], seq(clients, _ => []));
    forall x: Ref ensures Owners(w, x) == 0 {
      NoArgs(w.argvs, clients, x);
    }
  }
}
