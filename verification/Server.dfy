/** The server's key space as it is: two key stores, counted objects, and commands that change them in place. */
module Server {
  import opened Wire
  import opened KvStore
  import opened KeySpace

  class Database {
    const keys: Store<Ref>
    const expires: Store<int>
    /** The live objects, and an address that has never been used. */
    var heap: map<Ref, Object>
    var next: Ref
    /** The arguments of each client. */
    var argvs: seq<seq<Ref>>

    ghost function Repr(): set<object> {
      {this, keys, keys.dicts, keys.index, expires, expires.dicts, expires.index}
    }

    /** The two stores share nothing, and each has a single dict, as at start-up. */
    ghost predicate Stores()
      reads Repr()
    {
      && keys as object != expires && keys.dicts as object != expires.dicts && keys.index != expires.index
      && keys.dicts as object != expires.index && keys.index as object != expires.dicts
      && keys.Valid() && expires.Valid() && keys.numDicts == 1 && expires.numDicts == 1
    }

    ghost function State(): World
      reads Repr()
      requires Stores()
    {
      World(keys.Dict(0), expires.Dict(0), heap, argvs)
    }

    ghost predicate Valid()
      reads Repr()
    {
      Stores() && Inv(State()) && forall o :: o in heap ==> o < next
    }

    /** src/redis/db.c:415-423: the stores are created with one dict each, on demand. */
    constructor (clients: nat)
      ensures Valid() && fresh(Repr()) && next == 0 && State() == World(map[], map[], map[], seq(clients, _ => []))
    {
      var ks := new Store<Ref>(0, true);
      var es := new Store<int>(0, true);
      keys, expires := ks, es;
      heap, next, argvs := map[], 0, seq(clients, _ => []);
      new;
      FreshInv(clients);
    }

    /** Releases the object when its last reference goes. */
    method DecrRef(o: Ref)
      requires Stores() && o in heap && heap[o].count > 0
      modifies this`heap
      ensures Stores() && State() == Decr(old(State()), o)
    {
      if heap[o].count == 1 {
        heap := heap - {o};
      } else {
        heap := heap[o := heap[o].(count := heap[o].count - 1)];
      }
    }

    method IncrRef(o: Ref)
      requires Stores() && o in heap
      modifies this`heap
      ensures Stores() && State() == Incr(old(State()), o)
    {
      heap := heap[o := heap[o].(count := heap[o].count + 1)];
    }

    /** src/redis/db.c:200-203 */
    method RemoveExpire(k: Bytes)
      requires Stores()
      modifies expires, expires.dicts, expires.index
      ensures Stores() && State() == old(State()).(expires := old(State()).expires - {k})
    {
      var _ := expires.DeleteKey(0, k);
    }

    method RemoveKey(k: Bytes)
      requires Stores()
      modifies keys, keys.dicts, keys.index
      ensures Stores() && State() == old(State()).(keys := old(State()).keys - {k})
    {
      var _ := keys.DeleteKey(0, k);
    }

    /** Gives the entry of k, which exists, a value. */
    method SetEntry(k: Bytes, o: Ref)
      requires Stores() && k in State().keys
      modifies keys.dicts
      ensures Stores() && State() == old(State()).(keys := old(State()).keys[k := o])
    {
      keys.SetVal(0, k, o);
    }

    /** src/redis/db.c:90, 102: an entry for a key that is not there, and its value. */
    method AddEntry(k: Bytes, o: Ref) returns (added: bool)
      requires Stores()
      modifies keys, keys.dicts, keys.index
      ensures Stores() && added == (k !in old(State()).keys)
      ensures added ==> State() == old(State()).(keys := old(State()).keys[k := o])
    {
      added := keys.AddRaw(0, k);
      if added {
        ghost var m := keys.Dict(0);
        keys.SetVal(0, k, o);
        assert keys.Dict(0) == old(keys.Dict(0))[k := o];
      }
    }

    /** src/redis/db.c:190-198: a deadline for a key that has none. */
    method SetExpire(k: Bytes, when: int) returns (added: bool)
      requires Stores()
      modifies expires, expires.dicts, expires.index
      ensures Stores() && added == (k !in old(State()).expires)
      ensures State() == if added then old(State()).(expires := old(State()).expires[k := when]) else old(State())
    {
      added := expires.AddRaw(0, k);
      if added {
        expires.SetVal(0, k, when);
        assert expires.Dict(0) == old(expires.Dict(0))[k := when];
      }
    }

    /** dict_delete_key on the keys, with the value destructor of src/redis/db.c:227-231. */
    method DropEntry(k: Bytes)
      requires Stores() && (k in State().keys ==> State().keys[k] in heap && heap[State().keys[k]].count > 0)
      modifies keys, keys.dicts, keys.index, this`heap
      ensures Stores()
      ensures var w := old(State());
              State() == if k in w.keys then Decr(w.(keys := w.keys - {k}), w.keys[k]) else w
    {
      ghost var w := State();
      var v := keys.Find(0, k);
      RemoveKey(k);
      if v.Some? {
        DecrRef(v.value);
      } else {
        assert w.keys - {k} == w.keys;
      }
    }

    /** src/redis/db.c:205-210 */
    method DeleteKey(k: Bytes)
      requires Valid()
      modifies Repr()
      ensures next == old(next)
      ensures Valid() && State() == KeySpace.DeleteKey(old(State()), k)
    {
      ghost var w := State();
      if k in State().keys {
        ValueIsLive(w, multiset{}, k);
      }
      RemoveExpire(k);
      DropEntry(k);
      StillValid(w, KeySpace.DeleteKey(w, k));
    }

    lemma StillValid(w: World, w': World)
      requires Stores() && State() == w' && Inv(w') && Shrinks(w, w') && forall o :: o in w.heap ==> o < next
      ensures Valid()
    {
    }

    /** src/redis/db.c:212-219 */
    method ExpireIfNeeded(k: Bytes, now: int) returns (gone: bool)
      requires Valid()
      modifies Repr()
      ensures next == old(next)
      ensures Valid() && State() == Lookup(old(State()), k, now) && gone == Expired(old(State()), k, now)
    {
      var when := expires.Find(0, k);
      if when.None? || now < when.value {
        return false;
      }
      DeleteKey(k);
      return true;
    }

    /** src/redis/module.c:307-321 */
    method LookupKey(k: Bytes, now: int) returns (v: Option<Ref>)
      requires Valid()
      modifies Repr()
      ensures next == old(next)
      ensures Valid() && State() == Lookup(old(State()), k, now)
      ensures v == if k in State().keys then Some(State().keys[k]) else None
    {
      var gone := ExpireIfNeeded(k, now);
      if gone {
        return None;
      }
      v := keys.Find(0, k);
    }

    /** src/redis/module.c:342-346, with the count that src/modules/string.c:22 adds first. */
    method ReplaceValue(k: Bytes, was: Ref, o: Ref)
      requires Valid() && k in State().keys && State().keys[k] == was && o in heap
      modifies Repr()
      ensures next == old(next)
      ensures Valid() && State() == SetValue(old(State()), k, o)
    {
      ghost var w := State();
      ValueIsLive(w, multiset{}, k);
      IncrRef(o);
      DecrRef(was);
      SetEntry(k, o);
      assert State() == SetValue(w, k, o);
      StillValid(w, SetValue(w, k, o));
    }

    /** src/modules/string.c:14-17 with src/redis/db.c:84-106: None is the failed "overwrite" assertion. */
    method AddNew(k: Bytes, o: Ref) returns (ok: bool)
      requires Valid() && o in heap
      modifies Repr()
      ensures next == old(next)
      ensures ok == (CString(k) !in old(State()).keys)
      ensures ok ==> Valid() && State() == AddValue(old(State()), CString(k), o)
    {
      ghost var w := State();
      IncrRef(o);
      ok := AddEntry(CString(k), o);
      if ok {
        StillValid(w, AddValue(w, CString(k), o));
      }
    }

    /** src/modules/string.c:6-31; no reply is a failed assertion. */
    method SetCommand(c: nat, now: int) returns (r: Option<Reply>)
      requires Valid() && c < |argvs|
      modifies Repr()
      ensures next == old(next)
      ensures match KeySpace.SetCommand(old(State()), c, now)
              case Aborted => r == None
              case Replied(w, reply) => r == Some(reply) && Valid() && State() == w
    {
      if |argvs[c]| != 3 {
        return Some(WrongArguments);
      }
      ghost var w := State();
      ArgIsLive(w, multiset{}, c, 1);
      var k, o := heap[argvs[c][1]].bytes, argvs[c][2];
      var v := LookupKey(k, now);
      ArgIsLive(State(), multiset{}, c, 2);
      if v.None? {
        var ok := AddNew(k, o);
        return if ok then Some(Ok) else None;
      }
      ReplaceValue(k, v.value, o);
      return Some(Ok);
    }

    /** src/modules/string.c:34-52 */
    method GetCommand(c: nat, now: int) returns (r: Reply)
      requires Valid() && c < |argvs|
      modifies Repr()
      ensures next == old(next)
      ensures Valid() && KeySpace.GetCommand(old(State()), c, now) == Replied(State(), r)
    {
      if |argvs[c]| != 2 {
        return WrongArguments;
      }
      ArgIsLive(State(), multiset{}, c, 1);
      var k := heap[argvs[c][1]].bytes;
      var v := LookupKey(k, now);
      if v.None? {
        return Null;
      }
      ValueIsLive(State(), multiset{}, k);
      return Bulk(heap[v.value].bytes);
    }

    /** src/commands/command_manager.c:152-179 */
    method ExpireCommand(c: nat, now: int) returns (r: Reply)
      requires Valid() && c < |argvs|
      modifies Repr()
      ensures next == old(next)
      ensures Valid() && KeySpace.ExpireCommand(old(State()), c, now) == Replied(State(), r)
    {
      if |argvs[c]| != 3 {
        return WrongArguments;
      }
      ghost var w := State();
      ArgIsLive(w, multiset{}, c, 1);
      ArgIsLive(w, multiset{}, c, 2);
      var seconds := ParseInt64(heap[argvs[c][2]].bytes);
      if seconds.None? || seconds.value < 0 {
        return NotAnInteger;
      }
      var k := heap[argvs[c][1]].bytes;
      var v := keys.Find(0, k);
      if v.None? {
        return Integer(0);
      }
      var added := SetExpire(k, Wrap64(now + seconds.value * 1000));
      ExecKeepsInv(w, c, Expire, now);
      StillValid(w, State());
      return if added then Integer(1) else CouldNotExpire;
    }

    /** The parser stores an argument of client c (src/redis/client.c:330, 338). */
    method Push(c: nat, bytes: Bytes)
      requires Valid() && c < |argvs|
      modifies this
      ensures Valid() && State() == PushArg(old(State()), c, bytes, old(next)) && next == old(next) + 1
    {
      ghost var w := State();
      heap := heap[next := Object(bytes, 1)];
      argvs := argvs[c := argvs[c] + [next]];
      next := next + 1;
      assert State() == PushArg(w, c, bytes, old(next));
    }

    /** src/redis/client.c:63: one argument is given up; g is the state in which its place is given up too. */
    method DropArg(c: nat, args: seq<Ref>, j: nat, ghost g: World) returns (ghost g': World)
      requires Stores() && c < |argvs| && j < |args|
      requires Inv(g) && g == State().(argvs := argvs[c := args[j..]])
      modifies this`heap
      ensures Stores() && Inv(g') && g' == State().(argvs := argvs[c := args[j + 1..]])
      ensures Reset(g, c) == Reset(g', c)
    {
      g' := DropFirst(g, c);
      assert args[j..][1..] == args[j + 1..];
      DecrRef(args[j]);
    }

    /** src/redis/client.c:60-67 */
    method ResetClient(c: nat)
      requires Valid() && c < |argvs|
      modifies this`heap, this`argvs
      ensures Valid() && State() == Reset(old(State()), c)
    {
      ghost var w, g := State(), State();
      var args := argvs[c];
      for j := 0 to |args|
        invariant Stores() && argvs == old(argvs)
        invariant Inv(g) && g == State().(argvs := argvs[c := args[j..]])
        invariant Reset(g, c) == Reset(w, c)
      {
        g := DropArg(c, args, j, g);
      }
      argvs := argvs[c := []];
      StillValid(w, g);
    }
  }
}
