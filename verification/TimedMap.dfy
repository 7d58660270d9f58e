/** Lazy expiry against an eager timed map: the same effect, and the same replies with one exception. */
module TimedMap {
  import opened Wire
  import opened KeySpace

  datatype Entry = Entry(value: Bytes, deadline: Option<int>)

  type Timed = map<Bytes, Entry>

  predicate Live(e: Entry, t: int) {
    e.deadline.None? || t < e.deadline.value
  }

  /** What there is to see at time t. */
  function View(m: Timed, t: int): Timed {
    map k | k in m && Live(m[k], t) :: m[k]
  }

  /** Time takes away and never gives back. */
  lemma ViewLater(m: Timed, t: int, t': int)
    requires t <= t'
    ensures View(View(m, t), t') == View(m, t')
  {
  }

  /** The eager server: what is over is gone before a command looks. */
  function EagerExec(m: Timed, args: seq<Bytes>, cmd: Cmd, now: int): (Timed, Reply) {
    var v := View(m, now);
    match cmd
    case Set =>
      if |args| != 3 then (v, WrongArguments)
      else (v[args[1] := Entry(args[2], if args[1] in v then v[args[1]].deadline else None)], Ok)
    case Get =>
      if |args| != 2 then (v, WrongArguments)
      else (v, if args[1] in v then Bulk(v[args[1]].value) else Null)
    case Expire =>
      if |args| != 3 then (v, WrongArguments)
      else
        var s := ParseInt64(args[2]);
        if s.None? || s.value < 0 then (v, NotAnInteger)
        else if args[1] !in v then (v, Integer(0))
        else if v[args[1]].deadline.Some? then (v, CouldNotExpire)
        else (v[args[1] := v[args[1]].(deadline := Some(Wrap64(now + s.value * 1000)))], Integer(1))
  }

  /** The keys whose time is over at t and which nobody has looked at since; `stale` are those that were so before. */
  function LeftOver(m: Timed, stale: set<Bytes>, t: int): set<Bytes> {
    stale + set k | k in m && !Live(m[k], t)
  }

  /** SET and GET look at their key. */
  function LooksAt(args: seq<Bytes>, cmd: Cmd): set<Bytes> {
    if (cmd == Set && |args| == 3) || (cmd == Get && |args| == 2) then {args[1]} else {}
  }

  predicate IsSeconds(b: Bytes) {
    ParseInt64(b).Some? && ParseInt64(b).value >= 0
  }

  /** The one case in which lazy expiry shows: a well-formed EXPIRE of a key that is left over. */
  predicate Shows(stale: set<Bytes>, args: seq<Bytes>, cmd: Cmd) {
    cmd == Expire && |args| == 3 && IsSeconds(args[2]) && args[1] in stale
  }

  // ---------------------------------------------------------------- what the two dicts stand for

  ghost predicate ValuesLive(w: World) {
    forall k :: k in w.keys ==> w.keys[k] in w.heap
  }

  ghost predicate ArgsLive(w: World, c: nat) {
    c < |w.argvs| && forall i :: 0 <= i < |w.argvs[c]| ==> w.argvs[c][i] in w.heap
  }

  lemma InvLive(w: World)
    requires Inv(w)
    ensures ValuesLive(w) && forall c :: 0 <= c < |w.argvs| ==> ArgsLive(w, c)
  {
    forall k | k in w.keys ensures w.keys[k] in w.heap {
      ValueIsLive(w, multiset{}, k);
    }
    forall c, i | 0 <= c < |w.argvs| && 0 <= i < |w.argvs[c]| ensures w.argvs[c][i] in w.heap {
      ArgIsLive(w, multiset{}, c, i);
    }
  }

  ghost function Deadline(w: World, k: Bytes): Option<int> {
    if k in w.expires then Some(w.expires[k]) else None
  }

  /** Everything in the dicts, including what is over but has not been looked at since. */
  ghost function Physical(w: World): Timed
    requires ValuesLive(w)
  {
    map k | k in w.keys :: Entry(w.heap[w.keys[k]].bytes, Deadline(w, k))
  }

  ghost function Args(w: World, c: nat): seq<Bytes>
    requires ArgsLive(w, c)
  {
    seq(|w.argvs[c]|, i requires 0 <= i < |w.argvs[c]| => w.heap[w.argvs[c][i]].bytes)
  }

  /** No object that lives on changes its bytes. */
  ghost predicate SameBytes(w: World, w': World) {
    forall o: Ref :: o in w.heap && o in w'.heap ==> w.heap[o].bytes == w'.heap[o].bytes
  }

  lemma PhysicalWithout(w: World, w': World, k: Bytes)
    requires ValuesLive(w) && ValuesLive(w') && SameBytes(w, w')
    requires w'.keys == w.keys - {k} && w'.expires == w.expires - {k}
    ensures Physical(w') == Physical(w) - {k}
  {
  }

  lemma PhysicalWith(w: World, w': World, k: Bytes, o: Ref)
    requires ValuesLive(w) && ValuesLive(w') && SameBytes(w, w') && o in w.heap
    requires w'.keys == w.keys[k := o] && w'.expires == w.expires
    ensures Physical(w') == Physical(w)[k := Entry(w.heap[o].bytes, Deadline(w, k))]
  {
  }

  lemma PhysicalSame(w: World, w': World)
    requires ValuesLive(w) && ValuesLive(w') && SameBytes(w, w') && w'.keys == w.keys && w'.expires == w.expires
    ensures Physical(w') == Physical(w)
  {
  }

  lemma PhysicalDeadline(w: World, k: Bytes, d: int)
    requires ValuesLive(w) && k in w.keys
    ensures var w' := w.(expires := w.expires[k := d]);
            ValuesLive(w') && Physical(w') == Physical(w)[k := Physical(w)[k].(deadline := Some(d))]
  {
  }

  /** A key that is over and has not been looked at since. */
  predicate Stale(w: World, k: Bytes, now: int) {
    k in w.keys && Expired(w, k, now)
  }

  ghost function StaleKeys(w: World, now: int): set<Bytes> {
    set k | k in w.keys && Expired(w, k, now)
  }

  lemma LookupFacts(w: World, k: Bytes, now: int)
    requires Inv(w)
    ensures var w' := Lookup(w, k, now);
            && ValuesLive(w) && ValuesLive(w') && SameBytes(w, w')
            && Physical(w') == if Stale(w, k, now) then Physical(w) - {k} else Physical(w)
  {
    var w' := Lookup(w, k, now);
    InvLive(w);
    InvLive(w');
    if Expired(w, k, now) {
      PhysicalWithout(w, w', k);
    }
  }

  lemma SetValueFacts(w: World, k: Bytes, o: Ref)
    requires Inv(w) && k in w.keys && o in w.heap
    ensures var w' := SetValue(w, k, o);
            && ValuesLive(w) && ValuesLive(w') && SameBytes(w, w')
            && Physical(w') == Physical(w)[k := Entry(w.heap[o].bytes, Deadline(w, k))]
  {
    var w' := SetValue(w, k, o);
    InvLive(w);
    InvLive(w');
    PhysicalWith(w, w', k, o);
  }

  lemma AddValueFacts(w: World, k: Bytes, o: Ref)
    requires Inv(w) && k !in w.keys && o in w.heap
    ensures var w' := AddValue(w, k, o);
            && ValuesLive(w) && ValuesLive(w') && SameBytes(w, w')
            && Physical(w') == Physical(w)[k := Entry(w.heap[o].bytes, None)]
  {
    InvLive(w);
    InvLive(AddValue(w, k, o));
    PhysicalWith(w, AddValue(w, k, o), k, o);
  }

  // ---------------------------------------------------------------- one command

  /** Deleting what is over changes nothing in the view, and leaves a key if and only if it is in the view. */
  lemma PurgeKey(m: Timed, k: Bytes, now: int)
    ensures var m1 := if k in m && !Live(m[k], now) then m - {k} else m;
            View(m1, now) == View(m, now) && (k in m1 <==> k in View(m, now))
  {
  }

  lemma ViewUpdate(m: Timed, k: Bytes, e: Entry, now: int)
    requires k in m ==> Live(m[k], now)
    ensures View(m[k := e], now) == View(View(m, now)[k := e], now)
  {
  }

  /** A command's effect agrees with the eager server's. */
  ghost predicate Refines(w: World, r: Result, e: (Timed, Reply), now: int) {
    && r.Replied? && ValuesLive(r.w) && SameBytes(w, r.w) && View(Physical(r.w), now) == View(e.0, now)
  }

  /**
   SET fails the "overwrite is not supported" assertion exactly when the key is not in the view, contains a NUL, and
   the part of it before the NUL is stored.
   */
  lemma SetAborts(w: World, c: nat, now: int)
    requires Inv(w) && c < |w.argvs| && |w.argvs[c]| == 3
    ensures ValuesLive(w)
    ensures var k := Arg(w, c, 1);
            SetCommand(w, c, now).Aborted? <==>
            k !in View(Physical(w), now) && NUL in k && CString(k) in w.keys
  {
    InvLive(w);
    var k, w1 := Arg(w, c, 1), Lookup(w, Arg(w, c, 1), now);
    assert w1.keys == w.keys || w1.keys == w.keys - {k};
    assert k in w1.keys <==> k in View(Physical(w), now) by {
      LookupFacts(w, k, now);
      PurgeKey(Physical(w), k, now);
    }
  }

  lemma SetRefines(w: World, c: nat, now: int)
    requires Inv(w) && c < |w.argvs| && (|w.argvs[c]| == 3 ==> NUL !in Arg(w, c, 1))
    ensures ValuesLive(w) && ArgsLive(w, c)
    ensures var r := SetCommand(w, c, now);
            var e := EagerExec(Physical(w), Args(w, c), Set, now);
            Refines(w, r, e, now) && r.reply == e.1
  {
    InvLive(w);
    if |w.argvs[c]| == 3 {
      var k, o, m := Arg(w, c, 1), w.argvs[c][2], Physical(w);
      var w1 := Lookup(w, k, now);
      LookupFacts(w, k, now);
      PurgeKey(m, k, now);
      ArgIsLive(w1, multiset{}, c, 2);
      var e := Entry(w1.heap[o].bytes, Deadline(w1, k));
      ViewUpdate(Physical(w1), k, e, now);
      if k in w1.keys {
        SetValueFacts(w1, k, o);
      } else {
        AddValueFacts(w1, k, o);
      }
    }
  }

  lemma GetRefines(w: World, c: nat, now: int)
    requires Inv(w) && c < |w.argvs|
    ensures ValuesLive(w) && ArgsLive(w, c)
    ensures var r := GetCommand(w, c, now);
            var e := EagerExec(Physical(w), Args(w, c), Get, now);
            Refines(w, r, e, now) && r.reply == e.1
    ensures |w.argvs[c]| == 2 ==>
              var k, v := Arg(w, c, 1), View(Physical(w), now);
              && GetCommand(w, c, now).reply == (if k in v then Bulk(v[k].value) else Null)
              && View(Physical(GetCommand(w, c, now).w), now) == v
  {
    InvLive(w);
    ViewLater(Physical(w), now, now);
    if |w.argvs[c]| == 2 {
      LookupFacts(w, Arg(w, c, 1), now);
      PurgeKey(Physical(w), Arg(w, c, 1), now);
      assert Args(w, c)[1] == Arg(w, c, 1);
    }
  }

  /**
   EXPIRE: the same effect on the view. The reply differs exactly for three arguments, a number that is not negative,
   and a stale key: it is then an error instead of 0. So 1 is replied only for a key in the view.
   */
  lemma ExpireRefines(w: World, c: nat, now: int)
    requires Inv(w) && c < |w.argvs|
    ensures ValuesLive(w) && ArgsLive(w, c)
    ensures var r := ExpireCommand(w, c, now);
            var e := EagerExec(Physical(w), Args(w, c), Expire, now);
            && Refines(w, r, e, now)
            && (Shows(StaleKeys(w, now), Args(w, c), Expire) ==> r.reply == CouldNotExpire && e.1 == Integer(0))
            && (!Shows(StaleKeys(w, now), Args(w, c), Expire) ==> r.reply == e.1)
            && (r.reply == Integer(1) ==> Arg(w, c, 1) in View(Physical(w), now))
  {
    InvLive(w);
    ViewLater(Physical(w), now, now);
    if |w.argvs[c]| == 3 {
      var k, m := Arg(w, c, 1), Physical(w);
      var s := ParseInt64(Arg(w, c, 2));
      assert Args(w, c)[1] == k && Args(w, c)[2] == Arg(w, c, 2);
      if s.Some? && s.value >= 0 && k in w.keys && k !in w.expires {
        var d := Wrap64(now + s.value * 1000);
        PhysicalDeadline(w, k, d);
        ViewUpdate(m, k, m[k].(deadline := Some(d)), now);
      }
    }
  }

  // ---------------------------------------------------------------- the replies, one by one

  /** SET and EXPIRE take two arguments and GET one, besides the name; nothing else is run, and nothing changes. */
  lemma WrongCount(w: World, c: nat, cmd: Cmd, now: int)
    requires Inv(w) && c < |w.argvs|
    ensures var n := match cmd case Set => 3 case Get => 2 case Expire => 3;
            var r := Exec(w, c, cmd, now);
            && (|w.argvs[c]| != n ==> r == Replied(w, WrongArguments))
            && (r.Replied? && r.reply == WrongArguments ==> |w.argvs[c]| != n)
  {
  }

  lemma SecondsAre(b: Bytes)
    ensures IsSeconds(b) <==> exists n: nat :: n < 0x8000_0000_0000_0000 && b == Decimal(n)
  {
    if IsSeconds(b) {
      ParsedIsSpelled(b);
      assert b == Decimal(ParseInt64(b).value);
    }
    forall n: nat | n < 0x8000_0000_0000_0000 && b == Decimal(n) ensures IsSeconds(b) {
      ParseDecimal(n);
    }
  }

  /** EXPIRE says "not an integer" exactly when its last argument is no decimal number from 0 to 2^63 - 1. */
  lemma ExpireNotAnInteger(w: World, c: nat, now: int)
    requires Inv(w) && c < |w.argvs| && |w.argvs[c]| == 3
    ensures var r := ExpireCommand(w, c, now);
            && ((forall n: nat :: n < 0x8000_0000_0000_0000 ==> Arg(w, c, 2) != Decimal(n)) ==>
                  r == Replied(w, NotAnInteger))
            && (r.reply == NotAnInteger ==> forall n: nat :: n < 0x8000_0000_0000_0000 ==> Arg(w, c, 2) != Decimal(n))
  {
    SecondsAre(Arg(w, c, 2));
  }

  /** In particular when it is a negative number. */
  lemma ExpireNegative(w: World, c: nat, now: int, n: nat)
    requires Inv(w) && c < |w.argvs| && |w.argvs[c]| == 3 && n > 0 && Arg(w, c, 2) == [45] + Decimal(n)
    ensures ExpireCommand(w, c, now) == Replied(w, NotAnInteger)
  {
    var b := Arg(w, c, 2);
    forall m: nat ensures b != Decimal(m) {
      assert b[0] == 45 && IsDigits(Decimal(m));
    }
    ExpireNotAnInteger(w, c, now);
  }

  /** With a number, EXPIRE tells a key with a deadline, or that is stale, from one without and from none. */
  lemma ExpireReply(w: World, c: nat, now: int, n: nat)
    requires Inv(w) && c < |w.argvs| && |w.argvs[c]| == 3 && n < 0x8000_0000_0000_0000 && Arg(w, c, 2) == Decimal(n)
    ensures ValuesLive(w)
    ensures var r, k, v := ExpireCommand(w, c, now), Arg(w, c, 1), View(Physical(w), now);
            r.reply == if k in v && v[k].deadline.None? then Integer(1)
                       else if k in v || Stale(w, k, now) then CouldNotExpire
                       else Integer(0)
  {
    InvLive(w);
    ParseDecimal(n);
  }

  // ---------------------------------------------------------------- which keys are stale

  lemma LookupStale(w: World, k: Bytes, now: int)
    requires Inv(w)
    ensures StaleKeys(Lookup(w, k, now), now) == StaleKeys(w, now) - {k}
  {
    var w' := Lookup(w, k, now);
    if Expired(w, k, now) {
      assert w'.keys == w.keys - {k} && w'.expires == w.expires - {k};
    }
  }

  lemma SetStale(w: World, c: nat, now: int)
    requires Inv(w) && c < |w.argvs| && |w.argvs[c]| == 3 && SetCommand(w, c, now).Replied?
    ensures NUL !in Arg(w, c, 1) ==> StaleKeys(SetCommand(w, c, now).w, now) == StaleKeys(w, now) - {Arg(w, c, 1)}
  {
    var k, w1, w' := Arg(w, c, 1), Lookup(w, Arg(w, c, 1), now), SetCommand(w, c, now).w;
    LookupStale(w, k, now);
    if NUL !in k {
      assert w'.expires == w1.expires && w'.keys.Keys == w1.keys.Keys + {k};
    }
  }

  /** Each command leaves the same keys stale as the eager server would leave over. */
  lemma ExecStale(w: World, c: nat, cmd: Cmd, now: int)
    requires Inv(w) && c < |w.argvs| && (cmd == Set && |w.argvs[c]| == 3 ==> NUL !in Arg(w, c, 1))
    requires Exec(w, c, cmd, now).Replied?
    ensures ValuesLive(w) && ArgsLive(w, c)
    ensures StaleKeys(Exec(w, c, cmd, now).w, now) ==
            LeftOver(EagerExec(Physical(w), Args(w, c), cmd, now).0, StaleKeys(w, now) - LooksAt(Args(w, c), cmd), now)
  {
    InvLive(w);
    match cmd
    case Set =>
      if |w.argvs[c]| == 3 {
        assert Args(w, c)[1] == Arg(w, c, 1);
        SetStale(w, c, now);
      }
    case Get =>
      if |w.argvs[c]| == 2 {
        assert Args(w, c)[1] == Arg(w, c, 1);
        LookupStale(w, Arg(w, c, 1), now);
      }
    case Expire =>
      ExpireStale(w, c, now);
  }

  lemma LeftOverView(m: Timed, stale: set<Bytes>, now: int)
    ensures LeftOver(View(m, now), stale, now) == stale
  {
  }

  lemma LeftOverUpdate(m: Timed, stale: set<Bytes>, k: Bytes, e: Entry, now: int)
    ensures LeftOver(View(m, now)[k := e], stale, now) == stale + if Live(e, now) then {} else {k}
  {
  }

  lemma DeadlineStale(w: World, k: Bytes, d: int, now: int)
    requires k in w.keys && k !in w.expires
    ensures StaleKeys(w.(expires := w.expires[k := d]), now) == StaleKeys(w, now) + if now < d then {} else {k}
  {
  }

  lemma ExpireStale(w: World, c: nat, now: int)
    requires Inv(w) && c < |w.argvs| && ValuesLive(w) && ArgsLive(w, c)
    ensures StaleKeys(ExpireCommand(w, c, now).w, now) ==
            LeftOver(EagerExec(Physical(w), Args(w, c), Expire, now).0, StaleKeys(w, now), now)
  {
    var m, stale := Physical(w), StaleKeys(w, now);
    LeftOverView(m, stale, now);
    if |w.argvs[c]| == 3 {
      var k, s := Arg(w, c, 1), ParseInt64(Arg(w, c, 2));
      assert Args(w, c)[1] == k && Args(w, c)[2] == Arg(w, c, 2);
      if s.Some? && s.value >= 0 && k in w.keys && k !in w.expires {
        var d := Wrap64(now + s.value * 1000);
        DeadlineStale(w, k, d, now);
        LeftOverUpdate(m, stale, k, m[k].(deadline := Some(d)), now);
      }
    }
  }

  // ---------------------------------------------------------------- deadlines that do not fit

  /** EXPIRE sets the deadline it was asked for exactly when that fits 64 bits; otherwise another one. */
  lemma ExpireDeadline(w: World, c: nat, now: int)
    requires Inv(w) && c < |w.argvs| && 0 <= now
    requires var r := ExpireCommand(w, c, now); r.Replied? && r.reply == Integer(1)
    ensures var r, k, s := ExpireCommand(w, c, now), Arg(w, c, 1), ParseInt64(Arg(w, c, 2));
            && s.Some? && k in r.w.expires
            && (r.w.expires[k] == now + s.value * 1000 <==> now + s.value * 1000 < 0x8000_0000_0000_0000)
  {
  }

  /** With a number of seconds close to the limit of 64 bits, EXPIRE replies 1 and the key is gone at once. */
  lemma ExpireOverflows(w: World, c: nat, now: int)
    requires Inv(w) && c < |w.argvs| && |w.argvs[c]| == 3 && 0 <= now < INT64_LIMIT - 1000
    requires Arg(w, c, 1) in w.keys && Arg(w, c, 1) !in w.expires && Arg(w, c, 2) == Decimal(INT64_LIMIT / 1000 + 1)
    ensures ValuesLive(w)
    ensures var r := ExpireCommand(w, c, now);
            && r.Replied? && r.reply == Integer(1) && ValuesLive(r.w)
            && Arg(w, c, 1) in View(Physical(w), now) && Arg(w, c, 1) !in View(Physical(r.w), now)
  {
    InvLive(w);
    ParseDecimal(INT64_LIMIT / 1000 + 1);
    ExecKeepsInv(w, c, Expire, now);
    InvLive(ExpireCommand(w, c, now).w);
  }
}
