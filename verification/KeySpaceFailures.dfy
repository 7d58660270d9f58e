/** Runs from an empty server that show where the code differs from what one would expect. */
module KeySpaceFailures {
  import opened Wire
  import opened KeySpace
  import opened TimedMap
  import opened KeySpaceRuns

  lemma {:induction false} AfterPrefix(clients: nat, a: seq<Event>, b: seq<Event>, n: nat)
    requires n <= |a|
    ensures After(clients, a + b, n) == After(clients, a, n)
  {
    if n > 0 {
      AfterPrefix(clients, a, b, n - 1);
    }
  }

  /** One more event after a run that the eager server can follow. */
  lemma NextEvent(t0: int, events: seq<Event>, e: Event) returns (l: Lazy, s: Eager, l': Lazy)
    requires AdmissibleRun(1, t0, events)
    ensures l == After(1, events + [e], |events|) && s == EagerAfter(1, t0, events, |events|) && Sim(l, s)
    ensures l' == After(1, events + [e], |events| + 1) && l' == Step(l, e)
  {
    l, s := Simulate(1, t0, events, |events|);
    AfterPrefix(1, events, [e], |events|);
    l' := Step(l, e);
  }

  /** Client 0 sends a command with two arguments, which is run. */
  function Sends(x: Bytes, y: Bytes, cmd: Cmd, now: int): seq<Event> {
    [Push(0, []), Push(0, x), Push(0, y), Run(0, cmd, now)]
  }

  /** The eager server after events that leave client 0 without arguments. */
  ghost predicate At(t0: int, events: seq<Event>, s: Eager) {
    AdmissibleRun(1, t0, events) && EagerAfter(1, t0, events, |events|) == s && s.argvs == [[]]
  }

  lemma EagerPrefix(t0: int, a: seq<Event>, b: seq<Event>, n: nat)
    requires n <= |a|
    ensures EagerAfter(1, t0, a + b, n) == EagerAfter(1, t0, a, n)
  {
  }

  /** One event at a time. */
  lemma EagerNext(t0: int, events: seq<Event>, s: Eager, e: Event)
    requires AdmissibleRun(1, t0, events) && EagerAfter(1, t0, events, |events|) == s && Admissible(s, e)
    ensures AdmissibleRun(1, t0, events + [e]) && EagerAfter(1, t0, events + [e], |events| + 1) == EagerStep(s, e)
  {
    var all := events + [e];
    EagerPrefix(t0, events, [e], |events|);
    forall i | 0 <= i < |all| ensures Admissible(EagerAfter(1, t0, all, i), all[i]) {
      EagerPrefix(t0, events, [e], i);
      if i < |events| {
        assert Admissible(EagerAfter(1, t0, events, i), events[i]);
      }
    }
  }

  lemma Pushed(t0: int, events: seq<Event>, s: Eager, args: seq<Bytes>, x: Bytes)
    requires AdmissibleRun(1, t0, events) && EagerAfter(1, t0, events, |events|) == s && s.argvs == [args]
    ensures AdmissibleRun(1, t0, events + [Push(0, x)])
    ensures EagerAfter(1, t0, events + [Push(0, x)], |events| + 1) == s.(argvs := [args + [x]])
  {
    EagerNext(t0, events, s, Push(0, x));
    assert s.argvs[0 := args + [x]] == [args + [x]];
  }

  /** The arguments of one more command have arrived. */
  lemma Arrives(t0: int, events: seq<Event>, s: Eager, x: Bytes, y: Bytes) returns (events': seq<Event>, s': Eager)
    requires At(t0, events, s)
    ensures events' == events + [Push(0, []), Push(0, x), Push(0, y)] && s' == s.(argvs := [[[], x, y]])
    ensures AdmissibleRun(1, t0, events') && EagerAfter(1, t0, events', |events'|) == s'
  {
    var e1, e2, e3 := Push(0, []), Push(0, x), Push(0, y);
    Pushed(t0, events, s, [], []);
    Pushed(t0, events + [e1], s.(argvs := [[] + [[]]]), [] + [[]], x);
    Pushed(t0, events + [e1] + [e2], s.(argvs := [[] + [[]] + [x]]), [] + [[]] + [x], y);
    assert [] + [[]] + [x] + [y] == [[], x, y];
    events', s' := events + [e1] + [e2] + [e3], s.(argvs := [[[], x, y]]);
  }

  /** One more command is run, and the client reset. */
  lemma Completes(t0: int, events: seq<Event>, s: Eager, x: Bytes, y: Bytes, cmd: Cmd, now: int)
    returns (events': seq<Event>, s': Eager)
    requires At(t0, events, s) && s.book.clock <= now && (cmd == Set ==> NUL !in x)
    ensures events' == events + Sends(x, y, cmd, now) + [Clear(0)] && At(t0, events', s')
    ensures s' == Eager(Answered(s.book, 0, [[], x, y], cmd, now), [[]])
  {
    var ev, s1 := Arrives(t0, events, s, x, y);
    s' := RunAndClear(t0, ev, s1, cmd, now);
    events' := ev + [Run(0, cmd, now)] + [Clear(0)];
    assert events' == events + Sends(x, y, cmd, now) + [Clear(0)];
  }

  lemma RunAndClear(t0: int, events: seq<Event>, s: Eager, cmd: Cmd, now: int) returns (s': Eager)
    requires AdmissibleRun(1, t0, events) && EagerAfter(1, t0, events, |events|) == s && |s.argvs| == 1
    requires Admissible(s, Run(0, cmd, now))
    ensures s' == Eager(Answered(s.book, 0, s.argvs[0], cmd, now), [[]])
    ensures At(t0, events + [Run(0, cmd, now)] + [Clear(0)], s')
  {
    var e := Run(0, cmd, now);
    EagerNext(t0, events, s, e);
    EagerNext(t0, events + [e], EagerStep(s, e), Clear(0));
    s' := EagerStep(EagerStep(s, e), Clear(0));
    assert s.argvs[0 := []] == [[]];
  }

  lemma Nothing(t0: int)
    ensures At(t0, [], EagerStart(1, t0))
  {
  }

  lemma CStringOf(k: Bytes, tail: Bytes)
    requires NUL !in k
    ensures CString(k + [NUL] + tail) == k
  {
    var k', r := k + [NUL] + tail, CString(k + [NUL] + tail);
    assert k'[|k|] == NUL && forall i :: 0 <= i < |k| ==> k'[i] != NUL;
    assert forall i :: 0 <= i < |r| ==> r[i] == k'[i] != NUL;
    assert r == k'[..|k|];
  }

  /** The book with one key. */
  ghost function Kept(k: Bytes, e: Entry, answers: seq<Answer>, now: int): Book {
    Book(map[k := e], {}, answers, answers, now)
  }

  /** After SET k v on an empty server. */
  ghost function Stored(k: Bytes, e: Entry, answers: seq<Answer>, now: int): Eager {
    Eager(Kept(k, e, answers, now), [[]])
  }

  lemma StoresFirst(k: Bytes, v: Bytes, now: int) returns (events: seq<Event>, s: Eager)
    requires NUL !in k
    ensures events == Sends(k, v, Set, now) + [Clear(0)] && At(now, events, s)
    ensures s == Stored(k, Entry(v, None), [Answer(0, Ok)], now)
  {
    Nothing(now);
    events, s := Completes(now, [], EagerStart(1, now), k, v, Set, now);
    assert [] + Sends(k, v, Set, now) == Sends(k, v, Set, now);
    EagerSet(k, v, now);
  }

  lemma EagerSet(k: Bytes, v: Bytes, now: int)
    ensures Answered(NewBook(now), 0, [[], k, v], Set, now) == Kept(k, Entry(v, None), [Answer(0, Ok)], now)
  {
    assert View(map[], now) == map[];
    assert LeftOver(map[], {}, now) == {};
  }

  /** EXPIRE of a key that is stored without a deadline. */
  lemma EagerExpire(k: Bytes, v: Bytes, seconds: Bytes, answers: seq<Answer>, now: int)
    requires IsSeconds(seconds)
    ensures var d := Wrap64(now + ParseInt64(seconds).value * 1000);
            Answered(Kept(k, Entry(v, None), answers, now), 0, [[], k, seconds], Expire, now) ==
            Kept(k, Entry(v, Some(d)), answers + [Answer(0, Integer(1))], now)
  {
    var m := map[k := Entry(v, None)];
    assert View(m, now) == m;
    assert LeftOver(m, {}, now) == {};
  }

  lemma StoresDeadline(k: Bytes, v: Bytes, seconds: Bytes, now: int) returns (events: seq<Event>, s: Eager)
    requires NUL !in k && IsSeconds(seconds)
    ensures events == Sends(k, v, Set, now) + [Clear(0)] + (Sends(k, seconds, Expire, now) + [Clear(0)])
    ensures At(now, events, s)
    ensures s == Stored(k, Entry(v, Some(Wrap64(now + ParseInt64(seconds).value * 1000))),
                        [Answer(0, Ok), Answer(0, Integer(1))], now)
  {
    var ev1, s1 := StoresFirst(k, v, now);
    EagerExpire(k, v, seconds, s1.book.told, now);
    events, s := Completes(now, ev1, s1, k, seconds, Expire, now);
    assert [Answer(0, Ok)] + [Answer(0, Integer(1))] == [Answer(0, Ok), Answer(0, Integer(1))];
  }

  /** SET k, and then SET of a longer key that starts with k and a NUL. */
  function Overwrite(k: Bytes, tail: Bytes, v: Bytes, now: int): seq<Event> {
    Sends(k, v, Set, now) + [Clear(0)] + Sends(k + [NUL] + tail, v, Set, now)
  }

  lemma OverwriteRun(k: Bytes, tail: Bytes, v: Bytes, now: int) returns (events: seq<Event>, l: Lazy, l': Lazy)
    requires NUL !in k
    ensures events == Overwrite(k, tail, v, now) && |events| == 9
    ensures l == After(1, events, 8) && l' == After(1, events, 9) && !l.aborted && l'.aborted
  {
    var k', e := k + [NUL] + tail, Run(0, Set, now);
    var ev1, s1 := StoresFirst(k, v, now);
    var ev2, s2 := Arrives(now, ev1, s1, k', v);
    var s;
    l, s, l' := NextEvent(now, ev2, e);
    OverwriteAborts(l, s, k, tail, v, now);
    events := ev2 + [e];
    assert events == Overwrite(k, tail, v, now);
  }

  /** A run from start-up that fails the "overwrite is not supported" assertion, at its last event. */
  lemma OverwriteIsReached(k: Bytes, tail: Bytes, v: Bytes, now: int)
    requires NUL !in k
    ensures var events := Overwrite(k, tail, v, now);
            !After(1, events, |events| - 1).aborted && After(1, events, |events|).aborted
  {
    var events, l, l' := OverwriteRun(k, tail, v, now);
  }

  lemma OverwriteAborts(l: Lazy, s: Eager, k: Bytes, tail: Bytes, v: Bytes, now: int)
    requires NUL !in k && Sim(l, s) && s.book.clock == now && s.book.m == map[k := Entry(v, None)]
    requires s.argvs == [[[], k + [NUL] + tail, v]]
    ensures Step(l, Run(0, Set, now)).aborted
  {
    var k' := k + [NUL] + tail;
    CStringOf(k, tail);
    assert k'[|k|] == NUL;
    assert Args(l.w, 0)[1] == k' == Arg(l.w, 0, 1);
    assert k in View(s.book.m, now) && k' !in View(s.book.m, now);
    SetAborts(l.w, 0, now);
  }

  lemma OneIsSeconds()
    ensures ParseInt64([49]) == Some(1)
  {
    assert [49] == Decimal(1);
    ParseDecimal(1);
  }

  /** SET k, EXPIRE k in one second, and EXPIRE k again at a later time. */
  function ExpireTwice(k: Bytes, v: Bytes, now: int, late: int): seq<Event> {
    Sends(k, v, Set, now) + [Clear(0)] + (Sends(k, [49], Expire, now) + [Clear(0)]) + Sends(k, [49], Expire, late) +
    [Clear(0)]
  }

  lemma StaleRun(k: Bytes, v: Bytes, now: int, late: int) returns (events: seq<Event>, l: Lazy, s: Eager)
    requires NUL !in k && 0 <= now < INT64_LIMIT - 1000 && late >= now + 1000
    ensures events == ExpireTwice(k, v, now, late)
    ensures l == After(1, events, |events|) && s == EagerAfter(1, now, events, |events|)
    ensures var first := [Answer(0, Ok), Answer(0, Integer(1))];
            l.replies == first + [Answer(0, CouldNotExpire)] && s.book.replies == first + [Answer(0, Integer(0))]
  {
    OneIsSeconds();
    var ev, s0 := StoresDeadline(k, v, [49], now);
    EagerExpireLate(k, v, s0.book.told, now, late);
    events, s := Completes(now, ev, s0, k, [49], Expire, late);
    assert events == ExpireTwice(k, v, now, late);
    var s';
    l, s' := Simulate(1, now, events, |events|);
  }

  /** A run from start-up in which lazy expiry shows: the last EXPIRE is of a key whose time is over. */
  lemma StaleExpireShows(k: Bytes, v: Bytes, now: int, late: int)
    requires NUL !in k && 0 <= now < INT64_LIMIT - 1000 && late >= now + 1000
    ensures var events := ExpireTwice(k, v, now, late);
            var first := [Answer(0, Ok), Answer(0, Integer(1))];
            && After(1, events, |events|).replies == first + [Answer(0, CouldNotExpire)]
            && EagerAfter(1, now, events, |events|).book.replies == first + [Answer(0, Integer(0))]
  {
    var events, l, s := StaleRun(k, v, now, late);
  }

  lemma EagerExpireLate(k: Bytes, v: Bytes, answers: seq<Answer>, now: int, late: int)
    requires now + 1000 <= late
    ensures var b := Answered(Kept(k, Entry(v, Some(now + 1000)), answers, now), 0, [[], k, [49]], Expire, late);
            b.replies == answers + [Answer(0, Integer(0))] && b.told == answers + [Answer(0, CouldNotExpire)]
  {
    OneIsSeconds();
    var m := map[k := Entry(v, Some(now + 1000))];
    assert k in LeftOver(m, {}, late) && k !in View(m, late);
  }

  /** SET k, and EXPIRE k in more seconds than 64 bits of milliseconds can hold. */
  function ExpireFar(k: Bytes, v: Bytes, now: int): seq<Event> {
    Sends(k, v, Set, now) + [Clear(0)] + (Sends(k, Decimal(INT64_LIMIT / 1000 + 1), Expire, now) + [Clear(0)])
  }

  lemma FarIsPast(k: Bytes, v: Bytes, now: int)
    requires 0 <= now < INT64_LIMIT - 1000
    ensures k in LeftOver(map[k := Entry(v, Some(Wrap64(now + (INT64_LIMIT / 1000 + 1) * 1000)))], {}, now)
  {
  }

  lemma FarRun(k: Bytes, v: Bytes, now: int) returns (events: seq<Event>, l: Lazy)
    requires NUL !in k && 0 <= now < INT64_LIMIT - 1000
    ensures events == ExpireFar(k, v, now) && l == After(1, events, |events|)
    ensures l.replies == [Answer(0, Ok), Answer(0, Integer(1))] && Stale(l.w, k, now)
  {
    var far := INT64_LIMIT / 1000 + 1;
    assert ParseInt64(Decimal(far)) == Some(far) by { ParseDecimal(far); }
    var s;
    events, s := StoresDeadline(k, v, Decimal(far), now);
    var s';
    l, s' := Simulate(1, now, events, |events|);
    FarIsPast(k, v, now);
  }

  /** A run from start-up in which a key is over at the moment it is told to expire in the far future. */
  lemma FarDeadlineVanishes(k: Bytes, v: Bytes, now: int)
    requires NUL !in k && 0 <= now < INT64_LIMIT - 1000
    ensures var events := ExpireFar(k, v, now);
            var l := After(1, events, |events|);
            l.replies == [Answer(0, Ok), Answer(0, Integer(1))] && Stale(l.w, k, now)
  {
    var events, l := FarRun(k, v, now);
  }
}
