/** Runs of several clients over one key space: parsing arguments, executing commands, resetting clients. */
module KeySpaceRuns {
  import opened Wire
  import opened KeySpace
  import opened TimedMap

  /** Client c gets an argument, executes a command at a time, or gives up its arguments. */
  datatype Event = Push(c: nat, bytes: Bytes) | Run(c: nat, cmd: Cmd, now: int) | Clear(c: nat)

  /** A reply, and the client that gets it. */
  datatype Answer = Answer(client: nat, reply: Reply)

  /** The lazy server; `next` is an address that has never been used. */
  datatype Lazy = Lazy(w: World, next: Ref, replies: seq<Answer>, aborted: bool)

  ghost predicate Good(s: Lazy) {
    Inv(s.w) && forall o :: o in s.w.heap ==> o < s.next
  }

  /** One event; nothing happens for a client that does not exist, or after a failed assertion. */
  ghost function Step(s: Lazy, e: Event): (s': Lazy)
    requires Good(s)
    ensures Good(s') && |s'.w.argvs| == |s.w.argvs|
  {
    if s.aborted || e.c >= |s.w.argvs| then s
    else match e
      case Push(c, bytes) => s.(w := PushArg(s.w, c, bytes, s.next), next := s.next + 1)
      case Clear(c) => s.(w := Reset(s.w, c))
      case Run(c, cmd, now) =>
        ExecKeepsInv(s.w, c, cmd, now);
        match Exec(s.w, c, cmd, now)
        case Aborted => s.(aborted := true)
        case Replied(w, reply) => s.(w := w, replies := s.replies + [Answer(c, reply)])
  }

  ghost function Start(clients: nat): (s: Lazy)
    ensures Good(s)
  {
    FreshInv(clients);
    Lazy(World(map[], map[], map[], seq(clients, _ => [])), 0, [], false)
  }

  /** Every state of every run: counts are conserved, nothing dangles, deadlines belong to keys. */
  ghost function After(clients: nat, events: seq<Event>, n: nat): (s: Lazy)
    requires n <= |events|
    ensures Good(s) && |s.w.argvs| == clients
  {
    if n == 0 then Start(clients) else Step(After(clients, events, n - 1), events[n - 1])
  }

  // ---------------------------------------------------------------- the eager server on the same run

  /**
   A timed map that forgets a key when its time is over, with what it has answered so far (`replies`). It also remembers
   which of the forgotten keys nobody has looked at since (`stale`): what is told (`told`) is the reply, except where
   lazy expiry shows.
   */
  datatype Book = Book(m: Timed, stale: set<Bytes>, replies: seq<Answer>, told: seq<Answer>, clock: int)

  /** The book after a command of client c. */
  ghost function Answered(b: Book, c: nat, args: seq<Bytes>, cmd: Cmd, now: int): Book {
    var stale := LeftOver(b.m, b.stale, now);
    var r := EagerExec(b.m, args, cmd, now);
    Book(r.0, stale - LooksAt(args, cmd), b.replies + [Answer(c, r.1)],
         b.told + [Answer(c, if Shows(stale, args, cmd) then CouldNotExpire else r.1)], now)
  }

  ghost function NewBook(t0: int): Book {
    Book(map[], {}, [], [], t0)
  }

  /** The eager server: the book, and the arguments of each client. */
  datatype Eager = Eager(book: Book, argvs: seq<seq<Bytes>>)

  ghost function EagerStep(s: Eager, e: Event): Eager {
    if e.c >= |s.argvs| then s
    else match e
      case Push(c, bytes) => s.(argvs := s.argvs[c := s.argvs[c] + [bytes]])
      case Clear(c) => s.(argvs := s.argvs[c := []])
      case Run(c, cmd, now) => s.(book := Answered(s.book, c, s.argvs[c], cmd, now))
  }

  ghost function EagerStart(clients: nat, t0: int): Eager {
    Eager(NewBook(t0), seq(clients, _ => []))
  }

  ghost function EagerAfter(clients: nat, t0: int, events: seq<Event>, n: nat): Eager
    requires n <= |events|
  {
    if n == 0 then EagerStart(clients, t0)
    else EagerStep(EagerAfter(clients, t0, events, n - 1), events[n - 1])
  }

  /** Time does not run backwards, and a key that is set contains no NUL. */
  predicate Admissible(s: Eager, e: Event) {
    e.Run? && e.c < |s.argvs| ==>
      && s.book.clock <= e.now
      && (e.cmd == Set && |s.argvs[e.c]| == 3 ==> NUL !in s.argvs[e.c][1])
  }

  ghost predicate AdmissibleRun(clients: nat, t0: int, events: seq<Event>) {
    forall i {:trigger Admissible(EagerAfter(clients, t0, events, i), events[i])} ::
      0 <= i < |events| ==> Admissible(EagerAfter(clients, t0, events, i), events[i])
  }

  lemma AdmissibleAt(clients: nat, t0: int, events: seq<Event>, n: nat, s: Eager)
    requires AdmissibleRun(clients, t0, events) && n < |events| && s == EagerAfter(clients, t0, events, n)
    ensures Admissible(s, events[n])
  {
    var admissible := Admissible(EagerAfter(clients, t0, events, n), events[n]);
  }

  /** The two servers show the same from now on, and what is left over is the same. */
  ghost predicate SameWorld(w: World, s: Eager) {
    && Inv(w) && ValuesLive(w) && |w.argvs| == |s.argvs|
    && (forall c :: 0 <= c < |w.argvs| ==> ArgsLive(w, c) && Args(w, c) == s.argvs[c])
    && View(Physical(w), s.book.clock) == View(s.book.m, s.book.clock)
    && StaleKeys(w, s.book.clock) == LeftOver(s.book.m, s.book.stale, s.book.clock)
  }

  ghost predicate Sim(l: Lazy, s: Eager) {
    Good(l) && !l.aborted && SameWorld(l.w, s) && l.replies == s.book.told
  }

  lemma ArgsKept(w: World, w': World, c: nat)
    requires Inv(w) && Inv(w') && SameBytes(w, w') && c < |w.argvs| == |w'.argvs| && w.argvs[c] == w'.argvs[c]
    ensures ArgsLive(w, c) && ArgsLive(w', c) && Args(w', c) == Args(w, c)
  {
    InvLive(w);
    InvLive(w');
  }

  lemma PushSim(l: Lazy, s: Eager, e: Event)
    requires Sim(l, s) && e.Push? && e.c < |l.w.argvs|
    ensures Sim(Step(l, e), EagerStep(s, e))
  {
    var w' := PushArg(l.w, e.c, e.bytes, l.next);
    InvLive(w');
    PhysicalSame(l.w, w');
    assert StaleKeys(w', s.book.clock) == StaleKeys(l.w, s.book.clock);
    forall c | 0 <= c < |w'.argvs| ensures Args(w', c) == EagerStep(s, e).argvs[c] {
      if c != e.c {
        ArgsKept(l.w, w', c);
      }
    }
  }

  lemma ClearSim(l: Lazy, s: Eager, e: Event)
    requires Sim(l, s) && e.Clear? && e.c < |l.w.argvs|
    ensures Sim(Step(l, e), EagerStep(s, e))
  {
    var w' := Reset(l.w, e.c);
    InvLive(w');
    PhysicalSame(l.w, w');
    assert StaleKeys(w', s.book.clock) == StaleKeys(l.w, s.book.clock);
    forall c | 0 <= c < |w'.argvs| ensures Args(w', c) == EagerStep(s, e).argvs[c] {
      if c != e.c {
        ArgsKept(l.w, w', c);
      }
    }
  }

  /** Any command at any time refines the eager one; the reply differs exactly where lazy expiry shows. */
  lemma ExecRefines(w: World, c: nat, cmd: Cmd, now: int)
    requires Inv(w) && c < |w.argvs| && (cmd == Set && |w.argvs[c]| == 3 ==> NUL !in Arg(w, c, 1))
    ensures ValuesLive(w) && ArgsLive(w, c)
    ensures var r := Exec(w, c, cmd, now);
            var e := EagerExec(Physical(w), Args(w, c), cmd, now);
            && Refines(w, r, e, now)
            && r.reply == if Shows(StaleKeys(w, now), Args(w, c), cmd) then CouldNotExpire else e.1
  {
    match cmd
    case Set => SetRefines(w, c, now);
    case Get => GetRefines(w, c, now);
    case Expire => ExpireRefines(w, c, now);
  }

  /** The eager server only looks at the view. */
  lemma EagerExecOnView(m: Timed, m': Timed, args: seq<Bytes>, cmd: Cmd, now: int)
    requires View(m, now) == View(m', now)
    ensures EagerExec(m, args, cmd, now) == EagerExec(m', args, cmd, now)
  {
  }

  /** Time makes the same keys stale in both servers. */
  lemma LeftOverLater(w: World, s: Eager, now: int)
    requires SameWorld(w, s) && s.book.clock <= now
    ensures View(Physical(w), now) == View(s.book.m, now) && StaleKeys(w, now) == LeftOver(s.book.m, s.book.stale, now)
  {
    ViewLater(Physical(w), s.book.clock, now);
    ViewLater(s.book.m, s.book.clock, now);
    forall k ensures k in StaleKeys(w, now) <==> k in LeftOver(s.book.m, s.book.stale, now) {
      LeftOverKey(w, s, now, k);
    }
  }

  lemma LeftOverKey(w: World, s: Eager, now: int, k: Bytes)
    requires SameWorld(w, s) && s.book.clock <= now
    ensures k in StaleKeys(w, now) <==> k in LeftOver(s.book.m, s.book.stale, now)
  {
    var v := View(s.book.m, s.book.clock);
    assert k in StaleKeys(w, s.book.clock) <==> k in LeftOver(s.book.m, s.book.stale, s.book.clock);
    assert k in v ==> Physical(w)[k] == v[k] == s.book.m[k];
    assert k in View(Physical(w), s.book.clock) <==> k in v;
  }

  lemma RunSameWorld(w: World, s: Eager, e: Event)
    requires SameWorld(w, s) && e.Run? && e.c < |w.argvs| && Admissible(s, e)
    ensures var r := Exec(w, e.c, e.cmd, e.now);
            var s' := EagerStep(s, e);
            r.Replied? && SameWorld(r.w, s') && s'.book.told == s.book.told + [Answer(e.c, r.reply)]
  {
    var c, now := e.c, e.now;
    LeftOverLater(w, s, now);
    EagerExecOnView(Physical(w), s.book.m, Args(w, c), e.cmd, now);
    assert |w.argvs[c]| == 3 ==> Args(w, c)[1] == Arg(w, c, 1);
    ExecRefines(w, c, e.cmd, now);
    ExecStale(w, c, e.cmd, now);
    ExecKeepsInv(w, c, e.cmd, now);
    var w' := Exec(w, c, e.cmd, now).w;
    forall x | 0 <= x < |w'.argvs| ensures ArgsLive(w', x) && Args(w', x) == s.argvs[x] {
      ArgsKept(w, w', x);
    }
  }

  lemma RunSim(l: Lazy, s: Eager, e: Event)
    requires Sim(l, s) && e.Run? && e.c < |l.w.argvs| && Admissible(s, e)
    ensures Sim(Step(l, e), EagerStep(s, e))
  {
    RunSameWorld(l.w, s, e);
    ExecKeepsInv(l.w, e.c, e.cmd, e.now);
  }

  lemma StepSim(l: Lazy, s: Eager, e: Event)
    requires Sim(l, s) && Admissible(s, e)
    ensures Sim(Step(l, e), EagerStep(s, e))
  {
    if e.c < |l.w.argvs| {
      match e
      case Push(_, _) => PushSim(l, s, e);
      case Clear(_) => ClearSim(l, s, e);
      case Run(_, _, _) => RunSim(l, s, e);
    }
  }

  lemma StartSim(clients: nat, t0: int) returns (l: Lazy, s: Eager)
    ensures l == Start(clients) && s == EagerStart(clients, t0) && Sim(l, s)
  {
    l, s := Start(clients), EagerStart(clients, t0);
    InvLive(l.w);
    assert Physical(l.w) == map[];
  }

  lemma NextSim(clients: nat, t0: int, events: seq<Event>, n: nat, l0: Lazy, s0: Eager) returns (l: Lazy, s: Eager)
    requires AdmissibleRun(clients, t0, events) && n < |events|
    requires l0 == After(clients, events, n) && s0 == EagerAfter(clients, t0, events, n) && Sim(l0, s0)
    ensures l == After(clients, events, n + 1) && s == EagerAfter(clients, t0, events, n + 1) && Sim(l, s)
  {
    AdmissibleAt(clients, t0, events, n, s0);
    StepSim(l0, s0, events[n]);
    l, s := Step(l0, events[n]), EagerStep(s0, events[n]);
  }

  lemma {:induction false} SimulateFrom(clients: nat, t0: int, events: seq<Event>, i: nat, n: nat, l0: Lazy, s0: Eager)
    returns (l: Lazy, s: Eager)
    requires AdmissibleRun(clients, t0, events) && i <= n <= |events|
    requires l0 == After(clients, events, i) && s0 == EagerAfter(clients, t0, events, i) && Sim(l0, s0)
    ensures l == After(clients, events, n) && s == EagerAfter(clients, t0, events, n) && Sim(l, s)
    decreases n - i
  {
    if i == n {
      l, s := l0, s0;
    } else {
      var l1, s1 := NextSim(clients, t0, events, i, l0, s0);
      l, s := SimulateFrom(clients, t0, events, i + 1, n, l1, s1);
    }
  }

  lemma FirstSim(clients: nat, t0: int, events: seq<Event>) returns (l: Lazy, s: Eager)
    ensures l == After(clients, events, 0) && s == EagerAfter(clients, t0, events, 0) && Sim(l, s)
  {
    l, s := StartSim(clients, t0);
  }

  lemma Simulate(clients: nat, t0: int, events: seq<Event>, n: nat) returns (l: Lazy, s: Eager)
    requires AdmissibleRun(clients, t0, events) && n <= |events|
    ensures l == After(clients, events, n) && s == EagerAfter(clients, t0, events, n) && Sim(l, s)
  {
    var l0, s0 := FirstSim(clients, t0, events);
    l, s := SimulateFrom(clients, t0, events, 0, n, l0, s0);
  }

  /**
   Every run, with any number of clients interleaved in any way: no assertion fails, the replies are exactly those the
   eager server tells, and both show the same keys, values and deadlines.
   */
  lemma LazyRefinesEager(clients: nat, t0: int, events: seq<Event>)
    requires AdmissibleRun(clients, t0, events)
    ensures Sim(After(clients, events, |events|), EagerAfter(clients, t0, events, |events|))
  {
    var l, s := Simulate(clients, t0, events, |events|);
  }

  /** What is told is the reply, except that it is "could not set" where lazy expiry shows; the reply is then 0. */
  lemma ToldAt(clients: nat, t0: int, events: seq<Event>, n: nat)
    requires AdmissibleRun(clients, t0, events) && n < |events| && events[n].Run? && events[n].c < clients
    ensures var l, s, s' := After(clients, events, n), EagerAfter(clients, t0, events, n),
                            EagerAfter(clients, t0, events, n + 1);
            var e, k, i := events[n], |s.book.told|, |s.book.replies|;
            && |s.argvs| == clients && |s'.book.told| == k + 1 && |s'.book.replies| == i + 1
            && After(clients, events, n + 1).replies == s'.book.told
            && var shows := Shows(StaleKeys(l.w, e.now), s.argvs[e.c], e.cmd);
               && s'.book.told[k] == Answer(e.c, if shows then CouldNotExpire else s'.book.replies[i].reply)
               && (shows ==> s'.book.replies[i] == Answer(e.c, Integer(0)))
  {
    var l, s := Simulate(clients, t0, events, n);
    var e := events[n];
    AdmissibleAt(clients, t0, events, n, s);
    LeftOverLater(l.w, s, e.now);
    RunSim(l, s, e);
    if Shows(StaleKeys(l.w, e.now), s.argvs[e.c], e.cmd) {
      StaleIsInvisible(l.w, s, e.now, s.argvs[e.c][1]);
    }
  }

  lemma StaleIsInvisible(w: World, s: Eager, now: int, k: Bytes)
    requires SameWorld(w, s) && s.book.clock <= now && k in StaleKeys(w, now)
    ensures k !in View(s.book.m, now)
  {
    LeftOverLater(w, s, now);
    assert k !in View(Physical(w), now);
  }

  // ---------------------------------------------------------------- a deadline is final

  /** k is there with the deadline d, or it is gone and d has passed. */
  ghost predicate Bound(s: Eager, k: Bytes, d: int) {
    if k in View(s.book.m, s.book.clock) then s.book.m[k].deadline == Some(d) else d <= s.book.clock
  }

  /** The event is not a SET of k at or after d. */
  ghost predicate NoLateSet(s: Eager, e: Event, k: Bytes, d: int) {
    e.Run? && e.cmd == Set && e.c < |s.argvs| && |s.argvs[e.c]| == 3 && s.argvs[e.c][1] == k ==> e.now < d
  }

  ghost predicate NoLateSetAt(clients: nat, t0: int, events: seq<Event>, j: nat, k: Bytes, d: int)
    requires j < |events|
  {
    NoLateSet(EagerAfter(clients, t0, events, j), events[j], k, d)
  }

  ghost predicate NoLateSets(clients: nat, t0: int, events: seq<Event>, i: nat, n: nat, k: Bytes, d: int)
    requires n <= |events|
  {
    forall j: nat {:trigger NoLateSetAt(clients, t0, events, j, k, d)} ::
      j < i || j >= n || NoLateSetAt(clients, t0, events, j, k, d)
  }

  /** Neither a SET before the deadline nor another EXPIRE moves it. */
  lemma BoundStep(s: Eager, e: Event, k: Bytes, d: int)
    requires Bound(s, k, d) && Admissible(s, e) && NoLateSet(s, e, k, d)
    ensures Bound(EagerStep(s, e), k, d)
  {
  }

  lemma {:induction false} BoundRun(clients: nat, t0: int, events: seq<Event>, i: nat, n: nat, k: Bytes, d: int)
    returns (s: Eager)
    requires AdmissibleRun(clients, t0, events) && i <= n <= |events|
    requires Bound(EagerAfter(clients, t0, events, i), k, d)
    requires NoLateSets(clients, t0, events, i, n, k, d)
    ensures s == EagerAfter(clients, t0, events, n) && Bound(s, k, d)
  {
    if i == n {
      s := EagerAfter(clients, t0, events, n);
    } else {
      var s0 := BoundRun(clients, t0, events, i, n - 1, k, d);
      AdmissibleAt(clients, t0, events, n - 1, s0);
      var early := NoLateSetAt(clients, t0, events, n - 1, k, d);
      s := EagerStep(s0, events[n - 1]);
      BoundStep(s0, events[n - 1], k, d);
    }
  }

  /**
   A deadline is final. If k is stored with the deadline d at some point of a run, then a GET of k at time d or later
   gets nothing, whatever SETs before d, EXPIREs and other commands came in between.
   */
  lemma DeadlineIsFinal(clients: nat, t0: int, events: seq<Event>, i: nat, n: nat, k: Bytes, d: int)
    requires AdmissibleRun(clients, t0, events) && i <= n < |events|
    requires var l := After(clients, events, i); !l.aborted && k in l.w.expires && l.w.expires[k] == d
    requires NoLateSets(clients, t0, events, i, n, k, d)
    requires events[n].Run? && events[n].cmd == Get && events[n].now >= d
    requires var s := EagerAfter(clients, t0, events, n);
             events[n].c < |s.argvs| && |s.argvs[events[n].c]| == 2 && s.argvs[events[n].c][1] == k
    ensures var r := After(clients, events, n + 1).replies; r != [] && r[|r| - 1] == Answer(events[n].c, Null)
  {
    var l, s := Simulate(clients, t0, events, i);
    StoredIsBound(l, s, k);
    var s1 := BoundRun(clients, t0, events, i, n, k, d);
    var l1, s2 := Simulate(clients, t0, events, n);
    AdmissibleAt(clients, t0, events, n, s1);
    LateGet(l1, s1, events[n], k, d);
  }

  lemma StoredIsBound(l: Lazy, s: Eager, k: Bytes)
    requires Sim(l, s) && k in l.w.expires
    ensures Bound(s, k, l.w.expires[k])
  {
    var m := Physical(l.w);
    assert k in m && m[k].deadline == Some(l.w.expires[k]);
    assert k in View(s.book.m, s.book.clock) ==> View(m, s.book.clock)[k] == s.book.m[k];
  }

  lemma LateGet(l: Lazy, s: Eager, e: Event, k: Bytes, d: int)
    requires Sim(l, s) && Admissible(s, e) && Bound(s, k, d) && e.Run? && e.cmd == Get && e.now >= d
    requires e.c < |s.argvs| && |s.argvs[e.c]| == 2 && s.argvs[e.c][1] == k
    ensures Step(l, e).replies == l.replies + [Answer(e.c, Null)]
  {
    ViewLater(Physical(l.w), s.book.clock, e.now);
    ViewLater(s.book.m, s.book.clock, e.now);
    EagerExecOnView(Physical(l.w), s.book.m, Args(l.w, e.c), Get, e.now);
    GetRefines(l.w, e.c, e.now);
  }

  // ---------------------------------------------------------------- what was set is read

  /** k has no deadline, or one after t. */
  predicate Ahead(w: World, k: Bytes, t: int) {
    k in w.expires ==> t < w.expires[k]
  }

  ghost predicate Holding(s: Eager, k: Bytes, v: Bytes) {
    k in s.book.m && s.book.m[k].value == v
  }

  /** The event is a SET of k. */
  ghost predicate SetsKey(s: Eager, e: Event, k: Bytes) {
    e.Run? && e.cmd == Set && e.c < |s.argvs| && |s.argvs[e.c]| == 3 && s.argvs[e.c][1] == k
  }

  /** The event is a GET of k. */
  ghost predicate GetsKey(s: Eager, e: Event, k: Bytes) {
    e.Run? && e.cmd == Get && e.c < |s.argvs| && |s.argvs[e.c]| == 2 && s.argvs[e.c][1] == k
  }

  /** A key that has no deadline up to t in the dicts is live at t in the eager server too. */
  lemma LiveUntil(l: Lazy, s: Eager, k: Bytes, v: Bytes, t: int)
    requires Sim(l, s) && Holding(s, k, v) && s.book.clock <= t && Ahead(l.w, k, t)
    ensures Live(s.book.m[k], t)
  {
    var m, m', clock := s.book.m, Physical(l.w), s.book.clock;
    assert k in LeftOver(m, s.book.stale, clock) ==> k in StaleKeys(l.w, clock);
    if Live(m[k], clock) {
      assert k in View(m, clock) && View(m', clock)[k] == m[k];
    }
  }

  lemma HoldStep(l: Lazy, s: Eager, e: Event, k: Bytes, v: Bytes, t: int)
    requires Sim(l, s) && Admissible(s, e) && Holding(s, k, v) && !SetsKey(s, e, k)
    requires EagerStep(s, e).book.clock <= t && Ahead(l.w, k, t)
    ensures s.book.clock <= t && Holding(EagerStep(s, e), k, v)
  {
    LiveUntil(l, s, k, v, t);
    if e.Run? && e.c < |s.argvs| {
      assert k in View(s.book.m, e.now);
    }
  }

  /** ls and ss are the states of the two servers in a run. */
  ghost predicate States(clients: nat, t0: int, events: seq<Event>, ls: seq<Lazy>, ss: seq<Eager>) {
    && |ls| == |ss| == |events| + 1
    && forall j: nat {:trigger StateAt(clients, t0, events, ls, ss, j)} ::
         j > |events| || StateAt(clients, t0, events, ls, ss, j)
  }

  ghost predicate StateAt(clients: nat, t0: int, events: seq<Event>, ls: seq<Lazy>, ss: seq<Eager>, j: nat)
    requires j <= |events| && |ls| == |ss| == |events| + 1
  {
    ls[j] == After(clients, events, j) && ss[j] == EagerAfter(clients, t0, events, j)
  }

  lemma StatesAt(clients: nat, t0: int, events: seq<Event>, ls: seq<Lazy>, ss: seq<Eager>, j: nat)
    requires States(clients, t0, events, ls, ss) && j <= |events|
    ensures ls[j] == After(clients, events, j) && ss[j] == EagerAfter(clients, t0, events, j)
  {
    var at := StateAt(clients, t0, events, ls, ss, j);
  }

  /** From one state to the next. */
  lemma LinkedAt(clients: nat, t0: int, events: seq<Event>, ls: seq<Lazy>, ss: seq<Eager>, j: nat)
    requires AdmissibleRun(clients, t0, events) && States(clients, t0, events, ls, ss) && j < |events|
    ensures Sim(ls[j], ss[j]) && Admissible(ss[j], events[j])
    ensures ls[j + 1] == Step(ls[j], events[j]) && ss[j + 1] == EagerStep(ss[j], events[j])
  {
    StatesAt(clients, t0, events, ls, ss, j);
    StatesAt(clients, t0, events, ls, ss, j + 1);
    var l, s := Simulate(clients, t0, events, j);
    AdmissibleAt(clients, t0, events, j, s);
  }

  /** There are such states, for every run. */
  lemma StatesOf(clients: nat, t0: int, events: seq<Event>) returns (ls: seq<Lazy>, ss: seq<Eager>)
    ensures States(clients, t0, events, ls, ss)
  {
    ls := seq(|events| + 1, j requires 0 <= j <= |events| => After(clients, events, j));
    ss := seq(|events| + 1, j requires 0 <= j <= |events| => EagerAfter(clients, t0, events, j));
  }

  lemma ClockStep(s: Eager, e: Event)
    requires Admissible(s, e)
    ensures s.book.clock <= EagerStep(s, e).book.clock
  {
  }

  /** From i to n there is no SET of k, and the dicts never hold a deadline for k that is over at t. */
  ghost predicate Quiet(events: seq<Event>, ls: seq<Lazy>, ss: seq<Eager>, i: nat, n: nat, k: Bytes, t: int)
    requires n <= |events| && |ls| == |ss| == |events| + 1
  {
    forall j :: i <= j < n ==> !SetsKey(ss[j], events[j], k) && Ahead(ls[j].w, k, t)
  }

  lemma {:induction false} HoldRun(clients: nat, t0: int, events: seq<Event>, ls: seq<Lazy>, ss: seq<Eager>,
                                   i: nat, n: nat, k: Bytes, v: Bytes, t: int)
    requires AdmissibleRun(clients, t0, events) && States(clients, t0, events, ls, ss) && i <= n <= |events|
    requires Holding(ss[i], k, v) && ss[n].book.clock <= t && Quiet(events, ls, ss, i, n, k, t)
    ensures Holding(ss[n], k, v)
  {
    if i < n {
      ClockLink(clients, t0, events, ls, ss, n - 1);
      HoldRun(clients, t0, events, ls, ss, i, n - 1, k, v, t);
      HoldLink(clients, t0, events, ls, ss, n - 1, k, v, t);
    }
  }

  lemma ClockLink(clients: nat, t0: int, events: seq<Event>, ls: seq<Lazy>, ss: seq<Eager>, n: nat)
    requires AdmissibleRun(clients, t0, events) && States(clients, t0, events, ls, ss) && n < |events|
    ensures ss[n].book.clock <= ss[n + 1].book.clock
  {
    LinkedAt(clients, t0, events, ls, ss, n);
    ClockStep(ss[n], events[n]);
  }

  lemma HoldLink(clients: nat, t0: int, events: seq<Event>, ls: seq<Lazy>, ss: seq<Eager>, n: nat,
                 k: Bytes, v: Bytes, t: int)
    requires AdmissibleRun(clients, t0, events) && States(clients, t0, events, ls, ss) && n < |events|
    requires Holding(ss[n], k, v) && ss[n + 1].book.clock <= t && !SetsKey(ss[n], events[n], k) && Ahead(ls[n].w, k, t)
    ensures Holding(ss[n + 1], k, v)
  {
    LinkedAt(clients, t0, events, ls, ss, n);
    HoldStep(ls[n], ss[n], events[n], k, v, t);
  }

  lemma SetHolds(s: Eager, e: Event, k: Bytes, v: Bytes)
    requires SetsKey(s, e, k) && s.argvs[e.c][2] == v
    ensures Holding(EagerStep(s, e), k, v)
  {
  }

  lemma GetHeld(l: Lazy, s: Eager, e: Event, k: Bytes, v: Bytes)
    requires Sim(l, s) && Admissible(s, e) && GetsKey(s, e, k) && Holding(s, k, v) && Ahead(l.w, k, e.now)
    ensures Step(l, e).replies == l.replies + [Answer(e.c, Bulk(v))]
  {
    LiveUntil(l, s, k, v, e.now);
    LeftOverLater(l.w, s, e.now);
    assert k in View(s.book.m, e.now) && View(s.book.m, e.now)[k].value == v;
    assert Args(l.w, e.c)[1] == Arg(l.w, e.c, 1);
    GetRefines(l.w, e.c, e.now);
  }

  /**
   What was set is read. A GET of k gets the value of the last SET of k before it, if the dicts never held a deadline
   for k in between that has passed at the time of the GET, whatever other commands of whatever clients came between.
   */
  lemma LastSetIsRead(clients: nat, t0: int, events: seq<Event>, ls: seq<Lazy>, ss: seq<Eager>,
                      i: nat, n: nat, k: Bytes, v: Bytes)
    requires AdmissibleRun(clients, t0, events) && States(clients, t0, events, ls, ss) && i < n < |events|
    requires SetsKey(ss[i], events[i], k) && ss[i].argvs[events[i].c][2] == v
    requires GetsKey(ss[n], events[n], k) && Ahead(ls[n].w, k, events[n].now)
    requires Quiet(events, ls, ss, i + 1, n, k, events[n].now)
    ensures ls[n + 1].replies == ls[n].replies + [Answer(events[n].c, Bulk(v))]
  {
    LinkedAt(clients, t0, events, ls, ss, i);
    SetHolds(ss[i], events[i], k, v);
    LinkedAt(clients, t0, events, ls, ss, n);
    HoldRun(clients, t0, events, ls, ss, i + 1, n, k, v, events[n].now);
    GetHeld(ls[n], ss[n], events[n], k, v);
  }
}
