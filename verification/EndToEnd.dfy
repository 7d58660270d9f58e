/**
 From bytes to replies: many connections to one database. Every command is run inside the parse loop of its
 connection, between the commands of the others, and the arguments of half-read requests stay with the database.
 */
module EndToEnd {
  import opened Wire
  import G = RequestGrammar
  import M = RequestModes
  import C = RedisClient
  import RoundTrip
  import opened KeySpace
  import opened TimedMap
  import opened KeySpaceRuns
  import opened Server
  import ServerRuns

  /** Which commands of the table work on the key space. */
  type Verbs = Bytes -> Option<Cmd>

  /** Something happens to the connection of a client. */
  datatype Input = Input(client: nat, event: C.Event)

  /** A command, and the client that sent it. */
  datatype Request = Request(client: nat, command: G.Command)

  // ---------------------------------------------------------------- the reference: who says what

  /**
   The bytes that have arrived from each client, those it has been handled for, the commands it has said, and the
   commands of all clients in the order in which they were heard.
   */
  datatype Room = Room(arrived: seq<Bytes>, handled: seq<Bytes>, said: seq<seq<G.Command>>, heard: seq<Request>,
                       down: bool)

  ghost predicate Fits(s: Room, clients: nat) {
    |s.arrived| == |s.handled| == |s.said| == clients
  }

  function From(id: nat, cmds: seq<G.Command>): (r: seq<Request>)
    ensures |r| == |cmds| && forall i :: 0 <= i < |r| ==> r[i] == Request(id, cmds[i])
  {
    seq(|cmds|, i requires 0 <= i < |cmds| => Request(id, cmds[i]))
  }

  /** What is new in `now` since `was`. */
  function News(was: seq<G.Command>, now: seq<G.Command>): seq<G.Command> {
    if was <= now then now[|was|..] else []
  }

  /** The commands of a stream, by the one-shot parser. */
  ghost function Commands(cfg: G.Config, u: Bytes): seq<G.Command> {
    G.Serve(G.Resp(cfg), u).commands
  }

  /** The stream fails an assertion, which ends the process, or leaves the model with an inline request. */
  ghost predicate Ends(cfg: G.Config, u: Bytes) {
    G.Serve(G.Resp(cfg), u).end in {G.InlineRequest, G.AssertionFailure}
  }

  /** The room after client id has been handled, and has said `all`. */
  ghost function Handled(s: Room, id: nat, all: seq<G.Command>, ends: bool): Room
    requires Fits(s, |s.arrived|) && id < |s.arrived|
  {
    s.(handled := s.handled[id := s.arrived[id]], said := s.said[id := all], down := ends,
       heard := s.heard + From(id, News(s.said[id], all)))
  }

  /** When a connection is handled, the commands that are new in its stream are heard. */
  ghost function Hear(cfg: G.Config, s: Room, i: Input): (s': Room)
    requires Fits(s, |s.arrived|)
    ensures Fits(s', |s.arrived|)
  {
    var id := i.client;
    if s.down || id >= |s.arrived| then s
    else match i.event
      case Chunk(bytes) => s.(arrived := s.arrived[id := s.arrived[id] + bytes])
      case Drop(_) => s
      case Handle =>
        Handled(s, id, Commands(cfg, s.arrived[id]), Ends(cfg, s.arrived[id]))
  }

  ghost function EmptyRoom(clients: nat): Room {
    Room(seq(clients, _ => []), seq(clients, _ => []), seq(clients, _ => []), [], false)
  }

  ghost function RoomAfter(cfg: G.Config, clients: nat, inputs: seq<Input>, n: nat): (s: Room)
    requires n <= |inputs|
    ensures Fits(s, clients)
  {
    if n == 0 then EmptyRoom(clients)
    else Hear(cfg, RoomAfter(cfg, clients, inputs, n - 1), inputs[n - 1])
  }

  // ---------------------------------------------------------------- every client is heard as if it were alone

  /** The commands that client id has sent. */
  ghost function Said(heard: seq<Request>, id: nat): seq<G.Command> {
    if heard == [] then []
    else
      var l := heard[|heard| - 1];
      Said(heard[..|heard| - 1], id) + if l.client == id then [l.command] else []
  }

  lemma {:induction false} SaidMore(heard: seq<Request>, c: nat, cmds: seq<G.Command>, id: nat)
    ensures Said(heard + From(c, cmds), id) == Said(heard, id) + if c == id then cmds else []
    decreases |cmds|
  {
    if cmds == [] {
      assert heard + From(c, cmds) == heard;
    } else {
      var front, l := cmds[..|cmds| - 1], cmds[|cmds| - 1];
      var all := heard + From(c, cmds);
      assert all[..|all| - 1] == heard + From(c, front);
      assert all[|all| - 1] == Request(c, l);
      SaidMore(heard, c, front, id);
      assert front + [l] == cmds;
    }
  }

  /** What was handled has arrived, and what was heard is what the one-shot parser finds in what was handled. */
  ghost predicate Sorted(cfg: G.Config, s: Room) {
    && Fits(s, |s.arrived|)
    && (forall id :: 0 <= id < |s.handled| ==> s.handled[id] <= s.arrived[id])
    && (forall id :: 0 <= id < |s.handled| ==> s.said[id] == Commands(cfg, s.handled[id]))
    && (forall id :: 0 <= id < |s.handled| ==> Said(s.heard, id) == s.said[id])
  }

  lemma CommandsGrow(cfg: G.Config, u: Bytes, v: Bytes)
    requires u <= v
    ensures Commands(cfg, u) <= Commands(cfg, v)
    ensures Commands(cfg, u) + News(Commands(cfg, u), Commands(cfg, v)) == Commands(cfg, v)
  {
    var t := v[|u|..];
    assert v == u + t;
    G.ServeExtends(G.Resp(cfg), u, t);
  }

  lemma HearSorted(cfg: G.Config, s: Room, i: Input)
    requires Sorted(cfg, s)
    ensures Sorted(cfg, Hear(cfg, s, i))
  {
    if !s.down && i.client < |s.arrived| && i.event.Handle? {
      CommandsGrow(cfg, s.handled[i.client], s.arrived[i.client]);
      HandleSorted(cfg, s, i.client, Commands(cfg, s.arrived[i.client]), Ends(cfg, s.arrived[i.client]));
    }
  }

  lemma HandleSorted(cfg: G.Config, s: Room, c: nat, all: seq<G.Command>, ends: bool)
    requires Sorted(cfg, s) && c < |s.arrived| && s.said[c] <= all && all == Commands(cfg, s.arrived[c])
    ensures Sorted(cfg, Handled(s, c, all, ends))
  {
    var s' := Handled(s, c, all, ends);
    forall id | 0 <= id < |s.handled| ensures Said(s'.heard, id) == s'.said[id] {
      SaidMore(s.heard, c, News(s.said[c], all), id);
    }
  }

  /** Every run: what is heard from a client depends on its own bytes only. */
  lemma {:induction false} HeardAlone(cfg: G.Config, clients: nat, inputs: seq<Input>, n: nat)
    requires n <= |inputs|
    ensures Sorted(cfg, RoomAfter(cfg, clients, inputs, n))
  {
    if n > 0 {
      HeardAlone(cfg, clients, inputs, n - 1);
      HearSorted(cfg, RoomAfter(cfg, clients, inputs, n - 1), inputs[n - 1]);
    } else {
      assert Commands(cfg, []) == [];
    }
  }

  /** A client that has been handled for an encoded pipeline is heard with its commands, up to the first QUIT. */
  lemma PipelineInRoom(cfg: G.Config, clients: nat, inputs: seq<Input>, n: nat, id: nat, cmds: seq<G.Command>)
    requires n <= |inputs| && id < clients && cfg.maxBulk < INT64_LIMIT
    requires forall i :: 0 <= i < |cmds| ==> RoundTrip.Legal(cfg, cmds[i])
    requires RoomAfter(cfg, clients, inputs, n).handled[id] == RoundTrip.Pipeline(cmds)
    ensures Said(RoomAfter(cfg, clients, inputs, n).heard, id) == RoundTrip.UpToQuit(G.Resp(cfg), cmds)
  {
    HeardAlone(cfg, clients, inputs, n);
    RoundTrip.PipelineCommands(cfg, cmds);
  }

  // ---------------------------------------------------------------- the reference: what is answered

  /** A request on the timed map. */
  ghost function Apply(b: Book, r: Request, verbs: Verbs, now: int): Book {
    match verbs(r.command[0])
    case None => b
    case Some(cmd) => Answered(b, r.client, r.command, cmd, now)
  }

  /** At most one request on the timed map. */
  ghost function Logged(b: Book, id: nat, completed: seq<G.Command>, verbs: Verbs, now: int): Book {
    if completed == [] then b else Apply(b, Request(id, completed[0]), verbs, now)
  }

  /** The requests on the timed map, the i-th at time clock(i). */
  ghost function Ledger(heard: seq<Request>, verbs: Verbs, clock: nat -> int): Book {
    if heard == [] then NewBook(clock(0))
    else
      var n := |heard| - 1;
      Apply(Ledger(heard[..n], verbs, clock), heard[n], verbs, clock(n))
  }

  ghost predicate Monotone(clock: nat -> int) {
    forall i: nat, j: nat :: i <= j ==> clock(i) <= clock(j)
  }

  lemma {:induction false} LedgerClock(heard: seq<Request>, verbs: Verbs, clock: nat -> int, i: nat)
    requires Monotone(clock) && |heard| <= i + 1
    ensures Ledger(heard, verbs, clock).clock <= clock(i)
  {
    if heard != [] {
      LedgerClock(heard[..|heard| - 1], verbs, clock, i);
    }
  }

  lemma LedgerNext(heard: seq<Request>, r: Request, verbs: Verbs, clock: nat -> int)
    ensures Ledger(heard + [r], verbs, clock) == Apply(Ledger(heard, verbs, clock), r, verbs, clock(|heard|))
  {
    var all := heard + [r];
    assert all[..|all| - 1] == heard && all[|all| - 1] == r;
  }

  /** The key of a SET contains no NUL. */
  predicate Proper(c: G.Command, verbs: Verbs) {
    |c| == 3 && verbs(c[0]) == Some(Set) ==> NUL !in c[1]
  }

  predicate AllProper(cmds: seq<G.Command>, verbs: Verbs) {
    forall i :: 0 <= i < |cmds| ==> Proper(cmds[i], verbs)
  }

  predicate HeardProper(heard: seq<Request>, verbs: Verbs) {
    forall i :: 0 <= i < |heard| ==> Proper(heard[i].command, verbs)
  }

  // ---------------------------------------------------------------- the database on behalf of a connection

  /** The database shows what the eager server e shows. */
  ghost predicate Follows(db: Database, e: Eager)
    reads db.Repr()
  {
    db.Valid() && SameWorld(db.State(), e)
  }

  /** An event on the database; what it answers is what the eager server tells. */
  method Happen(db: Database, ev: Event, ghost e: Eager) returns (answers: seq<Answer>, ghost e': Eager)
    requires Follows(db, e) && Admissible(e, ev)
    modifies db.Repr()
    ensures Follows(db, e') && e' == EagerStep(e, ev) && e'.book.told == e.book.told + answers
  {
    ghost var l := Lazy(db.State(), db.next, e.book.told, false);
    StepSim(l, e, ev);
    var reply, aborted := ServerRuns.Handle(db, ev, l);
    answers := if reply.Some? then [Answer(ev.c, reply.value)] else [];
    e' := EagerStep(e, ev);
  }

  lemma Associate<T>(a: seq<T>, b: seq<T>, c: seq<T>)
    ensures a + b + c == a + (b + c)
  {
  }

  lemma UpdateTwice<T>(s: seq<T>, i: nat, a: T, b: T)
    requires i < |s|
    ensures s[i := a][i := b] == s[i := b] && s[i := s[i]] == s
  {
  }

  /** Stores the arguments of client id, of which the database has n. */
  method StoreArguments(db: Database, id: nat, args: seq<Bytes>, n: nat, ghost e: Eager) returns (ghost e': Eager)
    requires Follows(db, e) && id < |e.argvs| && n <= |args| && e.argvs[id] == args[..n]
    modifies db.Repr()
    ensures Follows(db, e') && e' == e.(argvs := e.argvs[id := args])
    decreases |args| - n
  {
    if n == |args| {
      e' := e;
      assert args[..n] == args;
      UpdateTwice(e.argvs, id, [], []);
    } else {
      var next := args[..n + 1];
      assert next == args[..n] + [args[n]];
      UpdateTwice(e.argvs, id, next, args);
      var none;
      none, e' := Happen(db, Push(id, args[n]), e);
      e' := StoreArguments(db, id, args, n + 1, e');
    }
  }

  /** Runs the command whose arguments are stored, if it works on the key space. */
  method RunStored(db: Database, id: nat, c: G.Command, verbs: Verbs, now: int, ghost e: Eager)
    returns (answers: seq<Answer>, ghost e': Eager)
    requires Follows(db, e) && id < |e.argvs| && e.argvs[id] == c && e.book.clock <= now && Proper(c, verbs)
    modifies db.Repr()
    ensures Follows(db, e') && e'.book.told == e.book.told + answers
    ensures e' == e.(book := Apply(e.book, Request(id, c), verbs, now))
  {
    var verb := verbs(c[0]);
    if verb.Some? {
      answers, e' := Happen(db, Run(id, verb.value, now), e);
    } else {
      answers, e' := [], e;
    }
  }

  /** Stores the arguments of a complete request, runs it, and resets the client. */
  method Complete(db: Database, id: nat, n: nat, c: G.Command, verbs: Verbs, now: int, ghost e: Eager)
    returns (answers: seq<Answer>, ghost e': Eager)
    requires Follows(db, e) && id < |e.argvs| && n <= |c| && e.argvs[id] == c[..n]
    requires e.book.clock <= now && Proper(c, verbs)
    modifies db.Repr()
    ensures Follows(db, e') && e'.book.told == e.book.told + answers
    ensures e' == Eager(Apply(e.book, Request(id, c), verbs, now), e.argvs[id := []])
  {
    UpdateTwice(e.argvs, id, c, []);
    e' := StoreArguments(db, id, c, n, e);
    answers, e' := RunStored(db, id, c, verbs, now, e');
    var none;
    none, e' := Happen(db, Clear(id), e');
  }

  /** The database after a turn of client id: one more request is complete, or only more arguments are there. */
  method Record(db: Database, id: nat, n: nat, completed: seq<G.Command>, args: seq<Bytes>, verbs: Verbs, now: int,
                ghost e: Eager)
    returns (answers: seq<Answer>, ghost e': Eager)
    requires Follows(db, e) && id < |e.argvs| && n == |e.argvs[id]| && |completed| <= 1
    requires e.argvs[id] <= if completed == [] then args else completed[0]
    requires completed != [] ==> args == [] && e.book.clock <= now && Proper(completed[0], verbs)
    modifies db.Repr()
    ensures Follows(db, e') && e'.book.told == e.book.told + answers
    ensures e' == Eager(Logged(e.book, id, completed, verbs, now), e.argvs[id := args])
  {
    if completed == [] {
      answers := [];
      e' := StoreArguments(db, id, args, n, e);
    } else {
      answers, e' := Complete(db, id, n, completed[0], verbs, now, e);
    }
  }

  // ---------------------------------------------------------------- one connection

  /** The stream u has the commands `all`, and `ends` says whether it ends the process or leaves the model. */
  ghost predicate Stream(cfg: G.Config, u: Bytes, all: seq<G.Command>, ends: bool) {
    all == Commands(cfg, u) && ends == Ends(cfg, u)
  }

  lemma ExecutedIsHeard(c: C.Client)
    requires c.Valid()
    ensures c.executed <= Commands(c.cfg, c.received)
  {
    var lx, f := G.Resp(c.cfg), M.Meaning(G.Resp(c.cfg), M.Idle);
    assert f(c.consumed + c.Unread()) == M.After(c.executed, M.Meaning(lx, c.mode)(c.Unread()));
  }

  lemma Finished(c: C.Client)
    requires c.Valid() && c.Settled()
    ensures c.executed == Commands(c.cfg, c.received) && (c.halted <==> Ends(c.cfg, c.received))
  {
    M.Conclude(G.Resp(c.cfg), c.consumed, c.mode, c.executed, c.Unread());
  }

  lemma FinishedAtEnd(c: C.Client)
    requires c.Valid() && !c.halted && c.qbPos >= |c.querybuf|
    ensures c.executed == Commands(c.cfg, c.received) && !Ends(c.cfg, c.received)
  {
    assert c.Unread() == [];
    Finished(c);
  }

  ghost function Left(c: C.Client): int
    reads c
  {
    |c.querybuf| - c.qbPos
  }

  /** src/redis/client.c:363-438, one turn of the parse loop, without the database: at most one command is completed. */
  method Parse(c: C.Client, ghost all: seq<G.Command>, ghost ends: bool) returns (go: bool, completed: seq<G.Command>)
    requires c.Valid() && !c.halted && c.qbPos < |c.querybuf| && Stream(c.cfg, c.received, all, ends)
    modifies c
    ensures c.Valid() && c.received == old(c.received) && |completed| <= 1
    ensures c.executed == old(c.executed) + completed
    ensures old(c.argv) <= if completed == [] then c.argv else completed[0]
    ensures completed != [] ==> c.argv == [] && completed[0] in all
    ensures go ==> !c.halted && 0 <= Left(c) < old(Left(c))
    ensures !go ==> c.executed == all && c.halted == ends
  {
    var n := |c.executed|;
    go := c.RequestStep();
    completed := c.executed[n..];
    ExecutedIsHeard(c);
    if !go {
      Finished(c);
    }
  }

  /** The client and the database have the same arguments for connection id. */
  ghost predicate InStep(c: C.Client, db: Database, id: nat, e: Eager)
    reads c, db.Repr()
  {
    c !in db.Repr() && c.Valid() && Follows(db, e) && id < |e.argvs| && e.argvs[id] == c.argv
  }

  /** One turn: the request that it completes is run before the next one is read. */
  method Turn(c: C.Client, db: Database, id: nat, verbs: Verbs, now: int, ghost all: seq<G.Command>, ghost ends: bool,
              ghost e: Eager)
    returns (go: bool, completed: seq<G.Command>, answers: seq<Answer>, ghost e': Eager)
    requires InStep(c, db, id, e) && !c.halted && c.qbPos < |c.querybuf| && e.book.clock <= now
    requires Stream(c.cfg, c.received, all, ends) && AllProper(all, verbs)
    modifies c, db.Repr()
    ensures InStep(c, db, id, e') && c.received == old(c.received) && e'.book.told == e.book.told + answers
    ensures go ==> !c.halted && 0 <= Left(c) < old(Left(c))
    ensures !go ==> c.executed == all && c.halted == ends
    ensures c.executed == old(c.executed) + completed && |completed| <= 1
    ensures e' == Eager(Logged(e.book, id, completed, verbs, now), e.argvs[id := c.argv])
  {
    var stored := |c.argv|;
    go, completed := ParseBeside(c, db, verbs, all, ends, e);
    answers, e' := RecordTurn(c, db, id, stored, completed, verbs, now, e);
  }

  /** A turn of the parse loop does not touch the database. */
  method ParseBeside(c: C.Client, ghost db: Database, ghost verbs: Verbs, ghost all: seq<G.Command>, ghost ends: bool,
                     ghost e: Eager)
    returns (go: bool, completed: seq<G.Command>)
    requires c.Valid() && !c.halted && c.qbPos < |c.querybuf| && Stream(c.cfg, c.received, all, ends)
    requires c !in db.Repr() && Follows(db, e) && AllProper(all, verbs)
    modifies c
    ensures c.Valid() && c.received == old(c.received) && |completed| <= 1 && Follows(db, e)
    ensures c.executed == old(c.executed) + completed
    ensures old(c.argv) <= if completed == [] then c.argv else completed[0]
    ensures completed != [] ==> c.argv == [] && Proper(completed[0], verbs)
    ensures go ==> !c.halted && 0 <= Left(c) < old(Left(c))
    ensures !go ==> c.executed == all && c.halted == ends
  {
    go, completed := Parse(c, all, ends);
    assert Follows(db, e) == old(Follows(db, e));
  }

  /** The database after the turn of connection c, which it does not touch. */
  method RecordTurn(c: C.Client, db: Database, id: nat, n: nat, completed: seq<G.Command>, verbs: Verbs, now: int,
                    ghost e: Eager)
    returns (answers: seq<Answer>, ghost e': Eager)
    requires c !in db.Repr() && c.Valid() && Follows(db, e)
    requires id < |e.argvs| && n == |e.argvs[id]| && |completed| <= 1
    requires e.argvs[id] <= if completed == [] then c.argv else completed[0]
    requires completed != [] ==> c.argv == [] && e.book.clock <= now && Proper(completed[0], verbs)
    modifies db.Repr()
    ensures c.Valid() && Follows(db, e') && e'.book.told == e.book.told + answers
    ensures e' == Eager(Logged(e.book, id, completed, verbs, now), e.argvs[id := c.argv])
  {
    answers, e' := Record(db, id, n, completed, c.argv, verbs, now, e);
    assert c.Valid() == old(c.Valid());
  }

  lemma FromConcat(id: nat, a: seq<G.Command>, b: seq<G.Command>)
    ensures From(id, a + b) == From(id, a) + From(id, b)
  {
  }

  /** What has been heard since `was`, and one turn later. */
  lemma HeardThen(heard: seq<Request>, id: nat, was: seq<G.Command>, now: seq<G.Command>, completed: seq<G.Command>)
    requires was <= now
    ensures was <= now + completed
    ensures heard + From(id, (now + completed)[|was|..]) == heard + From(id, now[|was|..]) + From(id, completed)
  {
    assert (now + completed)[|was|..] == now[|was|..] + completed;
    FromConcat(id, now[|was|..], completed);
  }

  lemma FromOne(id: nat, c: G.Command)
    ensures From(id, [c]) == [Request(id, c)]
  {
  }

  lemma FromNone(heard: seq<Request>, id: nat)
    ensures heard + From(id, []) == heard
  {
  }

  lemma LedgerThen(heard: seq<Request>, id: nat, completed: seq<G.Command>, verbs: Verbs, clock: nat -> int)
    requires |completed| <= 1
    ensures Ledger(heard + From(id, completed), verbs, clock) ==
            Logged(Ledger(heard, verbs, clock), id, completed, verbs, clock(|heard|))
  {
    if completed == [] {
      FromNone(heard, id);
    } else {
      LedgerThenOne(heard, id, completed, completed[0], verbs, clock);
    }
  }

  lemma LedgerThenOne(heard: seq<Request>, id: nat, completed: seq<G.Command>, c: G.Command, verbs: Verbs,
                      clock: nat -> int)
    requires completed == [c]
    ensures Ledger(heard + From(id, completed), verbs, clock) ==
            Apply(Ledger(heard, verbs, clock), Request(id, c), verbs, clock(|heard|))
  {
    FromOne(id, c);
    LedgerNext(heard, Request(id, c), verbs, clock);
  }

  /** One turn, with the ledger: the request that it completes is the next one that is heard. */
  method LoggedTurn(c: C.Client, db: Database, id: nat, verbs: Verbs, clock: nat -> int, count: nat,
                    ghost all: seq<G.Command>, ghost ends: bool, ghost heard: seq<Request>, ghost e: Eager)
    returns (go: bool, completed: seq<G.Command>, answers: seq<Answer>, ghost e': Eager)
    requires InStep(c, db, id, e) && !c.halted && c.qbPos < |c.querybuf| && Monotone(clock)
    requires Stream(c.cfg, c.received, all, ends) && AllProper(all, verbs)
    requires |heard| == count && e.book == Ledger(heard, verbs, clock)
    modifies c, db.Repr()
    ensures InStep(c, db, id, e') && c.received == old(c.received) && e'.book.told == e.book.told + answers
    ensures go ==> !c.halted && 0 <= Left(c) < old(Left(c))
    ensures !go ==> c.executed == all && c.halted == ends
    ensures c.executed == old(c.executed) + completed
    ensures e' == Eager(Ledger(heard + From(id, completed), verbs, clock), e.argvs[id := c.argv])
  {
    LedgerClock(heard, verbs, clock, count);
    go, completed, answers, e' := Turn(c, db, id, verbs, clock(count), all, ends, e);
    LedgerThen(heard, id, completed, verbs, clock);
  }

  /** What one more turn adds to the log, the answers and the arguments. */
  lemma TurnAdds(heard: seq<Request>, id: nat, was: seq<G.Command>, now: seq<G.Command>, completed: seq<G.Command>,
                 told: seq<Answer>, answers: seq<Answer>, more: seq<Answer>,
                 argvs: seq<seq<Bytes>>, argv: seq<Bytes>, argv': seq<Bytes>)
    requires was <= now && id < |argvs|
    ensures was <= now + completed
    ensures heard + From(id, (now + completed)[|was|..]) == heard + From(id, now[|was|..]) + From(id, completed)
    ensures told + answers + more == told + (answers + more)
    ensures argvs[id := argv][id := argv'] == argvs[id := argv']
  {
    HeardThen(heard, id, was, now, completed);
    Associate(told, answers, more);
    UpdateTwice(argvs, id, argv, argv');
  }

  /** Since client c had executed `was` and the eager server was at e0, the turns have led to e and the answers. */
  ghost predicate Underway(c: C.Client, db: Database, id: nat, verbs: Verbs, clock: nat -> int, was: seq<G.Command>,
                           heard: seq<Request>, e0: Eager, answers: seq<Answer>, e: Eager)
    reads c, db.Repr()
  {
    && InStep(c, db, id, e) && was <= c.executed && |e0.argvs| == |e.argvs|
    && e.book.told == e0.book.told + answers
    && e == Eager(Ledger(heard + From(id, c.executed[|was|..]), verbs, clock), e0.argvs[id := c.argv])
  }

  method NextTurn(c: C.Client, db: Database, id: nat, verbs: Verbs, clock: nat -> int, count: nat,
                  ghost all: seq<G.Command>, ghost ends: bool, ghost was: seq<G.Command>, ghost heard: seq<Request>,
                  ghost e0: Eager, answers: seq<Answer>, ghost e: Eager)
    returns (go: bool, answers': seq<Answer>, ghost e': Eager)
    requires Underway(c, db, id, verbs, clock, was, heard, e0, answers, e)
    requires !c.halted && c.qbPos < |c.querybuf| && Monotone(clock)
    requires Stream(c.cfg, c.received, all, ends) && AllProper(all, verbs)
    requires count == |heard| + (|c.executed| - |was|)
    modifies c, db.Repr()
    ensures Underway(c, db, id, verbs, clock, was, heard, e0, answers', e') && c.received == old(c.received)
    ensures if go then !c.halted && 0 <= Left(c) < old(Left(c)) else c.executed == all && c.halted == ends
  {
    ghost var now, argv, log := c.executed, c.argv, heard + From(id, c.executed[|was|..]);
    var completed, more;
    go, completed, more, e' := LoggedTurn(c, db, id, verbs, clock, count, all, ends, log, e);
    TurnAdds(heard, id, was, now, completed, e0.book.told, answers, more, e0.argvs, argv, c.argv);
    answers' := answers + more;
  }

  /** The parse loop with the database; it ends at the end of the buffer, or (`go` is false) where a turn ends it. */
  method Turns(c: C.Client, db: Database, id: nat, verbs: Verbs, clock: nat -> int, count: nat,
               ghost all: seq<G.Command>, ghost ends: bool, ghost heard: seq<Request>, ghost e: Eager)
    returns (go: bool, answers: seq<Answer>, ghost e': Eager)
    requires InStep(c, db, id, e) && !c.halted && Monotone(clock)
    requires Stream(c.cfg, c.received, all, ends) && AllProper(all, verbs)
    requires |heard| == count && e.book == Ledger(heard, verbs, clock)
    modifies c, db.Repr()
    ensures Underway(c, db, id, verbs, clock, old(c.executed), heard, e, answers, e') && c.received == old(c.received)
    ensures if go then !c.halted && c.qbPos >= |c.querybuf| else c.executed == all && c.halted == ends
  {
    ghost var was := c.executed;
    var n := |c.executed|;
    go, answers, e' := true, [], e;
    UpdateTwice(e.argvs, id, [], []);
    assert heard + From(id, c.executed[|was|..]) == heard;
    while c.qbPos < |c.querybuf| && go
      invariant Underway(c, db, id, verbs, clock, was, heard, e, answers, e') && c.received == old(c.received)
      invariant if go then !c.halted else c.executed == all && c.halted == ends
      decreases go, Left(c)
    {
      go, answers, e' := NextTurn(c, db, id, verbs, clock, count + (|c.executed| - n), all, ends, was, heard, e,
                                  answers, e');
    }
  }

  /** src/redis/client.c:359-443 with the database: the n-th request of the server is run at time clock(n). */
  method HandleConnection(c: C.Client, db: Database, id: nat, verbs: Verbs, clock: nat -> int, count: nat,
                          ghost all: seq<G.Command>, ghost ends: bool, ghost heard: seq<Request>, ghost e: Eager)
    returns (answers: seq<Answer>, ghost e': Eager)
    requires InStep(c, db, id, e) && !c.halted && Monotone(clock)
    requires Stream(c.cfg, c.received, all, ends) && AllProper(all, verbs)
    requires |heard| == count && e.book == Ledger(heard, verbs, clock)
    modifies c, db.Repr()
    ensures InStep(c, db, id, e') && c.received == old(c.received) && e'.book.told == e.book.told + answers
    ensures c.executed == all && c.halted == ends && old(c.executed) <= all
    ensures e' == Eager(Ledger(heard + From(id, all[|old(c.executed)|..]), verbs, clock), e.argvs[id := c.argv])
  {
    var go;
    go, answers, e' := Turns(c, db, id, verbs, clock, count, all, ends, heard, e);
    if go {
      FinishedAtEnd(c);
    }
  }

  // ---------------------------------------------------------------- many connections

  /** A live connection: what it has received, executed and stored. */
  ghost predicate Open(c: C.Client, cfg: G.Config, arrived: Bytes, said: seq<G.Command>, args: seq<Bytes>)
    reads c
  {
    c.cfg == cfg && c.Valid() && !c.halted && c.received == arrived && c.executed == said && c.argv == args
  }

  /** Connection i is where the room says. */
  ghost predicate OpenAt(conns: seq<C.Client>, cfg: G.Config, room: Room, argvs: seq<seq<Bytes>>, i: nat)
    reads if i < |conns| then {conns[i]} else {}
    requires i < |conns| == |room.arrived| == |room.said| == |argvs|
  {
    Open(conns[i], cfg, room.arrived[i], room.said[i], argvs[i])
  }

  ghost predicate AllOpen(conns: seq<C.Client>, cfg: G.Config, room: Room, argvs: seq<seq<Bytes>>)
    reads conns
  {
    && |conns| == |room.arrived| == |room.said| == |argvs|
    && forall i: nat {:trigger OpenAt(conns, cfg, room, argvs, i)} ::
         i >= |conns| || OpenAt(conns, cfg, room, argvs, i)
  }

  /** src/redis/client.c:363: bytes arrive at a connection, or parsed ones are dropped; nothing else changes. */
  method Receive(c: C.Client, ev: C.Event, ghost cfg: G.Config, ghost arrived: Bytes, ghost said: seq<G.Command>,
                 ghost args: seq<Bytes>)
    requires Open(c, cfg, arrived, said, args) && !ev.Handle?
    modifies c
    ensures Open(c, cfg, arrived + C.BytesOf(ev), said, args)
  {
    match ev
    case Chunk(bytes) => c.Append(bytes);
    case Drop(n) => c.Trim(if n <= c.qbPos then n else c.qbPos);
  }

  /** The room after bytes have arrived from client id. */
  ghost function Received(room: Room, id: nat, bytes: Bytes): Room
    requires id < |room.arrived|
  {
    room.(arrived := room.arrived[id := room.arrived[id] + bytes])
  }

  /** The input takes the room to room'; for a handler call, `all` and `ends` describe the stream. */
  ghost predicate Becomes(cfg: G.Config, room: Room, i: Input, all: seq<G.Command>, ends: bool, room': Room)
    requires Fits(room, |room.arrived|)
  {
    if room.down || i.client >= |room.arrived| then room' == room
    else if i.event.Handle? then
      Stream(cfg, room.arrived[i.client], all, ends) && room' == Handled(room, i.client, all, ends)
    else room' == Received(room, i.client, C.BytesOf(i.event))
  }

  /** Before an input: the room, and the commands and the end of the stream it is about. */
  datatype Stage = Stage(room: Room, all: seq<G.Command>, ends: bool)

  ghost function StageOf(cfg: G.Config, room: Room, i: Input): Stage {
    if i.client >= |room.arrived| then Stage(room, [], false)
    else Stage(room, Commands(cfg, room.arrived[i.client]), Ends(cfg, room.arrived[i.client]))
  }

  lemma HearBecomes(cfg: G.Config, room: Room, i: Input)
    requires Fits(room, |room.arrived|)
    ensures var st := StageOf(cfg, room, i); Becomes(cfg, room, i, st.all, st.ends, Hear(cfg, room, i))
  {
    if i.client < |room.arrived| && i.event.Drop? {
      UpdateTwice(room.arrived, i.client, [], []);
      assert room.arrived[i.client] + [] == room.arrived[i.client];
    }
  }

  /** No two connections are one. */
  ghost predicate Distinct(conns: seq<C.Client>) {
    forall i, j :: 0 <= i < |conns| && 0 <= j < |conns| && i != j ==> conns[i] != conns[j]
  }

  method ReceiveAt(conns: seq<C.Client>, id: nat, ev: C.Event, ghost cfg: G.Config, ghost room: Room,
                   ghost argvs: seq<seq<Bytes>>)
    requires AllOpen(conns, cfg, room, argvs) && Distinct(conns) && id < |conns| && !ev.Handle?
    modifies conns[id]
    ensures AllOpen(conns, cfg, Received(room, id, C.BytesOf(ev)), argvs)
  {
    ghost var room' := Received(room, id, C.BytesOf(ev));
    assert OpenAt(conns, cfg, room, argvs, id);
    Receive(conns[id], ev, cfg, room.arrived[id], room.said[id], argvs[id]);
    forall j: nat {:trigger OpenAt(conns, cfg, room', argvs, j)}
      ensures j >= |conns| || OpenAt(conns, cfg, room', argvs, j)
    {
      if j < |conns| && j != id {
        assert OpenAt(conns, cfg, room, argvs, j) == old(OpenAt(conns, cfg, room, argvs, j));
      }
    }
  }

  /** No connection is part of the database. */
  ghost predicate Outside(conns: seq<C.Client>, db: Database) {
    forall i :: 0 <= i < |conns| ==> conns[i] !in db.Repr()
  }

  /** The whole server: all connections, the database, and what has been told so far. */
  ghost predicate Serving(conns: seq<C.Client>, db: Database, cfg: G.Config, room: Room, e: Eager)
    reads conns, db.Repr()
  {
    AllOpen(conns, cfg, room, e.argvs) && Distinct(conns) && Outside(conns, db) && Follows(db, e)
  }

  /** One connection is handled; unless that ends the server, it is open again. */
  method HandleOpen(c: C.Client, db: Database, id: nat, verbs: Verbs, clock: nat -> int, count: nat,
                    ghost all: seq<G.Command>, ghost ends: bool, ghost cfg: G.Config, ghost arrived: Bytes,
                    ghost said: seq<G.Command>, ghost heard: seq<Request>, ghost e: Eager)
    returns (answers: seq<Answer>, down: bool, count': nat, ghost args: seq<Bytes>, ghost e': Eager)
    requires id < |e.argvs| && Open(c, cfg, arrived, said, e.argvs[id]) && c !in db.Repr() && Follows(db, e)
    requires Monotone(clock) && Stream(cfg, arrived, all, ends) && AllProper(all, verbs)
    requires |heard| == count && e.book == Ledger(heard, verbs, clock)
    modifies c, db.Repr()
    ensures Follows(db, e') && e'.book.told == e.book.told + answers
    ensures e' == Eager(Ledger(heard + From(id, News(said, all)), verbs, clock), e.argvs[id := args])
    ensures down == ends && count' == |heard + From(id, News(said, all))| && (down || Open(c, cfg, arrived, all, args))
  {
    var n := |c.executed|;
    answers, e' := HandleConnection(c, db, id, verbs, clock, count, all, ends, heard, e);
    assert News(said, all) == all[|said|..] && |From(id, News(said, all))| == |c.executed| - n;
    down, count', args := c.halted, count + (|c.executed| - n), c.argv;
  }

  /** A connection is handled. Afterwards the server is down, or all connections are open. */
  method HandleOne(conns: seq<C.Client>, db: Database, id: nat, verbs: Verbs, clock: nat -> int, count: nat,
                   ghost all: seq<G.Command>, ghost ends: bool, ghost cfg: G.Config, ghost room: Room, ghost e: Eager)
    returns (answers: seq<Answer>, down: bool, count': nat, ghost e': Eager)
    requires Serving(conns, db, cfg, room, e) && Fits(room, |room.arrived|) && id < |conns| && Monotone(clock)
    requires Stream(cfg, room.arrived[id], all, ends) && AllProper(all, verbs)
    requires |room.heard| == count && e.book == Ledger(room.heard, verbs, clock)
    modifies conns[id], db.Repr()
    ensures var room' := Handled(room, id, all, ends);
            && e'.book == Ledger(room'.heard, verbs, clock) && e'.book.told == e.book.told + answers
            && down == ends && count' == |room'.heard|
            && (down || Serving(conns, db, cfg, room', e'))
  {
    assert OpenAt(conns, cfg, room, e.argvs, id);
    ghost var args;
    answers, down, count', args, e' :=
      HandleOpen(conns[id], db, id, verbs, clock, count, all, ends, cfg, room.arrived[id], room.said[id], room.heard,
                 e);
    ghost var room' := Handled(room, id, all, ends);
    if !down {
      forall j: nat {:trigger OpenAt(conns, cfg, room', e'.argvs, j)}
        ensures j >= |conns| || OpenAt(conns, cfg, room', e'.argvs, j)
      {
        if j < |conns| && j != id {
          assert OpenAt(conns, cfg, room, e.argvs, j) == old(OpenAt(conns, cfg, room, e.argvs, j));
        }
      }
      assert AllOpen(conns, cfg, room', e'.argvs);
    }
  }

  method ReceiveServing(conns: seq<C.Client>, db: Database, id: nat, ev: C.Event, ghost cfg: G.Config, ghost room: Room,
                        ghost e: Eager)
    requires Serving(conns, db, cfg, room, e) && id < |conns| && !ev.Handle?
    modifies conns[id]
    ensures Serving(conns, db, cfg, Received(room, id, C.BytesOf(ev)), e)
  {
    ReceiveAt(conns, id, ev, cfg, room, e.argvs);
    assert Follows(db, e) == old(Follows(db, e));
  }

  /** One input. */
  method Take(conns: seq<C.Client>, db: Database, i: Input, verbs: Verbs, clock: nat -> int, count: nat,
              ghost all: seq<G.Command>, ghost ends: bool, ghost cfg: G.Config, ghost room: Room, ghost room': Room,
              ghost e: Eager)
    returns (answers: seq<Answer>, down: bool, count': nat, ghost e': Eager)
    requires Serving(conns, db, cfg, room, e) && Fits(room, |room.arrived|) && !room.down && Monotone(clock)
    requires Becomes(cfg, room, i, all, ends, room')
    requires i.client < |conns| && i.event.Handle? ==> AllProper(all, verbs)
    requires |room.heard| == count && e.book == Ledger(room.heard, verbs, clock)
    modifies conns, db.Repr()
    ensures e'.book == Ledger(room'.heard, verbs, clock) && e'.book.told == e.book.told + answers
    ensures down == room'.down && count' == |room'.heard| && (down || Serving(conns, db, cfg, room', e'))
  {
    answers, down, count', e' := [], false, count, e;
    if i.client >= |conns| {
      return;
    }
    if i.event.Handle? {
      answers, down, count', e' := HandleOne(conns, db, i.client, verbs, clock, count, all, ends, cfg, room, e);
    } else {
      ReceiveServing(conns, db, i.client, i.event, cfg, room, e);
    }
  }

  // ---------------------------------------------------------------- whole runs

  /** What is heard from one client is proper when everything that is heard is. */
  lemma {:induction false} SaidProper(heard: seq<Request>, id: nat, verbs: Verbs)
    requires HeardProper(heard, verbs)
    ensures AllProper(Said(heard, id), verbs)
  {
    if heard != [] {
      SaidProper(heard[..|heard| - 1], id, verbs);
    }
  }

  lemma HearMore(cfg: G.Config, s: Room, i: Input)
    requires Fits(s, |s.arrived|)
    ensures s.heard <= Hear(cfg, s, i).heard
  {
  }

  lemma {:induction false} HeardGrows(cfg: G.Config, clients: nat, inputs: seq<Input>, n: nat, m: nat) returns (s: Room)
    requires n <= m <= |inputs|
    ensures s == RoomAfter(cfg, clients, inputs, m) && RoomAfter(cfg, clients, inputs, n).heard <= s.heard
  {
    if n == m {
      s := RoomAfter(cfg, clients, inputs, m);
    } else {
      var s0 := HeardGrows(cfg, clients, inputs, n, m - 1);
      HearMore(cfg, s0, inputs[m - 1]);
      s := Hear(cfg, s0, inputs[m - 1]);
    }
  }

  /** What is about to be handled is proper when everything that is ever heard is. */
  lemma HandledIsProper(cfg: G.Config, s: Room, i: Input, heard: seq<Request>, verbs: Verbs)
    requires Sorted(cfg, s) && !s.down && i.event.Handle? && i.client < |s.arrived|
    requires Hear(cfg, s, i).heard <= heard && HeardProper(heard, verbs)
    ensures AllProper(Commands(cfg, s.arrived[i.client]), verbs)
  {
    HearSorted(cfg, s, i);
    SaidProper(Hear(cfg, s, i).heard, i.client, verbs);
  }

  /** Input n takes its stage to the next one, and what it handles is proper. */
  ghost predicate StepOk(cfg: G.Config, clients: nat, inputs: seq<Input>, verbs: Verbs, stages: seq<Stage>, n: nat)
    requires n < |inputs| && |stages| == |inputs| + 1
  {
    var st, i := stages[n], inputs[n];
    && Fits(st.room, clients) && Becomes(cfg, st.room, i, st.all, st.ends, stages[n + 1].room)
    && (!st.room.down && i.event.Handle? && i.client < clients ==> AllProper(st.all, verbs))
  }

  /** The stages of a run. */
  ghost predicate Staged(cfg: G.Config, clients: nat, inputs: seq<Input>, verbs: Verbs, stages: seq<Stage>) {
    && |stages| == |inputs| + 1 && stages[0].room == EmptyRoom(clients)
    && forall n: nat {:trigger StepOk(cfg, clients, inputs, verbs, stages, n)} ::
         n >= |inputs| || StepOk(cfg, clients, inputs, verbs, stages, n)
  }

  lemma NextInput(cfg: G.Config, clients: nat, inputs: seq<Input>, n: nat, verbs: Verbs, room: Room)
    requires n < |inputs| && HeardProper(RoomAfter(cfg, clients, inputs, |inputs|).heard, verbs)
    requires room == RoomAfter(cfg, clients, inputs, n)
    ensures Fits(room, clients)
    ensures var st := StageOf(cfg, room, inputs[n]);
            && Becomes(cfg, room, inputs[n], st.all, st.ends, RoomAfter(cfg, clients, inputs, n + 1))
            && (!room.down && inputs[n].event.Handle? && inputs[n].client < clients ==> AllProper(st.all, verbs))
  {
    var i := inputs[n];
    HearBecomes(cfg, room, i);
    HeardAlone(cfg, clients, inputs, n);
    var last := HeardGrows(cfg, clients, inputs, n + 1, |inputs|);
    if !room.down && i.event.Handle? && i.client < clients {
      HandledIsProper(cfg, room, i, last.heard, verbs);
    }
  }

  ghost function StageAt(cfg: G.Config, clients: nat, inputs: seq<Input>, n: nat): Stage
    requires n <= |inputs|
  {
    var room := RoomAfter(cfg, clients, inputs, n);
    if n == |inputs| then Stage(room, [], false) else StageOf(cfg, room, inputs[n])
  }

  ghost function StagesOf(cfg: G.Config, clients: nat, inputs: seq<Input>): (r: seq<Stage>)
    ensures |r| == |inputs| + 1 && forall n :: 0 <= n <= |inputs| ==> r[n] == StageAt(cfg, clients, inputs, n)
  {
    seq(|inputs| + 1, n requires 0 <= n <= |inputs| => StageAt(cfg, clients, inputs, n))
  }

  lemma FirstStage(cfg: G.Config, clients: nat, inputs: seq<Input>)
    ensures StageAt(cfg, clients, inputs, 0).room == EmptyRoom(clients)
    ensures StageAt(cfg, clients, inputs, |inputs|).room == RoomAfter(cfg, clients, inputs, |inputs|)
  {
  }

  lemma StagesOfRun(cfg: G.Config, clients: nat, inputs: seq<Input>, verbs: Verbs) returns (stages: seq<Stage>)
    requires HeardProper(RoomAfter(cfg, clients, inputs, |inputs|).heard, verbs)
    ensures Staged(cfg, clients, inputs, verbs, stages)
    ensures stages[|inputs|].room == RoomAfter(cfg, clients, inputs, |inputs|)
  {
    stages := StagesOf(cfg, clients, inputs);
    FirstStage(cfg, clients, inputs);
    forall n: nat {:trigger StepOk(cfg, clients, inputs, verbs, stages, n)}
      ensures n >= |inputs| || StepOk(cfg, clients, inputs, verbs, stages, n)
    {
      if n < |inputs| {
        StageStep(cfg, clients, inputs, verbs, stages, n);
      }
    }
  }

  lemma StageStep(cfg: G.Config, clients: nat, inputs: seq<Input>, verbs: Verbs, stages: seq<Stage>, n: nat)
    requires n < |inputs| && |stages| == |inputs| + 1
    requires stages[n] == StageAt(cfg, clients, inputs, n) && stages[n + 1] == StageAt(cfg, clients, inputs, n + 1)
    requires HeardProper(RoomAfter(cfg, clients, inputs, |inputs|).heard, verbs)
    ensures StepOk(cfg, clients, inputs, verbs, stages, n)
  {
    NextInput(cfg, clients, inputs, n, verbs, RoomAfter(cfg, clients, inputs, n));
  }

  method NewConnections(cfg: G.Config, clients: nat, ghost argvs: seq<seq<Bytes>>) returns (conns: seq<C.Client>)
    requires |argvs| == clients && forall i :: 0 <= i < clients ==> argvs[i] == []
    ensures |conns| == clients && Distinct(conns) && forall i :: 0 <= i < clients ==> fresh(conns[i])
    ensures AllOpen(conns, cfg, EmptyRoom(clients), argvs)
  {
    conns := [];
    for n := 0 to clients
      invariant |conns| == n && Distinct(conns) && forall i :: 0 <= i < n ==> fresh(conns[i])
      invariant forall i :: 0 <= i < n ==> Open(conns[i], cfg, [], [], [])
    {
      var c := new C.Client(cfg);
      assert forall i :: 0 <= i < n ==> Open(conns[i], cfg, [], [], []);
      conns := conns + [c];
    }
  }

  method NewDatabase(clients: nat, ghost t0: int) returns (db: Database)
    ensures fresh(db.Repr()) && Follows(db, EagerStart(clients, t0))
  {
    db := new Database(clients);
    ghost var l, e := StartSim(clients, t0);
  }

  /** The server at a room of its run. */
  ghost predicate Reached(conns: seq<C.Client>, db: Database, cfg: G.Config, verbs: Verbs, clock: nat -> int,
                          room: Room, down: bool, count: nat, answers: seq<Answer>, e: Eager)
    reads conns, db.Repr()
  {
    && e.book == Ledger(room.heard, verbs, clock)
    && answers == e.book.told && down == room.down && count == |room.heard|
    && (down || Serving(conns, db, cfg, room, e))
  }

  /** The server at start-up. */
  method Launch(cfg: G.Config, clients: nat, ghost verbs: Verbs, ghost clock: nat -> int)
    returns (conns: seq<C.Client>, db: Database, ghost e: Eager)
    ensures fresh(db.Repr()) && |conns| == clients && forall i :: 0 <= i < |conns| ==> fresh(conns[i])
    ensures Reached(conns, db, cfg, verbs, clock, EmptyRoom(clients), false, 0, [], e)
  {
    db := NewDatabase(clients, clock(0));
    e := EagerStart(clients, clock(0));
    conns := Connect(cfg, clients, db, e);
  }

  method Connect(cfg: G.Config, clients: nat, ghost db: Database, ghost e: Eager) returns (conns: seq<C.Client>)
    requires Follows(db, e) && |e.argvs| == clients && forall i :: 0 <= i < clients ==> e.argvs[i] == []
    ensures |conns| == clients && forall i :: 0 <= i < |conns| ==> fresh(conns[i])
    ensures |conns| != clients || Serving(conns, db, cfg, EmptyRoom(clients), e)
  {
    conns := NewConnections(cfg, clients, e.argvs);
    assert Follows(db, e) == old(Follows(db, e));
    assert Outside(conns, db);
  }

  method TakeNext(conns: seq<C.Client>, db: Database, cfg: G.Config, inputs: seq<Input>, n: nat, verbs: Verbs,
                  clock: nat -> int, ghost stages: seq<Stage>, down: bool, count: nat, answers: seq<Answer>,
                  ghost e: Eager)
    returns (down': bool, count': nat, answers': seq<Answer>, ghost e': Eager)
    requires Staged(cfg, |conns|, inputs, verbs, stages) && n < |inputs| && Monotone(clock)
    requires Reached(conns, db, cfg, verbs, clock, stages[n].room, down, count, answers, e)
    modifies conns, db.Repr()
    ensures Reached(conns, db, cfg, verbs, clock, stages[n + 1].room, down', count', answers', e')
  {
    assert StepOk(cfg, |conns|, inputs, verbs, stages, n);
    if down {
      down', count', answers', e' := down, count, answers, e;
    } else {
      ghost var st, room' := stages[n], stages[n + 1].room;
      var more;
      more, down', count', e' :=
        Take(conns, db, inputs[n], verbs, clock, count, st.all, st.ends, cfg, st.room, room', e);
      answers' := answers + more;
    }
  }

  /** The inputs from n on. */
  method TakeFrom(conns: seq<C.Client>, db: Database, cfg: G.Config, inputs: seq<Input>, n: nat, verbs: Verbs,
                  clock: nat -> int, ghost stages: seq<Stage>, down: bool, count: nat, answers: seq<Answer>,
                  ghost e: Eager)
    returns (answers': seq<Answer>)
    requires Staged(cfg, |conns|, inputs, verbs, stages) && n <= |inputs| && Monotone(clock)
    requires Reached(conns, db, cfg, verbs, clock, stages[n].room, down, count, answers, e)
    modifies conns, db.Repr()
    ensures answers' == Ledger(stages[|inputs|].room.heard, verbs, clock).told
    decreases |inputs| - n
  {
    if n == |inputs| {
      return answers;
    }
    ghost var e';
    var down', count';
    down', count', answers', e' := TakeNext(conns, db, cfg, inputs, n, verbs, clock, stages, down, count, answers, e);
    answers' := TakeFrom(conns, db, cfg, inputs, n + 1, verbs, clock, stages, down', count', answers', e');
  }

  /**
   Every run of the server: any number of clients send any bytes in any pieces, and are handled in any order. The
   answers, and the clients that get them, are those of a timed map to the commands that the one-shot parser finds in
   each client's stream, in the order in which they were completed.
   */
  method Converse(cfg: G.Config, clients: nat, inputs: seq<Input>, verbs: Verbs, clock: nat -> int)
    returns (answers: seq<Answer>)
    requires Monotone(clock) && HeardProper(RoomAfter(cfg, clients, inputs, |inputs|).heard, verbs)
    ensures answers == Ledger(RoomAfter(cfg, clients, inputs, |inputs|).heard, verbs, clock).told
  {
    ghost var stages := StagesOfRun(cfg, clients, inputs, verbs);
    var conns, db;
    ghost var e;
    conns, db, e := Launch(cfg, clients, verbs, clock);
    answers := TakeFrom(conns, db, cfg, inputs, 0, verbs, clock, stages, false, 0, [], e);
  }
}
