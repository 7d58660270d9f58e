/** The server driven through whole runs: what it replies is what the model of runs says. */
module ServerRuns {
  import opened Wire
  import opened KeySpace
  import opened TimedMap
  import opened KeySpaceRuns
  import opened Server

  /** The database is in the state l of a run. */
  ghost predicate At(db: Database, l: Lazy)
    reads db.Repr()
  {
    Good(l) && (!l.aborted ==> db.Valid() && db.State() == l.w && db.next == l.next)
  }

  method RunCommand(db: Database, c: nat, cmd: Cmd, now: int) returns (r: Option<Reply>)
    requires db.Valid() && c < |db.argvs|
    modifies db.Repr()
    ensures db.next == old(db.next)
    ensures match Exec(old(db.State()), c, cmd, now)
            case Aborted => r == None
            case Replied(w, reply) => r == Some(reply) && db.Valid() && db.State() == w
  {
    match cmd
    case Set => r := db.SetCommand(c, now);
    case Get =>
      var g := db.GetCommand(c, now);
      r := Some(g);
    case Expire =>
      var x := db.ExpireCommand(c, now);
      r := Some(x);
  }

  method Handle(db: Database, e: Event, ghost l: Lazy) returns (reply: Option<Reply>, aborted: bool)
    requires At(db, l) && !l.aborted
    modifies db.Repr()
    ensures At(db, Step(l, e)) && aborted == Step(l, e).aborted
    ensures Step(l, e).replies == l.replies + if reply.Some? then [Answer(e.c, reply.value)] else []
  {
    reply, aborted := None, false;
    if e.c >= |db.argvs| {
      return;
    }
    match e
    case Push(c, bytes) => db.Push(c, bytes);
    case Clear(c) => db.ResetClient(c);
    case Run(c, cmd, now) =>
      reply := RunCommand(db, c, cmd, now);
      aborted := reply.None?;
  }

  /** Every run of the server gives the replies of the model of runs, and fails an assertion when that says so. */
  method Serve(clients: nat, events: seq<Event>) returns (replies: seq<Answer>, aborted: bool)
    ensures replies == After(clients, events, |events|).replies
    ensures aborted == After(clients, events, |events|).aborted
  {
    var db := new Database(clients);
    replies, aborted := [], false;
    for i := 0 to |events|
      invariant fresh(db.Repr()) && At(db, After(clients, events, i))
      invariant replies == After(clients, events, i).replies && aborted == After(clients, events, i).aborted
    {
      if !aborted {
        var reply;
        reply, aborted := Handle(db, events[i], After(clients, events, i));
        replies := replies + if reply.Some? then [Answer(events[i].c, reply.value)] else [];
      }
    }
  }

  /**
   Over every run, the replies are exactly what the eager server tells: lazy expiry cannot be told from eager expiry,
   except by EXPIRE of a key that is left over.
   */
  method ServeAdmissible(clients: nat, t0: int, events: seq<Event>) returns (replies: seq<Answer>)
    requires AdmissibleRun(clients, t0, events)
    ensures replies == EagerAfter(clients, t0, events, |events|).book.told
  {
    LazyRefinesEager(clients, t0, events);
    var aborted;
    replies, aborted := Serve(clients, events);
  }
}
