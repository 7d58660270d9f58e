/** Which bytes a client's stream is made of: the conversation, stated on the inputs alone. */
module Streams {
  import opened Wire
  import G = RequestGrammar
  import C = RedisClient
  import RoundTrip
  import opened KeySpaceRuns
  import opened EndToEnd

  /** What happens to the connection of client id, among the first n inputs. */
  function Mine(inputs: seq<Input>, id: nat, n: nat): seq<C.Event>
    requires n <= |inputs|
  {
    if n == 0 then []
    else Mine(inputs, id, n - 1) + if inputs[n - 1].client == id then [inputs[n - 1].event] else []
  }

  /** The bytes that have arrived from client id, and those that had when its connection was last handled. */
  function ArrivedFrom(inputs: seq<Input>, id: nat, n: nat): Bytes
    requires n <= |inputs|
  {
    var ev := Mine(inputs, id, n);
    C.Arrived(ev, |ev|)
  }

  function HandledFrom(inputs: seq<Input>, id: nat, n: nat): Bytes
    requires n <= |inputs|
  {
    var ev := Mine(inputs, id, n);
    C.Handled(ev, |ev|)
  }

  /** What input n does: a chunk adds its bytes to its own client's stream, a handler call takes in its own client's. */
  lemma StreamThen(inputs: seq<Input>, id: nat, n: nat)
    requires n < |inputs|
    ensures var i := inputs[n];
            && ArrivedFrom(inputs, id, n + 1) == ArrivedFrom(inputs, id, n) +
               (if i.client == id && i.event.Chunk? then i.event.bytes else [])
            && HandledFrom(inputs, id, n + 1) ==
               (if i.client == id && i.event.Handle? then ArrivedFrom(inputs, id, n) else HandledFrom(inputs, id, n))
  {
    if inputs[n].client == id {
      C.ArrivedThen(Mine(inputs, id, n), inputs[n].event);
    } else {
      assert Mine(inputs, id, n) + [] == Mine(inputs, id, n);
    }
  }

  lemma {:induction false} ArrivedGrows(inputs: seq<Input>, id: nat, m: nat, n: nat)
    requires m <= n <= |inputs|
    ensures ArrivedFrom(inputs, id, m) <= ArrivedFrom(inputs, id, n)
  {
    if m < n {
      ArrivedGrows(inputs, id, m, n - 1);
      StreamThen(inputs, id, n - 1);
    }
  }

  lemma HandledHasArrived(inputs: seq<Input>, id: nat, n: nat)
    requires n <= |inputs|
    ensures HandledFrom(inputs, id, n) <= ArrivedFrom(inputs, id, n)
  {
    var ev := Mine(inputs, id, n);
    C.HandledArrived(ev, |ev|);
  }

  // ---------------------------------------------------------------- the room has these streams

  /** In the room, every client's bytes are those of its own inputs among the first n. */
  ghost predicate OwnStreams(inputs: seq<Input>, room: Room, n: nat)
    requires n <= |inputs|
  {
    && Fits(room, |room.arrived|)
    && (forall id :: 0 <= id < |room.arrived| ==> room.arrived[id] == ArrivedFrom(inputs, id, n))
    && (forall id :: 0 <= id < |room.arrived| ==> room.handled[id] == HandledFrom(inputs, id, n))
  }

  lemma HearStreams(cfg: G.Config, inputs: seq<Input>, room: Room, n: nat)
    requires n < |inputs| && OwnStreams(inputs, room, n) && !room.down
    ensures OwnStreams(inputs, Hear(cfg, room, inputs[n]), n + 1)
  {
    var st := StageOf(cfg, room, inputs[n]);
    var room' := Hear(cfg, room, inputs[n]);
    HearBecomes(cfg, room, inputs[n]);
    forall id | 0 <= id < |room.arrived|
      ensures room'.arrived[id] == ArrivedFrom(inputs, id, n + 1) && room'.handled[id] == HandledFrom(inputs, id, n + 1)
    {
      StreamThen(inputs, id, n);
    }
  }

  lemma FirstStreams(cfg: G.Config, clients: nat, inputs: seq<Input>) returns (room: Room)
    ensures room == RoomAfter(cfg, clients, inputs, 0) && OwnStreams(inputs, room, 0) && !room.down
  {
    room := EmptyRoom(clients);
  }

  lemma NextStreams(cfg: G.Config, clients: nat, inputs: seq<Input>, room: Room, m: nat, n: nat)
    returns (m': nat, room': Room)
    requires m <= n < |inputs| && OwnStreams(inputs, room, m) && (m < n ==> room.down)
    requires room == RoomAfter(cfg, clients, inputs, n)
    ensures m' <= n + 1 && room' == RoomAfter(cfg, clients, inputs, n + 1) && (m' < n + 1 ==> room'.down)
    ensures OwnStreams(inputs, room', m')
  {
    room' := Hear(cfg, room, inputs[n]);
    if room.down {
      m' := m;
    } else {
      m' := n + 1;
      HearStreams(cfg, inputs, room, n);
    }
  }

  /**
   Every run: until it ends, every client's bytes in the room are those of its own inputs. If the run has ended, then
   at input m, and nothing has changed since.
   */
  lemma {:induction false} RunStreams(cfg: G.Config, clients: nat, inputs: seq<Input>, n: nat)
    returns (m: nat, room: Room)
    requires n <= |inputs|
    ensures m <= n && room == RoomAfter(cfg, clients, inputs, n) && (m < n ==> room.down)
    ensures OwnStreams(inputs, room, m)
  {
    if n == 0 {
      m := 0;
      room := FirstStreams(cfg, clients, inputs);
    } else {
      var m0, room0 := RunStreams(cfg, clients, inputs, n - 1);
      m, room := NextStreams(cfg, clients, inputs, room0, m0, n - 1);
    }
  }

  /**
   What input n adds to what is heard: nothing, unless it is a handler call; then the commands that the client's own
   stream has and had not when it was last handled. The run ends exactly when that stream ends it.
   */
  lemma NextHeard(cfg: G.Config, clients: nat, inputs: seq<Input>, n: nat) returns (more: seq<G.Command>)
    requires n < |inputs| && !RoomAfter(cfg, clients, inputs, n).down
    ensures var i, s, s' := inputs[n], RoomAfter(cfg, clients, inputs, n), RoomAfter(cfg, clients, inputs, n + 1);
            var was, now := HandledFrom(inputs, i.client, n), ArrivedFrom(inputs, i.client, n);
            && s'.heard == s.heard + From(i.client, more)
            && (i.event.Handle? && i.client < clients ==>
                  Commands(cfg, was) + more == Commands(cfg, now) && s'.down == Ends(cfg, now))
            && (!i.event.Handle? || i.client >= clients ==> more == [] && !s'.down)
  {
    var i := inputs[n];
    var m, s := RunStreams(cfg, clients, inputs, n);
    HeardAlone(cfg, clients, inputs, n);
    if i.event.Handle? && i.client < clients {
      CommandsGrow(cfg, s.handled[i.client], s.arrived[i.client]);
      more := News(s.said[i.client], Commands(cfg, s.arrived[i.client]));
    } else {
      more := [];
      assert s.heard + From(i.client, more) == s.heard;
    }
  }

  // ---------------------------------------------------------------- runs that do not end

  lemma EndsGrows(cfg: G.Config, u: Bytes, v: Bytes)
    requires u <= v && Ends(cfg, u)
    ensures Ends(cfg, v)
  {
    assert v == u + v[|u|..];
    G.ServeExtends(G.Resp(cfg), u, v[|u|..]);
  }

  /** No stream ends the run. */
  ghost predicate NoneEnds(cfg: G.Config, clients: nat, inputs: seq<Input>) {
    forall id :: 0 <= id < clients ==> !Ends(cfg, ArrivedFrom(inputs, id, |inputs|))
  }

  lemma NotEnded(cfg: G.Config, clients: nat, inputs: seq<Input>, id: nat, n: nat)
    requires NoneEnds(cfg, clients, inputs) && id < clients && n <= |inputs|
    ensures !Ends(cfg, ArrivedFrom(inputs, id, n))
  {
    var u, v := ArrivedFrom(inputs, id, n), ArrivedFrom(inputs, id, |inputs|);
    ArrivedGrows(inputs, id, n, |inputs|);
    if Ends(cfg, u) {
      EndsGrows(cfg, u, v);
    }
  }

  lemma StillUp(cfg: G.Config, clients: nat, inputs: seq<Input>, n: nat, s: Room) returns (s': Room)
    requires NoneEnds(cfg, clients, inputs) && n < |inputs| && s == RoomAfter(cfg, clients, inputs, n) && !s.down
    ensures s' == RoomAfter(cfg, clients, inputs, n + 1) && !s'.down
  {
    var more := NextHeard(cfg, clients, inputs, n);
    s' := RoomAfter(cfg, clients, inputs, n + 1);
    if inputs[n].client < clients {
      NotEnded(cfg, clients, inputs, inputs[n].client, n);
    }
  }

  lemma {:induction false} NeverDown(cfg: G.Config, clients: nat, inputs: seq<Input>, n: nat) returns (s: Room)
    requires NoneEnds(cfg, clients, inputs) && n <= |inputs|
    ensures s == RoomAfter(cfg, clients, inputs, n) && !s.down
  {
    if n == 0 {
      s := FirstStreams(cfg, clients, inputs);
    } else {
      var s0 := NeverDown(cfg, clients, inputs, n - 1);
      s := StillUp(cfg, clients, inputs, n - 1, s0);
    }
  }

  /** When no stream ends the run, every client is heard with exactly the commands of the bytes it was handled for. */
  lemma HeardFromStreams(cfg: G.Config, clients: nat, inputs: seq<Input>, id: nat)
    requires NoneEnds(cfg, clients, inputs) && id < clients
    ensures Said(RoomAfter(cfg, clients, inputs, |inputs|).heard, id) ==
            Commands(cfg, HandledFrom(inputs, id, |inputs|))
  {
    var up := NeverDown(cfg, clients, inputs, |inputs|);
    var m, room := RunStreams(cfg, clients, inputs, |inputs|);
    HeardAlone(cfg, clients, inputs, |inputs|);
  }

  /** A client whose handled chunks make up an encoded pipeline is heard with its commands, up to the first QUIT. */
  lemma PipelineIsHeard(cfg: G.Config, clients: nat, inputs: seq<Input>, id: nat, cmds: seq<G.Command>)
    requires NoneEnds(cfg, clients, inputs) && id < clients && cfg.maxBulk < INT64_LIMIT
    requires forall i :: 0 <= i < |cmds| ==> RoundTrip.Legal(cfg, cmds[i])
    requires HandledFrom(inputs, id, |inputs|) == RoundTrip.Pipeline(cmds)
    ensures Said(RoomAfter(cfg, clients, inputs, |inputs|).heard, id) == RoundTrip.UpToQuit(G.Resp(cfg), cmds)
  {
    HeardFromStreams(cfg, clients, inputs, id);
    RoundTrip.PipelineCommands(cfg, cmds);
  }

  // ---------------------------------------------------------------- who is heard, and who is answered

  /** Every request is among those its client has said. */
  lemma {:induction false} SaidHas(heard: seq<Request>, i: nat)
    requires i < |heard|
    ensures heard[i].command in Said(heard, heard[i].client)
  {
    var n := |heard| - 1;
    if i < n {
      SaidHas(heard[..n], i);
    }
  }

  lemma {:induction false} HeardAreClients(cfg: G.Config, clients: nat, inputs: seq<Input>, n: nat) returns (s: Room)
    requires n <= |inputs|
    ensures s == RoomAfter(cfg, clients, inputs, n) && forall i :: 0 <= i < |s.heard| ==> s.heard[i].client < clients
  {
    if n == 0 {
      s := RoomAfter(cfg, clients, inputs, n);
    } else {
      var s0 := HeardAreClients(cfg, clients, inputs, n - 1);
      s := Hear(cfg, s0, inputs[n - 1]);
    }
  }

  /** When every stream is proper, everything that is heard is. */
  lemma StreamsAreProper(cfg: G.Config, clients: nat, inputs: seq<Input>, verbs: Verbs)
    requires forall id :: 0 <= id < clients ==> AllProper(Commands(cfg, ArrivedFrom(inputs, id, |inputs|)), verbs)
    ensures HeardProper(RoomAfter(cfg, clients, inputs, |inputs|).heard, verbs)
  {
    var m, room := RunStreams(cfg, clients, inputs, |inputs|);
    HeardAlone(cfg, clients, inputs, |inputs|);
    var s := HeardAreClients(cfg, clients, inputs, |inputs|);
    forall i | 0 <= i < |room.heard| ensures Proper(room.heard[i].command, verbs) {
      var id := room.heard[i].client;
      SaidHas(room.heard, i);
      HandledHasArrived(inputs, id, m);
      ArrivedGrows(inputs, id, m, |inputs|);
      CommandsGrow(cfg, HandledFrom(inputs, id, m), ArrivedFrom(inputs, id, |inputs|));
      SaidIsProper(room.said[id], Commands(cfg, ArrivedFrom(inputs, id, |inputs|)), verbs, room.heard[i].command);
    }
  }

  lemma SaidIsProper(said: seq<G.Command>, all: seq<G.Command>, verbs: Verbs, c: G.Command)
    requires said <= all && AllProper(all, verbs) && c in said
    ensures Proper(c, verbs)
  {
    var i :| 0 <= i < |said| && said[i] == c;
    assert all[i] == c;
  }

  /** The clients whose requests are answered, in order. */
  ghost function Senders(heard: seq<Request>, verbs: Verbs): seq<nat> {
    if heard == [] then []
    else
      var r := heard[|heard| - 1];
      Senders(heard[..|heard| - 1], verbs) + if verbs(r.command[0]).Some? then [r.client] else []
  }

  /** Every answer goes to the client whose request it answers, and there is one for each. */
  lemma {:induction false} AnswersGoToSenders(heard: seq<Request>, verbs: Verbs, clock: nat -> int)
    ensures var told, senders := Ledger(heard, verbs, clock).told, Senders(heard, verbs);
            |told| == |senders| && forall i :: 0 <= i < |told| ==> told[i].client == senders[i]
  {
    if heard != [] {
      AnswersGoToSenders(heard[..|heard| - 1], verbs, clock);
    }
  }

  /**
   Every run, on the inputs alone: the answers are those of a timed map to requests whose commands are, client by
   client, what the one-shot parser finds in the chunks of that client; each goes to the client that asked.
   */
  method ConverseOnStreams(cfg: G.Config, clients: nat, inputs: seq<Input>, verbs: Verbs, clock: nat -> int)
    returns (answers: seq<Answer>)
    requires Monotone(clock)
    requires forall id :: 0 <= id < clients ==> AllProper(Commands(cfg, ArrivedFrom(inputs, id, |inputs|)), verbs)
    ensures var heard := RoomAfter(cfg, clients, inputs, |inputs|).heard;
            && answers == Ledger(heard, verbs, clock).told
            && (NoneEnds(cfg, clients, inputs) ==>
                  forall id :: 0 <= id < clients ==>
                    Said(heard, id) == Commands(cfg, HandledFrom(inputs, id, |inputs|)))
            && var senders := Senders(heard, verbs);
               |answers| == |senders| && forall i :: 0 <= i < |answers| ==> answers[i].client == senders[i] < clients
  {
    StreamsAreProper(cfg, clients, inputs, verbs);
    answers := Converse(cfg, clients, inputs, verbs, clock);
    var s := HeardAreClients(cfg, clients, inputs, |inputs|);
    AnswersGoToSenders(s.heard, verbs, clock);
    SendersAreClients(s.heard, verbs, clients);
    if NoneEnds(cfg, clients, inputs) {
      forall id | 0 <= id < clients ensures Said(s.heard, id) == Commands(cfg, HandledFrom(inputs, id, |inputs|)) {
        HeardFromStreams(cfg, clients, inputs, id);
      }
    }
  }

  lemma {:induction false} SendersAreClients(heard: seq<Request>, verbs: Verbs, clients: nat)
    requires forall i :: 0 <= i < |heard| ==> heard[i].client < clients
    ensures forall i :: 0 <= i < |Senders(heard, verbs)| ==> Senders(heard, verbs)[i] < clients
  {
    if heard != [] {
      SendersAreClients(heard[..|heard| - 1], verbs, clients);
    }
  }

  function OneSpeaks(u: Bytes): seq<Input> {
    [Input(1, C.Chunk(u)), Input(1, C.Handle), Input(0, C.Handle)]
  }

  lemma OneSpeaksStreams(u: Bytes)
    ensures var inputs := OneSpeaks(u);
            && ArrivedFrom(inputs, 1, 1) == u && HandledFrom(inputs, 1, 1) == []
            && ArrivedFrom(inputs, 0, 2) == [] && HandledFrom(inputs, 0, 2) == []
  {
    var inputs := OneSpeaks(u);
    StreamThen(inputs, 1, 0);
    StreamThen(inputs, 0, 0);
    StreamThen(inputs, 0, 1);
    assert [] + u == u;
  }

  /** Two clients, of which client 1 sends u and is handled: exactly its commands are heard, and from it. */
  lemma OnlyOneSpeaks(cfg: G.Config, u: Bytes)
    requires !Ends(cfg, u)
    ensures RoomAfter(cfg, 2, OneSpeaks(u), 3).heard == From(1, Commands(cfg, u))
  {
    var inputs := OneSpeaks(u);
    OneSpeaksStreams(u);
    assert Commands(cfg, []) == [] && !Ends(cfg, []);
    var a := NextHeard(cfg, 2, inputs, 0);
    var b := NextHeard(cfg, 2, inputs, 1);
    var c := NextHeard(cfg, 2, inputs, 2);
    OnlyHeard(b, c, Commands(cfg, u));
  }

  lemma OnlyHeard(b: seq<G.Command>, c: seq<G.Command>, all: seq<G.Command>)
    requires [] + b == all && [] + c == []
    ensures [] + From(1, []) + From(1, b) + From(0, c) == From(1, all)
  {
    assert b == all && c == [];
  }
}
