/** The incremental request parser of a client connection, as the event loop drives it. */
module RedisClient {
  import opened Wire
  import opened RequestGrammar
  import opened RequestModes

  datatype ReqType = Unset | Inline | Multibulk

  /** How process_multibulk_buffer ends: with a request, waiting, or with a failed assertion. */
  datatype Verdict = Complete | Wait | AssertFailed

  /** The summed lengths of the first n arguments. */
  function LenSum(args: seq<Bytes>, n: nat): nat
    requires n <= |args|
  {
    if n == 0 then 0 else LenSum(args, n - 1) + |args[n - 1]|
  }

  lemma {:induction false} LenSumPrefix(args: seq<Bytes>, a: Bytes, n: nat)
    requires n <= |args|
    ensures LenSum(args + [a], n) == LenSum(args, n)
  {
    if n > 0 {
      LenSumPrefix(args, a, n - 1);
    }
  }

  class Client {
    const cfg: Config
    var querybuf: Bytes
    var qbPos: nat
    var reqType: ReqType
    /** argv[0..argc], and the length that was allocated for it. */
    var argv: seq<Bytes>
    var argvSize: nat
    var argvLenSum: nat
    var bulkLen: int
    var multiBulkLen: nat
    var closeAfterReply: bool
    /** The commands handed to call(), in order. */
    var executed: seq<Command>
    /** Set when an assertion failed or an inline request was met; the client is not modelled beyond that. */
    var halted: bool

    ghost var received: Bytes
    ghost var consumed: Bytes
    ghost var mode: Mode

    ghost function Unread(): Bytes
      reads this
      requires qbPos <= |querybuf|
    {
      querybuf[qbPos..]
    }

    /** The fields between two steps: `argc + multi_bulk_len` is the announced count, and so on. */
    ghost predicate Fields()
      reads this
      requires qbPos <= |querybuf|
    {
      && |argv| <= argvSize
      && argvLenSum == LenSum(argv, |argv|)
      && (closeAfterReply <==> mode.Shut?)
      && match mode
         case Idle =>
           && argv == [] && multiBulkLen == 0 && bulkLen == -1
           && (reqType == Multibulk ==> Unread() != [] && Unread()[0] == STAR)
           && (reqType == Inline ==> halted)
         case Collecting(done, left, bulk) =>
           && argv == done && multiBulkLen == left > 0 && |argv| + multiBulkLen == argvSize
           && bulkLen == bulk && -1 <= bulk <= cfg.maxBulk && reqType == Multibulk
         case Ready(args) =>
           && argv == args && multiBulkLen == 0 && bulkLen == -1 && reqType == Multibulk
           && (argv == [] || |argv| == argvSize)
         case Stuck => argv != [] && multiBulkLen == 0 && bulkLen == -1 && reqType == Multibulk
         case Shut => argv == [] && multiBulkLen == 0 && bulkLen == -1 && reqType == Unset
    }

    ghost predicate Wf()
      reads this
    {
      qbPos <= |querybuf| && Fields()
    }

    /** Everything received was either consumed soundly or is still unread. */
    ghost predicate Sound()
      reads this
      requires qbPos <= |querybuf|
    {
      && received == consumed + Unread()
      && Consumes(Resp(cfg), Idle, consumed, mode, executed)
    }

    ghost predicate Valid()
      reads this
    {
      && Wf() && Sound() && !mode.Ready?
      && (halted ==> Unread() != [] && ((mode.Idle? && Unread()[0] != STAR) || mode.Stuck?))
    }

    /** Nothing more can be executed from the bytes at hand: they are incomplete, or refused. */
    ghost predicate Blocked()
      reads this
      requires qbPos <= |querybuf|
    {
      var s := Resume(Resp(cfg), mode, Unread());
      s.commands == [] && s.end in {NeedMore, ProtocolError}
    }

    /** The client stands where the reference parser stands after the same bytes. */
    ghost predicate Settled()
      reads this
      requires qbPos <= |querybuf|
    {
      var s := Resume(Resp(cfg), mode, Unread());
      && s.commands == []
      && (halted <==> s.end in {InlineRequest, AssertionFailure})
      && (closeAfterReply <==> s.end == Closed)
    }

    /**
     Since the client had executed `before` and stored `args`, it has executed at most one more command, which starts
     with those arguments; otherwise it still has them.
     */
    ghost predicate Progress(before: seq<Command>, args: seq<Bytes>)
      reads this
    {
      || (executed == before && args <= argv)
      || (argv == [] && |executed| == |before| + 1 && before <= executed && args <= executed[|before|])
    }

    constructor (cfg: Config)
      ensures this.cfg == cfg && Valid() && !halted
      ensures mode == Idle && executed == [] && received == []
    {
      this.cfg := cfg;
      querybuf, qbPos := [], 0;
      reqType, argv, argvSize, argvLenSum, bulkLen, multiBulkLen := Unset, [], 0, 0, -1, 0;
      closeAfterReply, executed, halted := false, [], false;
      received, consumed, mode := [], [], Idle;
      new;
      ConsumesNothing(Resp(cfg), Idle);
    }

    /** The event loop appends what it read from the socket. */
    method Append(chunk: Bytes)
      requires Valid() && !halted
      modifies this`querybuf, this`received
      ensures Valid() && received == old(received) + chunk
    {
      querybuf := querybuf + chunk;
      received := received + chunk;
      assert Unread() == old(Unread()) + chunk;
    }

    /** The event loop drops bytes in front of qb_pos, as it does when the handler returns 1. */
    method Trim(k: nat)
      requires Valid() && !halted && k <= qbPos
      modifies this`querybuf, this`qbPos
      ensures Valid() && Unread() == old(Unread()) && qbPos == old(qbPos) - k
    {
      querybuf, qbPos := querybuf[k..], qbPos - k;
      assert Unread() == old(Unread());
    }

    /** src/redis/client.c:218-234 and 260-283: finds a header line and reads its number. */
    method ReadHeader(lead: Byte) returns (r: Read<int>)
      requires qbPos <= |querybuf| && lead != CR
      ensures r == ReadNumber(lead, Unread())
    {
      var line := LineEnd(querybuf[qbPos..]);
      if line.None? {
        return if |querybuf| - qbPos > INLINE_MAX then Bad else More;
      }
      var newline := qbPos + line.value;
      if newline - qbPos > |querybuf| - qbPos - 2 {
        return More;
      }
      if querybuf[qbPos] != lead {
        return Bad;
      }
      assert querybuf[qbPos + 1..newline] == Unread()[1..line.value];
      var ll := ParseInt64(querybuf[qbPos + 1..newline]);
      return if ll.None? then Bad else Done(ll.value, newline + 2 - qbPos);
    }

    /** src/redis/client.c:218-253: the count line of a request. */
    method ReadCountLine() returns (v: Verdict)
      requires Wf() && mode.Idle? && reqType == Multibulk
      modifies this`qbPos, this`multiBulkLen, this`argv, this`argvSize, this`argvLenSum, this`mode
      ensures Wf()
      ensures v == if ReadCount(old(Unread())).Done? then Complete else Wait
      ensures v == Wait ==> mode == Idle && Unread() == old(Unread())
      ensures v == Complete ==>
                var Done(n, k) := ReadCount(old(Unread()));
                Unread() == old(Unread())[k..] && mode == if n <= 0 then Ready([]) else Collecting([], n, -1)
    {
      ghost var u := Unread();
      assert querybuf[qbPos] == STAR;
      var r := ReadHeader(STAR);
      if !r.Done? || r.value > 1024 * 1024 {
        return Wait;
      }
      qbPos := qbPos + r.size;
      assert Unread() == u[r.size..];
      if r.value <= 0 {
        mode := Ready([]);
        return Complete;
      }
      multiBulkLen := r.value;
      mode := Collecting([], r.value, -1);
      argv, argvSize, argvLenSum := [], multiBulkLen, 0;
      return Complete;
    }

    /** src/redis/client.c:260-315: the length line of an argument, with the trim that prepares a big one. */
    method ReadLengthLine() returns (v: Verdict)
      requires Wf() && mode.Collecting? && bulkLen == -1
      modifies this`querybuf, this`qbPos, this`bulkLen, this`mode
      ensures Wf()
      ensures v == if ReadBulkLen(cfg, old(Unread())).Done? then Complete else Wait
      ensures v == Wait ==> mode == old(mode) && Unread() == old(Unread())
      ensures v == Complete ==>
                var Done(n, k) := ReadBulkLen(cfg, old(Unread()));
                Unread() == old(Unread())[k..] && mode == old(mode).(bulk := n)
    {
      ghost var u := Unread();
      var r := ReadHeader(DOLLAR);
      if !r.Done? || r.value < 0 || r.value > cfg.maxBulk {
        return Wait;
      }
      var ll := r.value;
      qbPos := qbPos + r.size;
      assert Unread() == u[r.size..];
      if ll >= cfg.bigArg {
        if |querybuf| - qbPos <= ll + 2 {
          querybuf, qbPos := querybuf[qbPos..], 0;
        }
      }
      bulkLen := ll;
      mode := mode.(bulk := ll);
      return Complete;
    }

    /**
     src/redis/client.c:326-342: takes the bulk string out of the buffer. Handing over the whole buffer and installing
     an empty one gives the same argument and leaves the same unread bytes as copying and moving on.
     */
    method TakeBulk() returns (a: Bytes)
      requires qbPos <= |querybuf| && 0 <= bulkLen && bulkLen + 2 <= |Unread()|
      modifies this`querybuf, this`qbPos
      ensures a == old(Unread()[..bulkLen])
      ensures qbPos <= |querybuf| && Unread() == old(Unread()[bulkLen + 2..])
    {
      if qbPos == 0 && bulkLen >= cfg.bigArg && |querybuf| == bulkLen + 2 {
        a := querybuf[..|querybuf| - 2];
        querybuf := [];
      } else {
        a := querybuf[qbPos..qbPos + bulkLen];
        qbPos := qbPos + bulkLen + 2;
      }
    }

    /** src/redis/client.c:323-344: one argument is stored. */
    method TakeArgument()
      requires Wf() && mode.Collecting? && 0 <= bulkLen && bulkLen + 2 <= |Unread()|
      modifies this`querybuf, this`qbPos, this`argv, this`argvLenSum, this`bulkLen, this`multiBulkLen, this`mode
      ensures Wf()
      ensures Unread() == old(Unread()[bulkLen + 2..])
      ensures var args := old(mode).done + [old(Unread()[..bulkLen])];
              mode == if old(mode).left == 1 then Ready(args) else Collecting(args, old(mode).left - 1, -1)
      ensures old(argv) <= argv
    {
      var a := TakeBulk();
      assert |argv| < argvSize;
      LenSumPrefix(argv, a, |argv|);
      argv, argvLenSum := argv + [a], argvLenSum + bulkLen;
      bulkLen, multiBulkLen := -1, multiBulkLen - 1;
      mode := if multiBulkLen == 0 then Ready(argv) else Collecting(argv, multiBulkLen, -1);
    }

    /** Accounts for n bytes of u having been used up by a silent move. */
    ghost method Account(m0: Mode, u: Bytes, n: nat)
      requires qbPos <= |querybuf| && n <= |u| && Unread() == u[n..] && received == consumed + u
      requires Consumes(Resp(cfg), Idle, consumed, m0, executed) && Consumes(Resp(cfg), m0, u[..n], mode, [])
      modifies this`consumed
      ensures Sound() && Wf() == old(Wf())
    {
      Advance(Resp(cfg), consumed, m0, executed, u, n, mode);
      consumed := consumed + u[..n];
    }

    method CountStep() returns (v: Verdict)
      requires Wf() && Sound() && mode.Idle? && reqType == Multibulk
      modifies this`qbPos, this`multiBulkLen, this`argv, this`argvSize, this`argvLenSum, this`mode, this`consumed
      ensures Wf() && Sound()
      ensures v == Wait ==> mode == Idle && Blocked()
      ensures v == Complete ==> (mode.Ready? || mode.Collecting?) && |Unread()| < |old(Unread())|
      ensures v != AssertFailed
    {
      ghost var u := Unread();
      v := ReadCountLine();
      if v == Complete {
        CountLineMove(cfg, u);
        Account(Idle, u, ReadCount(u).size);
      }
    }

    method LengthStep() returns (v: Verdict)
      requires Wf() && Sound() && mode.Collecting? && bulkLen == -1
      modifies this`querybuf, this`qbPos, this`bulkLen, this`mode, this`consumed
      ensures Wf() && Sound() && mode.Collecting?
      ensures v == Wait ==> Blocked()
      ensures v == Complete ==> bulkLen >= 0 && |Unread()| < |old(Unread())|
      ensures v != AssertFailed
    {
      ghost var m, u := mode, Unread();
      v := ReadLengthLine();
      if v == Complete {
        LengthLineMove(cfg, m.done, m.left, u);
        Account(m, u, ReadBulkLen(cfg, u).size);
      }
    }

    method TakeAccounted()
      requires Wf() && Sound() && mode.Collecting? && 0 <= bulkLen && bulkLen + 2 <= |Unread()|
      modifies this`querybuf, this`qbPos, this`argv, this`argvLenSum, this`bulkLen, this`multiBulkLen, this`mode,
               this`consumed
      ensures Wf() && Sound() && (mode.Ready? || mode.Collecting?)
      ensures |Unread()| < |old(Unread())| && old(argv) <= argv
    {
      ghost var m, u, n := mode, Unread(), bulkLen;
      assert m == Collecting(m.done, m.left, n);
      TakeArgument();
      assert Consumes(Resp(cfg), m, u[..n + 2], mode, []) by { BodyMove(Resp(cfg), m.done, m.left, n, u); }
      Account(m, u, n + 2);
    }

    method BodyStep() returns (v: Verdict)
      requires Wf() && Sound() && mode.Collecting? && 0 <= bulkLen
      modifies this`querybuf, this`qbPos, this`argv, this`argvLenSum, this`bulkLen, this`multiBulkLen, this`mode,
               this`consumed
      ensures Wf() && Sound()
      ensures v == Wait ==> mode.Collecting? && Blocked()
      ensures v == Complete ==> (mode.Ready? || mode.Collecting?) && |Unread()| < |old(Unread())|
      ensures v != AssertFailed && old(argv) <= argv
    {
      if |querybuf| - qbPos < bulkLen + 2 {
        return Wait;
      }
      TakeAccounted();
      return Complete;
    }

    /**
     src/redis/client.c:208-353. Of its three assertions only the one on argc can fail, and it does exactly when a
     request with an unknown name was left behind.
     */
    method ProcessMultibulkBuffer() returns (v: Verdict)
      requires Wf() && Sound() && (mode.Idle? || mode.Collecting? || mode.Stuck?) && reqType == Multibulk
      modifies this`querybuf, this`qbPos, this`argv, this`argvSize, this`argvLenSum, this`bulkLen, this`multiBulkLen,
               this`mode, this`consumed
      ensures Wf() && Sound()
      ensures v == AssertFailed <==> old(mode).Stuck?
      ensures v == AssertFailed ==> mode == Stuck && Unread() == old(Unread())
      ensures v == Wait ==> (mode.Idle? || mode.Collecting?) && Blocked()
      ensures v == Complete ==> mode.Ready? && |Unread()| < |old(Unread())|
      ensures old(argv) <= argv
    {
      if multiBulkLen == 0 {
        if |argv| != 0 {
          return AssertFailed;
        }
        v := CountStep();
        if v == Wait || multiBulkLen == 0 {
          return;
        }
      }
      assert multiBulkLen > 0;
      while multiBulkLen > 0
        invariant Wf() && Sound()
        invariant mode.Collecting? || (mode.Ready? && |Unread()| < |old(Unread())|)
        invariant |Unread()| <= |old(Unread())| && old(argv) <= argv
        decreases |Unread()|
      {
        if bulkLen == -1 {
          v := LengthStep();
          if v == Wait {
            return;
          }
        }
        v := BodyStep();
        if v == Wait {
          return;
        }
      }
      return Complete;
    }

    /** src/redis/client.c:60-74 */
    method Reset()
      modifies this`argv, this`argvLenSum, this`reqType, this`multiBulkLen, this`bulkLen
      ensures argv == [] && argvLenSum == 0 && reqType == Unset && multiBulkLen == 0 && bulkLen == -1
    {
      argv, argvLenSum := [], 0;
      reqType, multiBulkLen, bulkLen := Unset, 0, -1;
    }

    /** src/redis/client.c:32-57, 101-109: an unknown name skips both the call and the reset. */
    method ProcessCommandAndReset()
      requires Wf() && mode.Ready? && argv != []
      modifies this`argv, this`argvLenSum, this`reqType, this`multiBulkLen, this`bulkLen, this`executed,
               this`closeAfterReply, this`mode
      ensures Wf() && mode == ModeAfter(Resp(cfg), old(argv))
      ensures executed == old(executed) + OutputOf(Resp(cfg), old(argv))
      ensures argv == if OutputOf(Resp(cfg), old(argv)) == [] then old(argv) else []
      ensures mode.Idle? ==> reqType == Unset
    {
      var kind := cfg.kind(argv[0]);
      mode := ModeAfter(Resp(cfg), argv);
      if kind.Unregistered? {
        return;
      }
      executed := executed + [argv];
      if kind.Quits? {
        closeAfterReply := true;
      }
      Reset();
    }

    /** src/redis/client.c:419-437: runs a complete request, or drops an empty one. */
    method DispatchStep()
      requires Wf() && Sound() && mode.Ready?
      modifies this`argv, this`argvLenSum, this`reqType, this`multiBulkLen, this`bulkLen, this`executed,
               this`closeAfterReply, this`mode
      ensures Wf() && Sound() && (mode.Idle? || mode.Stuck? || mode.Shut?)
      ensures mode.Idle? ==> reqType == Unset
      ensures Progress(old(executed), old(argv))
    {
      ghost var m := mode;
      if |argv| == 0 {
        Reset();
        mode := Idle;
      } else {
        ProcessCommandAndReset();
      }
      assert Consumes(Resp(cfg), Idle, consumed, mode, executed) by {
        DispatchMove(Resp(cfg), m.args);
        ConsumesThen(Resp(cfg), Idle, consumed, m, old(executed), [], mode, OutputOf(Resp(cfg), m.args));
        assert consumed + [] == consumed;
      }
    }

    /** src/redis/client.c:412-437: one request of the multibulk kind. */
    method MultibulkStep() returns (go: bool)
      requires Valid() && !halted && Unread() != [] && !closeAfterReply && reqType == Multibulk
      modifies this
      ensures Valid() && received == old(received) && Progress(old(executed), old(argv))
      ensures go ==> !halted && |Unread()| < |old(Unread())|
      ensures !go ==> Settled()
    {
      var v := ProcessMultibulkBuffer();
      if v == AssertFailed {
        halted := true;
        return false;
      }
      if v == Wait {
        return false;
      }
      DispatchStep();
      return true;
    }

    /** src/redis/client.c:385-437: one turn of the loop, which has bytes to look at. */
    method RequestStep() returns (go: bool)
      requires Valid() && !halted && Unread() != []
      modifies this
      ensures Valid() && received == old(received) && Progress(old(executed), old(argv))
      ensures go ==> !halted && |Unread()| < |old(Unread())|
      ensures !go ==> Settled()
    {
      if closeAfterReply {
        return false;
      }
      if reqType == Unset {
        reqType := if querybuf[qbPos] == STAR then Multibulk else Inline;
      }
      if reqType == Inline {
        halted := true;
        return false;
      }
      go := MultibulkStep();
    }

    /** src/redis/client.c:363-443: parses and executes whatever the buffer allows. */
    method ProcessInputBuffer() returns (code: int)
      requires Valid() && !halted
      modifies this
      ensures Valid() && received == old(received) && old(executed) <= executed
      ensures Serve(Resp(cfg), received).commands == executed
      ensures halted <==> Serve(Resp(cfg), received).end in {InlineRequest, AssertionFailure}
      ensures closeAfterReply <==> Serve(Resp(cfg), received).end == Closed
      ensures !halted ==> code == if qbPos == 0 then 0 else 1
    {
      var go := true;
      while qbPos < |querybuf| && go
        invariant Valid() && received == old(received) && old(executed) <= executed
        invariant if go then !halted else Settled()
        decreases go, |Unread()|
      {
        go := RequestStep();
      }
      if go {
        assert Unread() == [];
      }
      assert Settled();
      Conclude(Resp(cfg), consumed, mode, executed, Unread());
      code := if qbPos > 0 then 1 else 0;
    }
  }

  /** What the event loop does to a client: it reads a chunk, drops parsed bytes, or calls the handler. */
  datatype Event = Chunk(bytes: Bytes) | Drop(n: nat) | Handle

  function BytesOf(e: Event): Bytes {
    if e.Chunk? then e.bytes else []
  }

  /** The bytes of the first n events. */
  function Arrived(events: seq<Event>, n: nat): Bytes
    requires n <= |events|
  {
    if n == 0 then [] else Arrived(events, n - 1) + BytesOf(events[n - 1])
  }

  /** The bytes that had arrived when the handler was last called. */
  function Handled(events: seq<Event>, n: nat): Bytes
    requires n <= |events|
  {
    if n == 0 then []
    else if events[n - 1].Handle? then Arrived(events, n - 1)
    else Handled(events, n - 1)
  }

  lemma {:induction false} ArrivedPrefix(events: seq<Event>, e: Event, n: nat)
    requires n <= |events|
    ensures Arrived(events + [e], n) == Arrived(events, n) && Handled(events + [e], n) == Handled(events, n)
  {
    if n > 0 {
      ArrivedPrefix(events, e, n - 1);
    }
  }

  /**
   What one more event adds: a chunk its bytes, and nothing else any; and only a handler call takes in what has arrived.
   */
  lemma ArrivedThen(events: seq<Event>, e: Event)
    ensures var more, n := events + [e], |events|;
            && Arrived(more, n + 1) == Arrived(events, n) + (match e case Chunk(bytes) => bytes case _ => [])
            && Handled(more, n + 1) == (match e case Handle => Arrived(events, n) case _ => Handled(events, n))
  {
    ArrivedPrefix(events, e, |events|);
  }

  /** What has been handled has arrived. */
  lemma {:induction false} HandledArrived(events: seq<Event>, n: nat)
    requires n <= |events|
    ensures Handled(events, n) <= Arrived(events, n)
  {
    if n > 0 {
      HandledArrived(events, n - 1);
    }
  }

  /**
   The client c has been given the bytes `arrived`, of which those in `later` came after it had halted, and has been
   asked to handle `handled`.
   */
  ghost predicate InStep(c: Client, arrived: Bytes, handled: Bytes, later: Bytes)
    reads c
  {
    && c.Valid() && arrived == c.received + later
    && c.executed == Serve(Resp(c.cfg), handled).commands
    && (if !c.halted then later == []
        else var s := Serve(Resp(c.cfg), c.received); s.end != NeedMore && s.commands == c.executed)
  }

  method DeliverLive(c: Client, e: Event, ghost arrived: Bytes, ghost handled: Bytes)
    requires InStep(c, arrived, handled, []) && !c.halted
    modifies c
    ensures InStep(c, arrived + BytesOf(e), if e.Handle? then arrived else handled, [])
  {
    assert arrived == c.received;
    match e
    case Chunk(bytes) =>
      c.Append(bytes);
      assert arrived + bytes == c.received + [];
    case Drop(n) =>
      c.Trim(if n <= c.qbPos then n else c.qbPos);
    case Handle =>
      var _ := c.ProcessInputBuffer();
  }

  method Deliver(c: Client, e: Event, ghost arrived: Bytes, ghost handled: Bytes, ghost later: Bytes)
    returns (ghost later': Bytes)
    requires InStep(c, arrived, handled, later)
    modifies c
    ensures InStep(c, arrived + BytesOf(e), if e.Handle? then arrived else handled, later')
  {
    if c.halted {
      later' := later + BytesOf(e);
      assert arrived + BytesOf(e) == c.received + later';
      ServeExtends(Resp(c.cfg), c.received, later);
    } else {
      later' := [];
      DeliverLive(c, e, arrived, handled);
    }
  }

  /**
   Every run. However the stream is cut into chunks, however often the handler is called and whatever prefixes of
   parsed bytes are dropped in between, the commands executed are those the reference parser finds in the whole stream.
   */
  method Drive(cfg: Config, events: seq<Event>) returns (executed: seq<Command>)
    ensures executed == Serve(Resp(cfg), Handled(events, |events|)).commands
  {
    var c := new Client(cfg);
    ghost var arrived: Bytes, handled: Bytes, later: Bytes := [], [], [];
    for i := 0 to |events|
      invariant c.cfg == cfg && fresh(c)
      invariant arrived == Arrived(events, i) && handled == Handled(events, i)
      invariant InStep(c, arrived, handled, later)
    {
      later := Deliver(c, events[i], arrived, handled, later);
      handled := if events[i].Handle? then arrived else handled;
      arrived := arrived + BytesOf(events[i]);
    }
    return c.executed;
  }
}
