/** The list of reply blocks of a client, with placeholders for lengths that are known only later. */
module ReplyList {
  import opened Wire
  import opened ReplyDocument

  /** A list node and its block: `buf` is null while the node is a placeholder, and its length is the block's size. */
  class Node {
    const id: nat
    var buf: array?<Byte>
    var used: nat

    constructor (id: nat)
      ensures this.id == id && buf == null && used == 0
    {
      this.id, buf, used := id, null, 0;
    }

    ghost predicate Wf()
      reads this
    {
      buf != null ==> used <= buf.Length
    }

    ghost function Content(): Piece
      reads this, buf
      requires Wf()
    {
      if buf == null then Hole(id) else Text(buf[..used])
    }

    /** memcpy of s behind the used bytes. */
    method Put(s: Bytes)
      requires buf != null && used + |s| <= buf.Length
      modifies this`used, buf
      ensures used == old(used) + |s| && Wf() && Content() == Text(old(buf[..used]) + s)
    {
      forall k | 0 <= k < |s| {
        buf[used + k] := s[k];
      }
      used := used + |s|;
      assert buf[..used] == old(buf[..used]) + s;
    }

    /** memmove of the used bytes up, and memcpy of s to the front. */
    method PutFront(s: Bytes)
      requires buf != null && used + |s| <= buf.Length
      modifies this`used, buf
      ensures used == old(used) + |s| && Wf() && Content() == Text(s + old(buf[..used]))
    {
      forall k | 0 <= k < used {
        buf[|s| + k] := buf[k];
      }
      forall k | 0 <= k < |s| {
        buf[k] := s[k];
      }
      used := used + |s|;
      assert buf[..used] == s + old(buf[..used]);
    }

    /** A new block of |s| + slack bytes that holds s; the allocator decides the slack. */
    method Fill(s: Bytes, slack: nat)
      modifies this`buf, this`used
      ensures fresh(buf) && buf != null && buf.Length == |s| + slack && Wf() && Content() == Text(s)
    {
      var b := new Byte[|s| + slack](_ => 0);
      forall k | 0 <= k < |s| {
        b[k] := s[k];
      }
      buf, used := b, |s|;
      assert buf[..used] == s;
    }
  }

  ghost function Total(caps: seq<nat>): nat {
    if caps == [] then 0 else Total(caps[..|caps| - 1]) + caps[|caps| - 1]
  }

  lemma {:induction false} TotalConcat(a: seq<nat>, b: seq<nat>)
    ensures Total(a + b) == Total(a) + Total(b)
  {
    if b == [] {
      assert a + b == a;
    } else {
      assert (a + b)[..|a + b| - 1] == a + b[..|b| - 1];
      TotalConcat(a, b[..|b| - 1]);
    }
  }

  lemma TotalAt(caps: seq<nat>, i: nat, c: nat)
    requires i < |caps|
    ensures Total(caps) == Total(Without(caps, i)) + caps[i]
    ensures Total(caps[i := c]) == Total(caps) - caps[i] + c
  {
    var x, y := caps[..i], caps[i + 1..];
    assert caps == x + [caps[i]] + y;
    assert caps[i := c] == x + [c] + y;
    TotalConcat(x + [caps[i]], y);
    TotalConcat(x, [caps[i]]);
    TotalConcat(x + [c], y);
    TotalConcat(x, [c]);
    TotalConcat(x, y);
  }

  /** Node n stands for the piece p, and its block has size cap. */
  ghost predicate NodeIs(n: Node, p: Piece, cap: nat, bound: nat)
    reads n, n.buf
  {
    && n.Wf() && p == n.Content() && (p.Hole? ==> p.id < bound)
    && cap == (if n.buf == null then 0 else n.buf.Length)
  }

  class Replies {
    /** PROTO_REPLY_CHUNK_BYTES */
    const chunk: nat
    var nodes: seq<Node>
    var replyBytes: int
    var nextId: nat

    ghost var Repr: set<object>
    ghost var doc: seq<Piece>
    ghost var caps: seq<nat>
    /** The part of reply_bytes that is not the size of a block in the list. */
    ghost var other: int

    ghost predicate Valid()
      reads this, Repr
    {
      && this in Repr && |nodes| == |doc| == |caps|
      && (forall i :: 0 <= i < |nodes| ==> nodes[i] in Repr && (nodes[i].buf != null ==> nodes[i].buf in Repr))
      && (forall i :: 0 <= i < |nodes| ==> NodeIs(nodes[i], doc[i], caps[i], nextId))
      && (forall i, j :: 0 <= i < j < |nodes| ==> nodes[i] != nodes[j])
      && (forall i, j :: 0 <= i < j < |nodes| && nodes[i].buf != null ==> nodes[i].buf != nodes[j].buf)
      && Unique(doc)
    }

    /** reply_bytes counts the sizes of the blocks in the list, and something that no step here changes. */
    ghost predicate Counted()
      reads this
    {
      replyBytes == Total(caps) + other
    }

    constructor (chunk: nat)
      ensures Valid() && Counted() && fresh(Repr) && doc == [] && nextId == 0 && this.chunk == chunk
    {
      this.chunk := chunk;
      nodes, replyBytes, nextId := [], 0, 0;
      Repr, doc, caps, other := {this}, [], [], 0;
    }

    /** list_del_node on a placeholder. */
    method Remove(i: nat)
      requires Valid() && i < |nodes| && doc[i].Hole?
      modifies this`nodes, this`doc, this`caps
      ensures Valid() && Total(caps) == old(Total(caps)) && doc == Without(old(doc), i)
    {
      assert NodeIs(nodes[i], doc[i], caps[i], nextId);
      assert Total(Without(caps, i)) == Total(caps) by { TotalAt(caps, i, 0); }
      var others := Without(nodes, i);
      ghost var d, c := Without(doc, i), Without(caps, i);
      forall j | 0 <= j < |others| ensures NodeIs(others[j], d[j], c[j], nextId) {
        var k := if j < i then j else j + 1;
        assert NodeIs(nodes[k], doc[k], caps[k], nextId);
      }
      WithoutUnique(doc, i);
      nodes, doc, caps := others, d, c;
    }

    /** src/redis/client_reply.c:275-276: copies s behind the bytes of block i. */
    method PutAt(i: nat, s: Bytes)
      requires Valid() && i < |nodes| && doc[i].Text? && |doc[i].bytes| + |s| <= caps[i]
      modifies Repr
      ensures Valid() && unchanged(this`Repr, this`nodes, this`other, this`nextId, this`caps, this`replyBytes)
      ensures doc == old(doc)[i := Text(old(doc)[i].bytes + s)]
    {
      assert NodeIs(nodes[i], doc[i], caps[i], nextId);
      nodes[i].Put(s);
      doc := doc[i := Text(doc[i].bytes + s)];
      forall j | 0 <= j < |nodes| ensures NodeIs(nodes[j], doc[j], caps[j], nextId) {
        assert old(NodeIs(nodes[j], doc[j], caps[j], nextId));
      }
    }

    /** src/redis/client_reply.c:289-291: moves the bytes of block i up and copies s in front of them. */
    method PutFrontAt(i: nat, s: Bytes)
      requires Valid() && i < |nodes| && doc[i].Text? && |doc[i].bytes| + |s| <= caps[i]
      modifies Repr
      ensures Valid() && unchanged(this`Repr, this`nodes, this`other, this`nextId, this`caps, this`replyBytes)
      ensures doc == old(doc)[i := Text(s + old(doc)[i].bytes)]
    {
      assert NodeIs(nodes[i], doc[i], caps[i], nextId);
      nodes[i].PutFront(s);
      doc := doc[i := Text(s + doc[i].bytes)];
      forall j | 0 <= j < |nodes| ensures NodeIs(nodes[j], doc[j], caps[j], nextId) {
        assert old(NodeIs(nodes[j], doc[j], caps[j], nextId));
      }
    }

    method SetBlock(i: nat, s: Bytes, slack: nat)
      requires Valid() && i < |nodes|
      modifies Repr
      ensures Valid() && fresh(Repr - old(Repr))
      ensures unchanged(this`nodes, this`other, this`nextId, this`replyBytes)
      ensures doc == old(doc)[i := Text(s)] && caps == old(caps)[i := |s| + slack]
    {
      nodes[i].Fill(s, slack);
      doc, caps := doc[i := Text(s)], caps[i := |s| + slack];
      Repr := Repr + {nodes[i].buf};
      forall j | 0 <= j < |nodes| ensures NodeIs(nodes[j], doc[j], caps[j], nextId) {
        assert old(NodeIs(nodes[j], doc[j], caps[j], nextId));
      }
    }

    /** Gives node i a new block that holds s, and accounts for the change of size. */
    method FillAt(i: nat, s: Bytes, slack: nat)
      requires Valid() && Counted() && i < |nodes|
      modifies Repr
      ensures Valid() && Counted() && fresh(Repr - old(Repr)) && unchanged(this`nodes, this`other, this`nextId)
      ensures doc == old(doc)[i := Text(s)] && caps == old(caps)[i := |s| + slack]
    {
      assert NodeIs(nodes[i], doc[i], caps[i], nextId);
      var size := if nodes[i].buf == null then 0 else nodes[i].buf.Length;
      assert size == caps[i];
      SetBlock(i, s, slack);
      assert Total(caps) == old(Total(caps)) - size + (|s| + slack) by { TotalAt(old(caps), i, |s| + slack); }
      replyBytes := replyBytes + |s| + slack - size;
    }

    /** list_add_node_tail with a node that is not in any list. */
    method Link(n: Node, ghost p: Piece, ghost cap: nat)
      requires Valid() && n !in Repr && (n.buf != null ==> n.buf !in Repr)
      requires NodeIs(n, p, cap, nextId) && (p.Hole? ==> p !in doc)
      modifies this`nodes, this`doc, this`caps, this`Repr
      ensures Valid() && Repr == old(Repr) + {n} + (if n.buf == null then {} else {n.buf})
      ensures nodes == old(nodes) + [n] && doc == old(doc) + [p] && caps == old(caps) + [cap]
    {
      nodes, doc, caps := nodes + [n], doc + [p], caps + [cap];
      Repr := Repr + {n} + (if n.buf == null then {} else {n.buf});
      assert forall j :: 0 <= j < |nodes| - 1 ==> NodeIs(nodes[j], doc[j], caps[j], nextId);
    }

    /** The tail is a block of which more than a quarter is unused, and which holds less than a chunk. */
    ghost predicate Roomy()
      reads this, Repr
      requires Valid()
    {
      && |doc| > 0 && doc[|doc| - 1].Text?
      && var used, size := |doc[|doc| - 1].bytes|, caps[|doc| - 1]; size - used > size / 4 && used < chunk
    }

    /** src/redis/client_reply.c:204-220: a new, smaller block for the tail, when much of it is unused. */
    method TrimTail(slack: nat)
      requires Valid() && Counted()
      modifies Repr
      ensures Valid() && Counted() && fresh(Repr - old(Repr))
      ensures unchanged(this`nodes, this`doc, this`other, this`nextId)
      ensures caps == if old(Roomy()) then old(caps)[|caps| - 1 := |doc[|caps| - 1].bytes| + slack] else old(caps)
    {
      if |nodes| == 0 {
        return;
      }
      var tail := nodes[|nodes| - 1];
      assert NodeIs(tail, doc[|nodes| - 1], caps[|nodes| - 1], nextId);
      if tail.buf == null {
        return;
      }
      if tail.buf.Length - tail.used > tail.buf.Length / 4 && tail.used < chunk {
        FillAt(|nodes| - 1, tail.buf[..tail.used], slack);
        assert doc == old(doc);
      }
    }

    /** A number that no placeholder has had. */
    method NewId() returns (id: nat)
      requires Valid()
      modifies this`nextId
      ensures Valid() && id == old(nextId) && nextId == id + 1 && Hole(id) !in doc
    {
      id := nextId;
      forall j | 0 <= j < |nodes| ensures NodeIs(nodes[j], doc[j], caps[j], id + 1) && doc[j] != Hole(id) {
        assert NodeIs(nodes[j], doc[j], caps[j], id);
      }
      nextId := nextId + 1;
    }

    method AddHole() returns (id: nat)
      requires Valid() && Counted()
      modifies this`nodes, this`doc, this`caps, this`Repr, this`nextId
      ensures Valid() && Counted() && fresh(Repr - old(Repr))
      ensures id == old(nextId) && nextId == id + 1 && Hole(id) !in old(doc) && doc == old(doc) + [Hole(id)]
    {
      assert Total(caps + [0]) == Total(caps) by { TotalConcat(caps, [0]); }
      id := NewId();
      var n := new Node(id);
      Link(n, Hole(id), 0);
    }

    /** src/redis/client_reply.c:222-228: a placeholder at the end; the result stands for its node. */
    method AddReplyDeferredLen(slack: nat) returns (id: nat)
      requires Valid() && Counted()
      modifies Repr
      ensures Valid() && Counted() && fresh(Repr - old(Repr)) && other == old(other)
      ensures id == old(nextId) && nextId == id + 1 && Hole(id) !in old(doc) && doc == old(doc) + [Hole(id)]
    {
      TrimTail(slack);
      id := AddHole();
    }

    method AddBlock(s: Bytes, slack: nat)
      requires Valid()
      modifies this`nodes, this`doc, this`caps, this`Repr
      ensures Valid() && fresh(Repr - old(Repr)) && doc == old(doc) + [Text(s)]
    {
      var n := new Node(0);
      n.Fill(s, slack);
      Link(n, Text(s), |s| + slack);
    }

    /** Copies as much of s as fits behind the bytes of block i, and returns what does not. */
    method PutSome(i: nat, s: Bytes) returns (n: nat)
      requires Valid() && i < |nodes| && doc[i].Text?
      modifies Repr
      ensures Valid() && unchanged(this`Repr, this`nodes, this`other, this`nextId, this`caps, this`replyBytes)
      ensures n <= |s| && doc == old(doc)[i := Text(old(doc)[i].bytes + s[..n])]
    {
      assert NodeIs(nodes[i], doc[i], caps[i], nextId);
      var room := nodes[i].buf.Length - nodes[i].used;
      n := if room < |s| then room else |s|;
      PutAt(i, s[..n]);
    }

    method AppendBytes(s: Bytes, slack: nat)
      requires Valid()
      modifies Repr
      ensures Valid() && fresh(Repr - old(Repr)) && nextId == old(nextId) && Appended(old(doc), s, doc)
    {
      if |nodes| > 0 && nodes[|nodes| - 1].buf != null {
        assert NodeIs(nodes[|nodes| - 1], doc[|nodes| - 1], caps[|nodes| - 1], nextId);
        var n := PutSome(|nodes| - 1, s);
        AddBlock(s[n..], slack);
        AppendedSplit(old(doc), s, n);
      } else {
        AddBlock(s, slack);
        AppendedBlock(old(doc), s);
      }
    }

    /**
     add_reply_proto, as the event loop library is taken to provide it: bytes go behind everything in the list, first
     into the free space of the last block and then into a new one. What it does to reply_bytes is left open.
     */
    method AddReplyProto(s: Bytes, slack: nat)
      requires Valid()
      modifies Repr
      ensures Valid() && Counted() && fresh(Repr - old(Repr)) && nextId == old(nextId) && Appended(old(doc), s, doc)
    {
      AppendBytes(s, slack);
      other := replyBytes - Total(caps);
    }

    /** src/redis/client_reply.c:285-305: the placeholder at i is glued to the block after it, or gets a block. */
    method FillHole(i: nat, s: Bytes, slack: nat)
      requires Valid() && Counted() && i < |nodes| && doc[i].Hole?
      modifies Repr
      ensures Valid() && Counted() && fresh(Repr - old(Repr)) && unchanged(this`other, this`nextId)
      ensures Filled(old(doc), old(doc)[i].id, s, doc)
      ensures forall h: nat {:trigger Hole(h)} :: Hole(h) in doc <==> Hole(h) in old(doc) && Hole(h) != old(doc)[i]
    {
      ghost var d := doc;
      if i + 1 < |nodes| && nodes[i + 1].buf != null {
        assert NodeIs(nodes[i + 1], doc[i + 1], caps[i + 1], nextId);
        if nodes[i + 1].buf.Length - nodes[i + 1].used >= |s| && nodes[i + 1].used < chunk * 4 {
          PutFrontAt(i + 1, s);
          Remove(i);
          GlueNext(d, i, s);
          GluedHoles(d, i, s);
          return;
        }
      }
      FillAt(i, s, slack);
      NewText(d, i, s);
      FilledHoles(d, i, s);
    }

    /** src/redis/client_reply.c:269-283: what fits goes behind the block before the placeholder at i. */
    method FillAfterBlock(i: nat, s: Bytes, slack: nat)
      requires Valid() && Counted() && 0 < i < |nodes| && doc[i].Hole? && doc[i - 1].Text?
      modifies Repr
      ensures Valid() && Counted() && fresh(Repr - old(Repr)) && unchanged(this`other, this`nextId)
      ensures Filled(old(doc), old(doc)[i].id, s, doc)
      ensures forall h: nat {:trigger Hole(h)} :: Hole(h) in doc <==> Hole(h) in old(doc) && Hole(h) != old(doc)[i]
    {
      ghost var d := doc;
      var n := PutSome(i - 1, s);
      ghost var d1 := doc;
      assert d1 == d[i - 1 := Text(d[i - 1].bytes + s[..n])];
      PutHoles(d, i - 1, s[..n]);
      assert s == s[..n] + s[n..];
      if |s| == n {
        assert s[n..] == [];
        Remove(i);
        DropHole(d1, i);
        DroppedHoles(d1, i);
      } else {
        FillHole(i, s[n..], slack);
      }
      GluePrev(d, i, s[..n], s[n..], doc);
    }

    /** src/redis/client_reply.c:249-305: fills a placeholder, whose node is named by id (NULL is None). */
    method SetDeferredReply(node: Option<nat>, s: Bytes, slack: nat)
      requires Valid() && Counted() && (node.Some? ==> Hole(node.value) in doc)
      modifies Repr
      ensures Valid() && Counted() && fresh(Repr - old(Repr)) && unchanged(this`other, this`nextId)
      ensures node.None? ==> doc == old(doc)
      ensures node.Some? ==> Filled(old(doc), node.value, s, doc)
      ensures forall h: nat {:trigger Hole(h)} :: Hole(h) in doc <==> Hole(h) in old(doc) && node != Some(h)
    {
      if node.None? {
        return;
      }
      var i := FindHole(node.value);
      if i > 0 && nodes[i - 1].buf != null && nodes[i - 1].buf.Length - nodes[i - 1].used > 0 {
        assert NodeIs(nodes[i - 1], doc[i - 1], caps[i - 1], nextId);
        FillAfterBlock(i, s, slack);
      } else {
        FillHole(i, s, slack);
      }
    }

    method FindHole(id: nat) returns (i: nat)
      requires Valid() && Hole(id) in doc
      ensures i < |doc| && doc[i] == Hole(id)
    {
      i := 0;
      while nodes[i].buf != null || nodes[i].id != id
        invariant i < |nodes| && Hole(id) in doc[i..]
        decreases |nodes| - i
      {
        assert NodeIs(nodes[i], doc[i], caps[i], nextId);
        assert doc[i..] == [doc[i]] + doc[i + 1..];
        i := i + 1;
      }
      assert NodeIs(nodes[i], doc[i], caps[i], nextId);
    }

    /** What is sent: the blocks in order; a placeholder that was never filled contributes nothing. */
    method Output() returns (r: Bytes)
      requires Valid()
      ensures r == Render(doc, map[])
    {
      r := [];
      for i := 0 to |nodes|
        invariant r == Render(doc[..i], map[])
      {
        assert NodeIs(nodes[i], doc[i], caps[i], nextId);
        assert doc[..i + 1][..i] == doc[..i];
        if nodes[i].buf != null {
          r := r + nodes[i].buf[..nodes[i].used];
        }
      }
      assert doc[..|nodes|] == doc;
    }
  }

  /** What a command does to its reply: write bytes, leave a placeholder, or fill the k-th placeholder. */
  datatype Op = Write(bytes: Bytes) | Defer | Fill(k: nat, bytes: Bytes)

  function Defers(ops: seq<Op>, n: nat): nat
    requires n <= |ops|
  {
    if n == 0 then 0 else Defers(ops, n - 1) + if ops[n - 1].Defer? then 1 else 0
  }

  /** The reply as written, with its placeholders still in it. */
  function Template(ops: seq<Op>, n: nat): seq<Piece>
    requires n <= |ops|
  {
    if n == 0 then []
    else match ops[n - 1]
      case Write(b) => Template(ops, n - 1) + [Text(b)]
      case Defer => Template(ops, n - 1) + [Hole(Defers(ops, n - 1))]
      case Fill(_, _) => Template(ops, n - 1)
  }

  /** What the placeholders have been filled with. */
  function FillMap(ops: seq<Op>, n: nat): Fills
    requires n <= |ops|
  {
    if n == 0 then map[]
    else
      var m := FillMap(ops, n - 1);
      if ops[n - 1].Fill? then m[ops[n - 1].k := ops[n - 1].bytes] else m
  }

  /** Placeholders are filled after they were left, and once. */
  ghost predicate Legal(ops: seq<Op>) {
    forall i :: 0 <= i < |ops| && ops[i].Fill? ==> ops[i].k < Defers(ops, i) && ops[i].k !in FillMap(ops, i)
  }

  /** The list stands for the template with the placeholders filled so far. */
  ghost predicate StandsFor(d: seq<Piece>, t: seq<Piece>, m: Fills) {
    forall f: Fills {:trigger Render(d, f)} :: Render(d, f) == Render(t, f + m)
  }

  lemma StandsAfterWrite(d: seq<Piece>, t: seq<Piece>, m: Fills, s: Bytes, d': seq<Piece>)
    requires StandsFor(d, t, m) && Appended(d, s, d')
    ensures StandsFor(d', t + [Text(s)], m)
  {
    forall f: Fills ensures Render(d', f) == Render(t + [Text(s)], f + m) {
      AppendText(t, s, f + m);
      assert Render(d', f) == Render(d, f) + s;
    }
  }

  lemma StandsAfterDefer(d: seq<Piece>, t: seq<Piece>, m: Fills, h: nat)
    requires StandsFor(d, t, m) && h !in m
    ensures StandsFor(d + [Hole(h)], t + [Hole(h)], m)
  {
    forall f: Fills ensures Render(d + [Hole(h)], f) == Render(t + [Hole(h)], f + m) {
      RenderConcat(d, [Hole(h)], f);
      RenderConcat(t, [Hole(h)], f + m);
      RenderOne(Hole(h), f);
      RenderOne(Hole(h), f + m);
      assert Render(d, f) == Render(t, f + m);
    }
  }

  lemma FillsMerge(f: Fills, m: Fills, h: nat, s: Bytes)
    requires h !in m
    ensures f[h := s] + m == f + m[h := s]
  {
  }

  lemma StandsAfterFill(d: seq<Piece>, t: seq<Piece>, m: Fills, h: nat, s: Bytes, d': seq<Piece>)
    requires StandsFor(d, t, m) && h !in m && Filled(d, h, s, d')
    ensures StandsFor(d', t, m[h := s])
  {
    forall f: Fills ensures Render(d', f) == Render(t, f + m[h := s]) {
      var g := f[h := s];
      FillsMerge(f, m, h, s);
      assert Render(d', f) == Render(d, g);
      assert Render(d, g) == Render(t, g + m);
    }
  }

  /** Exactly the placeholders left and not yet filled are in the list. */
  ghost predicate Outstanding(d: seq<Piece>, left: nat, m: Fills) {
    && (forall h: nat {:trigger Hole(h)} :: Hole(h) in d <==> h < left && h !in m)
    && (forall h :: h in m ==> h < left)
  }

  method Perform(r: Replies, op: Op, slack: nat, ghost t: seq<Piece>, ghost m: Fills)
    requires r.Valid() && r.Counted() && StandsFor(r.doc, t, m) && Outstanding(r.doc, r.nextId, m)
    requires op.Fill? ==> op.k < r.nextId && op.k !in m
    modifies r.Repr
    ensures r.Valid() && r.Counted() && fresh(r.Repr - old(r.Repr))
    ensures r.nextId == old(r.nextId) + if op.Defer? then 1 else 0
    ensures var m' := if op.Fill? then m[op.k := op.bytes] else m;
            var t' := match op { case Write(b) => t + [Text(b)] case Defer => t + [Hole(old(r.nextId))] case _ => t };
            StandsFor(r.doc, t', m') && Outstanding(r.doc, r.nextId, m')
  {
    ghost var d := r.doc;
    match op
    case Write(b) =>
      r.AddReplyProto(b, slack);
      StandsAfterWrite(d, t, m, b, r.doc);
    case Defer =>
      var id := r.AddReplyDeferredLen(slack);
      StandsAfterDefer(d, t, m, id);
    case Fill(k, b) =>
      r.SetDeferredReply(Some(k), b, slack);
      StandsAfterFill(d, t, m, k, b, r.doc);
  }

  lemma StandsAtFirst(ops: seq<Op>)
    ensures StandsFor([], Template(ops, 0), FillMap(ops, 0)) && Outstanding([], Defers(ops, 0), FillMap(ops, 0))
  {
  }

  lemma StandsAtLast(d: seq<Piece>, t: seq<Piece>, m: Fills)
    requires StandsFor(d, t, m)
    ensures Render(d, map[]) == Render(t, m)
  {
    assert map[] + m == m;
  }

  /** The list stands for the first i operations. */
  ghost predicate Reached(r: Replies, ops: seq<Op>, i: nat)
    reads r, r.Repr
    requires i <= |ops|
  {
    && r.Valid() && r.Counted() && r.nextId == Defers(ops, i)
    && StandsFor(r.doc, Template(ops, i), FillMap(ops, i))
    && Outstanding(r.doc, Defers(ops, i), FillMap(ops, i))
  }

  method PerformNext(r: Replies, ops: seq<Op>, i: nat, slack: nat)
    requires Legal(ops) && i < |ops| && Reached(r, ops, i)
    modifies r.Repr
    ensures Reached(r, ops, i + 1) && fresh(r.Repr - old(r.Repr))
  {
    Perform(r, ops[i], slack, Template(ops, i), FillMap(ops, i));
  }

  /** What placeholder k is filled with among the first n operations. */
  function FillOf(ops: seq<Op>, n: nat, k: nat): Bytes
    requires n <= |ops|
  {
    if n == 0 then []
    else if ops[n - 1].Fill? && ops[n - 1].k == k then ops[n - 1].bytes
    else FillOf(ops, n - 1, k)
  }

  /** What the first n operations send: written bytes, and at each placeholder what any operation fills it with. */
  function Sent(ops: seq<Op>, n: nat): Bytes
    requires n <= |ops|
  {
    if n == 0 then []
    else match ops[n - 1]
      case Write(b) => Sent(ops, n - 1) + b
      case Defer => Sent(ops, n - 1) + FillOf(ops, |ops|, Defers(ops, n - 1))
      case Fill(_, _) => Sent(ops, n - 1)
  }

  lemma {:induction false} FillMapOf(ops: seq<Op>, n: nat, k: nat)
    requires n <= |ops|
    ensures PieceBytes(Hole(k), FillMap(ops, n)) == FillOf(ops, n, k)
  {
    if n > 0 {
      FillMapOf(ops, n - 1, k);
    }
  }

  /** The template with its placeholders filled is what the operations send. */
  lemma {:induction false} TemplateIsSent(ops: seq<Op>, n: nat)
    requires n <= |ops|
    ensures Render(Template(ops, n), FillMap(ops, |ops|)) == Sent(ops, n)
  {
    if n > 0 {
      var t, f := Template(ops, n - 1), FillMap(ops, |ops|);
      TemplateIsSent(ops, n - 1);
      match ops[n - 1]
      case Write(b) => AppendText(t, b, f);
      case Defer =>
        var h := Hole(Defers(ops, n - 1));
        RenderConcat(t, [h], f);
        RenderOne(h, f);
        FillMapOf(ops, |ops|, Defers(ops, n - 1));
      case Fill(_, _) =>
    }
  }

  method PerformAll(r: Replies, ops: seq<Op>, slacks: seq<nat>)
    requires Legal(ops) && |slacks| == |ops| && Reached(r, ops, 0)
    modifies r.Repr
    ensures Reached(r, ops, |ops|)
  {
    for i := 0 to |ops|
      invariant fresh(r.Repr - old(r.Repr)) && Reached(r, ops, i)
    {
      PerformNext(r, ops, i, slacks[i]);
    }
  }

  /**
   Every run: whatever blocks were split, glued, trimmed or added, and in whatever order the placeholders were filled,
   the bytes sent are those written, with each placeholder replaced by what it was filled with.
   */
  method Reply(chunk: nat, ops: seq<Op>, slacks: seq<nat>) returns (sent: Bytes)
    requires Legal(ops) && |slacks| == |ops|
    ensures sent == Sent(ops, |ops|) == Render(Template(ops, |ops|), FillMap(ops, |ops|))
  {
    StandsAtFirst(ops);
    var r := new Replies(chunk);
    PerformAll(r, ops, slacks);
    TemplateIsSent(ops, |ops|);
    StandsAtLast(r.doc, Template(ops, |ops|), FillMap(ops, |ops|));
    sent := r.Output();
  }
}
