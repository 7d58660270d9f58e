/** Help replies, whose length is announced before the lines are counted; and the order of filling placeholders. */
module ReplyHelp {
  import opened Wire
  import opened ReplyDocument
  import opened ReplyList

  // ---------------------------------------------------------------- the order of filling does not matter

  /** The operations other than fills, among the first n. */
  function Outline(ops: seq<Op>, n: nat): seq<Op>
    requires n <= |ops|
  {
    if n == 0 then []
    else if ops[n - 1].Fill? then Outline(ops, n - 1)
    else Outline(ops, n - 1) + [ops[n - 1]]
  }

  lemma {:induction false} TemplatePrefix(ops: seq<Op>, op: Op, n: nat)
    requires n <= |ops|
    ensures Defers(ops + [op], n) == Defers(ops, n) && Template(ops + [op], n) == Template(ops, n)
  {
    if n > 0 {
      TemplatePrefix(ops, op, n - 1);
    }
  }

  lemma {:induction false} TemplateOfOutline(ops: seq<Op>, n: nat)
    requires n <= |ops|
    ensures var o := Outline(ops, n); Defers(ops, n) == Defers(o, |o|) && Template(ops, n) == Template(o, |o|)
  {
    if n > 0 {
      TemplateOfOutline(ops, n - 1);
      if !ops[n - 1].Fill? {
        var o := Outline(ops, n - 1);
        TemplatePrefix(o, ops[n - 1], |o|);
      }
    }
  }

  lemma {:induction false} FillMapIs(ops: seq<Op>, n: nat, k: nat, s: Bytes)
    requires Legal(ops) && n <= |ops|
    ensures k in FillMap(ops, n) && FillMap(ops, n)[k] == s <==> Fill(k, s) in ops[..n]
  {
    if n > 0 {
      FillMapIs(ops, n - 1, k, s);
      assert ops[..n] == ops[..n - 1] + [ops[n - 1]];
      if ops[n - 1].Fill? && ops[n - 1].k == k {
        assert k !in FillMap(ops, n - 1);
      }
    }
  }

  lemma SameFills(a: seq<Op>, b: seq<Op>, k: nat)
    requires Legal(a) && Legal(b)
    requires forall op: Op :: op.Fill? ==> (op in a <==> op in b)
    ensures k in FillMap(a, |a|) ==> k in FillMap(b, |b|) && FillMap(b, |b|)[k] == FillMap(a, |a|)[k]
  {
    if k in FillMap(a, |a|) {
      var s := FillMap(a, |a|)[k];
      FillMapIs(a, |a|, k, s);
      FillMapIs(b, |b|, k, s);
      assert a[..|a|] == a && b[..|b|] == b;
      assert Fill(k, s) in a;
    }
  }

  /** Two runs that write alike and fill alike, in whatever order and at whatever moments, send the same bytes. */
  lemma FillOrder(a: seq<Op>, b: seq<Op>)
    requires Legal(a) && Legal(b) && Outline(a, |a|) == Outline(b, |b|)
    requires forall op: Op :: op.Fill? ==> (op in a <==> op in b)
    ensures Render(Template(a, |a|), FillMap(a, |a|)) == Render(Template(b, |b|), FillMap(b, |b|))
  {
    TemplateOfOutline(a, |a|);
    TemplateOfOutline(b, |b|);
    forall k ensures k in FillMap(a, |a|) <==> k in FillMap(b, |b|)
      ensures k in FillMap(a, |a|) ==> FillMap(b, |b|)[k] == FillMap(a, |a|)[k]
    {
      if k in FillMap(a, |a|) || k in FillMap(b, |b|) {
        SameFills(a, b, k);
        SameFills(b, a, k);
      }
    }
    assert FillMap(a, |a|) == FillMap(b, |b|);
  }

  // ---------------------------------------------------------------- help

  const PLUS: Byte := 43

  /** What the allocator adds to the n-th block that is asked for. */
  type Slacks = nat -> nat

  /** " <subcommand> [<arg> [value] [opt] ...]. Subcommands are:" */
  const AFTER_NAME: Bytes := [
    32, 60, 115, 117, 98, 99, 111, 109, 109, 97, 110, 100, 62, 32, 91, 60, 97, 114, 103, 62, 32, 91, 118, 97, 108,
    117, 101, 93, 32, 91, 111, 112, 116, 93, 32, 46, 46, 46, 93, 46, 32, 83, 117, 98, 99, 111, 109, 109, 97, 110,
    100, 115, 32, 97, 114, 101, 58
  ]

  /** "HELP" and "   Prints this help." */
  const HELP_NAME: Bytes := [72, 69, 76, 80]
  const HELP_TEXT: Bytes := [
    32, 32, 32, 80, 114, 105, 110, 116, 115, 32, 116, 104, 105, 115, 32, 104, 101, 108, 112, 46
  ]

  /** sds_to_upper: the letters a to z become A to Z, and every other byte stays. */
  function Upper(s: Bytes): (r: Bytes)
    ensures |r| == |s|
    ensures forall i :: 0 <= i < |s| ==> (97 <= s[i] <= 122 ==> r[i] == s[i] - 32)
    ensures forall i :: 0 <= i < |s| ==> (s[i] < 97 || s[i] > 122 ==> r[i] == s[i])
  {
    seq(|s|, i requires 0 <= i < |s| => if 97 <= s[i] <= 122 then s[i] - 32 else s[i])
  }

  function StatusLine(s: Bytes): Bytes {
    [43] + s + [13, 10]
  }

  function StatusLines(lines: seq<Bytes>): Bytes {
    if lines == [] then [] else StatusLines(lines[..|lines| - 1]) + StatusLine(lines[|lines| - 1])
  }

  /** An array of status replies: the number of lines, and the lines. */
  function StatusArray(lines: seq<Bytes>): Bytes {
    [42] + Decimal(|lines|) + [13, 10] + StatusLines(lines)
  }

  function Heading(cmd: Bytes): Bytes {
    Upper(CString(cmd)) + AFTER_NAME
  }

  /** All lines of the help that a command prints. */
  function HelpLines(cmd: Bytes, help: seq<Bytes>): seq<Bytes> {
    [Heading(cmd)] + help + [HELP_NAME, HELP_TEXT]
  }

  lemma RenderLastFilled(d: seq<Piece>, id: nat, s: Bytes, f: Fills)
    requires !Mentions(d, id)
    ensures Render(d + [Hole(id)], f[id := s]) == Render(d, f) + s
  {
    RenderFrame(d, f, id, s);
    RenderConcat(d, [Hole(id)], f[id := s]);
    RenderOne(Hole(id), f[id := s]);
  }

  lemma AnnouncedBytes(d: seq<Piece>, id: nat, s: Bytes, body: Bytes, f: Fills)
    requires !Mentions(d, id)
    ensures Render(d + [Hole(id)], f[id := s]) + body == Render(d, f) + (s + body)
  {
    RenderLastFilled(d, id, s, f);
    assert (Render(d, f) + s) + body == Render(d, f) + (s + body);
  }

  /** What stands behind a placeholder that is filled comes after what it is filled with. */
  lemma AnnouncedThen(d: seq<Piece>, id: nat, body: Bytes, d1: seq<Piece>, s: Bytes, d2: seq<Piece>)
    requires Hole(id) !in d && Appended(d + [Hole(id)], body, d1) && Filled(d1, id, s, d2)
    ensures forall f: Fills {:trigger Render(d2, f)} :: Render(d2, f) == Render(d, f) + (s + body)
  {
    forall f: Fills ensures Render(d2, f) == Render(d, f) + (s + body) {
      AnnouncedBytes(d, id, s, body, f);
      assert Render(d1, f[id := s]) == Render(d + [Hole(id)], f[id := s]) + body;
    }
  }

  /** src/redis/client_reply.c:230-234 */
  method AddReplyStatus(r: Replies, s: Bytes, slack: Slacks, at: nat)
    requires r.Valid()
    modifies r.Repr
    ensures r.Valid() && r.Counted() && fresh(r.Repr - old(r.Repr)) && r.nextId == old(r.nextId)
    ensures Appended(old(r.doc), StatusLine(s), r.doc)
  {
    ghost var d := r.doc;
    r.AddReplyProto([PLUS], slack(at));
    ghost var d1 := r.doc;
    r.AddReplyProto(s, slack(at + 1));
    AppendedThen(d, [PLUS], d1, s, r.doc);
    ghost var d2 := r.doc;
    r.AddReplyProto(CRLF, slack(at + 2));
    AppendedThen(d, [PLUS] + s, d2, CRLF, r.doc);
  }

  /** One more status line behind others. */
  method AddLine(r: Replies, s: Bytes, slack: Slacks, at: nat, ghost d: seq<Piece>, ghost lines: seq<Bytes>)
    requires r.Valid() && Appended(d, StatusLines(lines), r.doc)
    modifies r.Repr
    ensures r.Valid() && r.Counted() && fresh(r.Repr - old(r.Repr)) && r.nextId == old(r.nextId)
    ensures Appended(d, StatusLines(lines + [s]), r.doc)
  {
    ghost var d1 := r.doc;
    AddReplyStatus(r, s, slack, at);
    AppendedThen(d, StatusLines(lines), d1, StatusLine(s), r.doc);
    assert (lines + [s])[..|lines|] == lines;
  }

  /** src/redis/client_reply.c:308-318 */
  method SetDeferredAggregateLen(r: Replies, node: Option<nat>, length: nat, prefix: Byte, slack: nat)
    requires r.Valid() && r.Counted() && (node.Some? ==> Hole(node.value) in r.doc)
    modifies r.Repr
    ensures r.Valid() && r.Counted() && fresh(r.Repr - old(r.Repr)) && r.nextId == old(r.nextId)
    ensures node.None? ==> r.doc == old(r.doc)
    ensures node.Some? ==> Filled(old(r.doc), node.value, [prefix] + Decimal(length) + CRLF, r.doc)
    ensures forall h: nat {:trigger Hole(h)} :: Hole(h) in r.doc <==> Hole(h) in old(r.doc) && node != Some(h)
  {
    r.SetDeferredReply(node, [prefix] + Decimal(length) + CRLF, slack);
  }

  /** The heading and the first n of the command's own lines. */
  ghost function LinesTo(head: Bytes, help: seq<Bytes>, n: nat): seq<Bytes>
    requires n <= |help|
  {
    [head] + help[..n]
  }

  lemma LinesNext(head: Bytes, help: seq<Bytes>, n: nat)
    requires n < |help|
    ensures LinesTo(head, help, n + 1) == LinesTo(head, help, n) + [help[n]]
  {
    assert help[..n + 1] == help[..n] + [help[n]];
  }

  /** The heading and the first n lines are behind d, and no placeholder is new. */
  ghost predicate Shown(r: Replies, id: nat, d: seq<Piece>, head: Bytes, help: seq<Bytes>, n: nat)
    reads r, r.Repr
  {
    && r.Valid() && r.Counted() && r.nextId == id && n <= |help|
    && Appended(d, StatusLines(LinesTo(head, help, n)), r.doc)
  }

  method AddOwnLine(r: Replies, help: seq<Bytes>, blen: nat, slack: Slacks, at: nat, ghost d: seq<Piece>,
                    ghost head: Bytes, ghost id: nat)
    requires blen < |help| && Shown(r, id, d, head, help, blen)
    modifies r.Repr
    ensures fresh(r.Repr - old(r.Repr)) && Shown(r, id, d, head, help, blen + 1)
  {
    LinesNext(head, help, blen);
    AddLine(r, help[blen], slack, at, d, LinesTo(head, help, blen));
  }

  /** src/redis/client_reply.c:333: the command's own lines, behind the heading. */
  method AddOwnLines(r: Replies, help: seq<Bytes>, slack: Slacks, at: nat, ghost d: seq<Piece>, ghost head: Bytes)
    returns (blen: nat)
    requires Shown(r, r.nextId, d, head, help, 0)
    modifies r.Repr
    ensures fresh(r.Repr - old(r.Repr)) && blen == |help| && Shown(r, old(r.nextId), d, head, help, |help|)
  {
    ghost var id := r.nextId;
    blen := 0;
    while blen < |help|
      invariant blen <= |help| && fresh(r.Repr - old(r.Repr))
      invariant blen > |help| || Shown(r, id, d, head, help, blen)
    {
      AddOwnLine(r, help, blen, slack, at + 3 * blen, d, head, id);
      blen := blen + 1;
    }
  }

  /** The heading and the command's own lines. */
  method AddLines(r: Replies, head: Bytes, help: seq<Bytes>, slack: Slacks, at: nat) returns (blen: nat)
    requires r.Valid()
    modifies r.Repr
    ensures r.Valid() && r.Counted() && fresh(r.Repr - old(r.Repr)) && r.nextId == old(r.nextId) && blen == |help|
    ensures Appended(old(r.doc), StatusLines(LinesTo(head, help, |help|)), r.doc)
  {
    ghost var d := r.doc;
    AddHead(r, head, help, slack, at);
    blen := AddOwnLines(r, help, slack, at + 3, d, head);
  }

  method AddHead(r: Replies, head: Bytes, ghost help: seq<Bytes>, slack: Slacks, at: nat)
    requires r.Valid()
    modifies r.Repr
    ensures r.Valid() && r.Counted() && fresh(r.Repr - old(r.Repr)) && r.nextId == old(r.nextId)
    ensures Appended(old(r.doc), StatusLines(LinesTo(head, help, 0)), r.doc)
  {
    ghost var d := r.doc;
    AddReplyStatus(r, head, slack, at);
    OneLine(head, help);
  }

  lemma OneLine(head: Bytes, help: seq<Bytes>)
    ensures StatusLines(LinesTo(head, help, 0)) == StatusLine(head)
  {
    assert LinesTo(head, help, 0) == [head];
    assert [head][..0] == [];
    assert StatusLines([]) + StatusLine(head) == StatusLine(head);
  }

  method AddFooter(r: Replies, foot: Bytes, foot': Bytes, slack: Slacks, at: nat, ghost d: seq<Piece>,
                   ghost lines: seq<Bytes>)
    requires r.Valid() && Appended(d, StatusLines(lines), r.doc)
    modifies r.Repr
    ensures r.Valid() && r.Counted() && fresh(r.Repr - old(r.Repr)) && r.nextId == old(r.nextId)
    ensures Appended(d, StatusLines(lines + [foot] + [foot']), r.doc)
  {
    AddLine(r, foot, slack, at, d, lines);
    AddLine(r, foot', slack, at + 3, d, lines + [foot]);
  }

  /** All lines of the help; each has three allocations, whose slacks start at `at`. */
  method AddHelpLines(r: Replies, cmd: Bytes, help: seq<Bytes>, slack: Slacks, at: nat) returns (blen: nat)
    requires r.Valid()
    modifies r.Repr
    ensures r.Valid() && r.Counted() && fresh(r.Repr - old(r.Repr)) && r.nextId == old(r.nextId) && blen == |help|
    ensures Appended(old(r.doc), StatusLines(HelpLines(cmd, help)), r.doc)
  {
    ghost var d := r.doc;
    var head, foot, foot' := Heading(cmd), HELP_NAME, HELP_TEXT;
    HelpLinesAre(cmd, help, head, foot, foot');
    blen := AddLines(r, head, help, slack, at);
    AddFooter(r, foot, foot', slack, at + 3 * blen + 3, d, LinesTo(head, help, |help|));
  }

  lemma HelpLinesAre(cmd: Bytes, help: seq<Bytes>, head: Bytes, foot: Bytes, foot': Bytes)
    requires head == Heading(cmd) && foot == HELP_NAME && foot' == HELP_TEXT
    ensures HelpLines(cmd, help) == LinesTo(head, help, |help|) + [foot] + [foot']
  {
    assert help[..|help|] == help;
  }

  /**
   src/redis/client_reply.c:324-342: whatever was in the list before, and whatever is filled later, the reply is
   an array whose announced length is the number of its lines.
   */
  method AddReplyHelp(r: Replies, cmd: Bytes, help: seq<Bytes>, slack: Slacks)
    requires r.Valid() && r.Counted()
    modifies r.Repr
    ensures r.Valid() && r.Counted() && fresh(r.Repr - old(r.Repr))
    ensures Appended(old(r.doc), StatusArray(HelpLines(cmd, help)), r.doc)
  {
    ghost var d := r.doc;
    var blenp := r.AddReplyDeferredLen(slack(0));
    var blen := AddHelpLines(r, cmd, help, slack, 1);
    blen := blen + 1;
    blen := blen + 2;
    ghost var d1 := r.doc;
    SetDeferredAggregateLen(r, Some(blenp), blen, STAR, slack(3 * blen + 1));
    AnnouncedThen(d, blenp, StatusLines(HelpLines(cmd, help)), d1, [STAR] + Decimal(blen) + CRLF, r.doc);
  }
}
