/** A reply with placeholders, as plain text: what the list of reply blocks stands for. */
module ReplyDocument {
  import opened Wire

  /** A stretch of bytes, or a placeholder that is filled later. */
  datatype Piece = Text(bytes: Bytes) | Hole(id: nat)

  type Fills = map<nat, Bytes>

  function PieceBytes(p: Piece, f: Fills): Bytes {
    match p
    case Text(b) => b
    case Hole(id) => if id in f then f[id] else []
  }

  /** The bytes of a document whose placeholders are filled as f says. */
  function Render(d: seq<Piece>, f: Fills): Bytes {
    if d == [] then [] else Render(d[..|d| - 1], f) + PieceBytes(d[|d| - 1], f)
  }

  lemma Associate(x: Bytes, y: Bytes, z: Bytes)
    ensures (x + y) + z == x + (y + z)
  {
  }

  lemma {:induction false} RenderConcat(a: seq<Piece>, b: seq<Piece>, f: Fills)
    ensures Render(a + b, f) == Render(a, f) + Render(b, f)
  {
    if b == [] {
      assert a + b == a;
    } else {
      var l := |b| - 1;
      assert (a + b)[..|a| + l] == a + b[..l];
      RenderConcat(a, b[..l], f);
      Associate(Render(a, f), Render(b[..l], f), PieceBytes(b[l], f));
    }
  }

  lemma RenderOne(p: Piece, f: Fills)
    ensures Render([p], f) == PieceBytes(p, f)
  {
    assert [p][..0] == [];
  }

  ghost predicate Mentions(d: seq<Piece>, id: nat) {
    Hole(id) in d
  }

  lemma {:induction false} RenderFrame(d: seq<Piece>, f: Fills, id: nat, s: Bytes)
    requires !Mentions(d, id)
    ensures Render(d, f[id := s]) == Render(d, f)
  {
    if d != [] {
      assert !Mentions(d[..|d| - 1], id);
      RenderFrame(d[..|d| - 1], f, id, s);
    }
  }

  /** The document is x followed by the pieces m and then y. */
  lemma RenderAround(x: seq<Piece>, m: seq<Piece>, y: seq<Piece>, f: Fills)
    ensures Render(x + m + y, f) == Render(x, f) + Render(m, f) + Render(y, f)
  {
    RenderConcat(x + m, y, f);
    RenderConcat(x, m, f);
  }

  /** No placeholder occurs twice. */
  ghost predicate Unique(d: seq<Piece>) {
    forall i, j :: 0 <= i < j < |d| && d[i].Hole? && d[j].Hole? ==> d[i] != d[j]
  }

  /** d' is d with the placeholder id filled with s, whatever the other placeholders are filled with. */
  ghost predicate Filled(d: seq<Piece>, id: nat, s: Bytes, d': seq<Piece>) {
    forall f: Fills {:trigger Render(d', f)} :: Render(d', f) == Render(d, f[id := s])
  }

  /** Pieces m that contain the placeholder may be replaced by m' if those have the same bytes once it is filled. */
  lemma ReplaceAround(x: seq<Piece>, m: seq<Piece>, m': seq<Piece>, y: seq<Piece>, id: nat, s: Bytes)
    requires !Mentions(x, id) && !Mentions(y, id)
    requires forall f: Fills {:trigger Render(m', f)} :: Render(m', f) == Render(m, f[id := s])
    ensures Filled(x + m + y, id, s, x + m' + y)
  {
    forall f: Fills ensures Render(x + m' + y, f) == Render(x + m + y, f[id := s]) {
      RenderAround(x, m', y, f);
      RenderAround(x, m, y, f[id := s]);
      RenderFrame(x, f, id, s);
      RenderFrame(y, f, id, s);
    }
  }

  lemma HoleElsewhere(d: seq<Piece>, i: nat)
    requires Unique(d) && i < |d| && d[i].Hole?
    ensures !Mentions(d[..i], d[i].id) && !Mentions(d[i + 1..], d[i].id)
  {
  }

  lemma RenderTwo(p: Piece, q: Piece, f: Fills)
    ensures Render([p, q], f) == PieceBytes(p, f) + PieceBytes(q, f)
  {
    assert [p, q] == [p] + [q];
    RenderConcat([p], [q], f);
    RenderOne(p, f);
    RenderOne(q, f);
  }

  lemma RenderFilled(x: seq<Piece>, a: Bytes, id: nat, y: seq<Piece>, s: Bytes, f: Fills)
    requires !Mentions(x, id) && !Mentions(y, id)
    ensures Render(x + [Text(a), Hole(id)] + y, f[id := s]) == Render(x, f) + (a + s) + Render(y, f)
  {
    var m, g := [Text(a), Hole(id)], f[id := s];
    RenderAround(x, m, y, g);
    assert Render(m, g) == a + s by { RenderTwo(Text(a), Hole(id), g); }
    RenderFrame(x, f, id, s);
    RenderFrame(y, f, id, s);
  }

  lemma GlueAround(x: seq<Piece>, a: Bytes, id: nat, y: seq<Piece>, s1: Bytes, s2: Bytes, f: Fills)
    requires !Mentions(x, id) && !Mentions(y, id)
    ensures Render(x + [Text(a + s1), Hole(id)] + y, f[id := s2]) ==
            Render(x + [Text(a), Hole(id)] + y, f[id := s1 + s2])
  {
    assert (a + s1) + s2 == a + (s1 + s2) by { Associate(a, s1, s2); }
    RenderFilled(x, a, id, y, s1 + s2, f);
    RenderFilled(x, a + s1, id, y, s2, f);
  }

  /**
   The part s1 goes to the end of the block before the placeholder, which is left to be filled with s2; filling it
   then completes the whole of s1 + s2.
   */
  lemma GluePrev(d: seq<Piece>, i: nat, s1: Bytes, s2: Bytes, d': seq<Piece>)
    requires Unique(d) && 0 < i < |d| && d[i].Hole? && d[i - 1].Text?
    requires Filled(d[i - 1 := Text(d[i - 1].bytes + s1)], d[i].id, s2, d')
    ensures Filled(d, d[i].id, s1 + s2, d')
  {
    var a, id, x, y := d[i - 1].bytes, d[i].id, d[..i - 1], d[i + 1..];
    HoleElsewhere(d, i);
    assert d == x + [Text(a), Hole(id)] + y;
    assert d[i - 1 := Text(a + s1)] == x + [Text(a + s1), Hole(id)] + y;
    forall f: Fills ensures Render(d', f) == Render(d, f[id := s1 + s2]) {
      GlueAround(x, a, id, y, s1, s2, f);
    }
  }

  /** Nothing is left to fill in: the placeholder is dropped. */
  lemma DropHole(d: seq<Piece>, i: nat)
    requires Unique(d) && i < |d| && d[i].Hole?
    ensures Filled(d, d[i].id, [], Without(d, i))
  {
    var id := d[i].id;
    HoleElsewhere(d, i);
    forall f: Fills ensures Render([], f) == Render([d[i]], f[id := []]) {
      RenderOne(d[i], f[id := []]);
    }
    ReplaceAround(d[..i], [d[i]], [], d[i + 1..], id, []);
    assert d[..i] + [d[i]] + d[i + 1..] == d;
    assert d[..i] + [] + d[i + 1..] == d[..i] + d[i + 1..];
  }

  /** The placeholder becomes a block of its own. */
  lemma NewText(d: seq<Piece>, i: nat, s: Bytes)
    requires Unique(d) && i < |d| && d[i].Hole?
    ensures Filled(d, d[i].id, s, d[i := Text(s)])
  {
    var id := d[i].id;
    HoleElsewhere(d, i);
    forall f: Fills ensures Render([Text(s)], f) == Render([d[i]], f[id := s]) {
      RenderOne(d[i], f[id := s]);
      RenderOne(Text(s), f);
    }
    ReplaceAround(d[..i], [d[i]], [Text(s)], d[i + 1..], id, s);
    assert d[..i] + [d[i]] + d[i + 1..] == d;
    assert d[..i] + [Text(s)] + d[i + 1..] == d[i := Text(s)];
  }

  /** s goes to the front of the block after the placeholder, which is dropped. */
  lemma GlueNext(d: seq<Piece>, i: nat, s: Bytes)
    requires Unique(d) && i + 1 < |d| && d[i].Hole? && d[i + 1].Text?
    ensures Filled(d, d[i].id, s, d[..i] + [Text(s + d[i + 1].bytes)] + d[i + 2..])
  {
    var id, t := d[i].id, Text(s + d[i + 1].bytes);
    HoleElsewhere(d, i);
    assert d[i + 2..] == d[i + 1..][1..];
    forall f: Fills ensures Render([t], f) == Render([d[i], d[i + 1]], f[id := s]) {
      RenderTwo(d[i], d[i + 1], f[id := s]);
      RenderOne(t, f);
    }
    ReplaceAround(d[..i], [d[i], d[i + 1]], [t], d[i + 2..], id, s);
    assert d[..i] + [d[i], d[i + 1]] + d[i + 2..] == d;
  }

  lemma AppendText(d: seq<Piece>, s: Bytes, f: Fills)
    ensures Render(d + [Text(s)], f) == Render(d, f) + s
  {
    RenderConcat(d, [Text(s)], f);
    RenderOne(Text(s), f);
  }

  /** d' is d with s behind it, whatever the placeholders are filled with; the placeholders are the same. */
  ghost predicate Appended(d: seq<Piece>, s: Bytes, d': seq<Piece>) {
    && (forall f: Fills {:trigger Render(d', f)} :: Render(d', f) == Render(d, f) + s)
    && (forall h: nat {:trigger Hole(h)} :: Hole(h) in d' <==> Hole(h) in d)
  }

  lemma AppendedBlock(d: seq<Piece>, s: Bytes)
    ensures Appended(d, s, d + [Text(s)])
  {
    forall f: Fills ensures Render(d + [Text(s)], f) == Render(d, f) + s {
      AppendText(d, s, f);
    }
  }

  lemma RenderMore(x: seq<Piece>, a: Bytes, s: Bytes, f: Fills)
    ensures Render(x + [Text(a + s)], f) == Render(x + [Text(a)], f) + s
  {
    AppendText(x, a, f);
    AppendText(x, a + s, f);
    Associate(Render(x, f), a, s);
  }

  /** More bytes in the last block come after everything else. */
  lemma AppendedToLast(d: seq<Piece>, s: Bytes)
    requires d != [] && d[|d| - 1].Text?
    ensures Appended(d, s, d[|d| - 1 := Text(d[|d| - 1].bytes + s)])
  {
    var l := |d| - 1;
    var x, a := d[..l], d[l].bytes;
    var d' := d[l := Text(a + s)];
    assert d == x + [Text(a)] && d' == x + [Text(a + s)];
    forall f: Fills ensures Render(d', f) == Render(d, f) + s {
      RenderMore(x, a, s, f);
    }
    PutHoles(d, l, s);
  }

  lemma AppendedThen(d: seq<Piece>, s1: Bytes, d1: seq<Piece>, s2: Bytes, d2: seq<Piece>)
    requires Appended(d, s1, d1) && Appended(d1, s2, d2)
    ensures Appended(d, s1 + s2, d2)
  {
    forall f: Fills ensures Render(d2, f) == Render(d, f) + (s1 + s2) {
      Associate(Render(d, f), s1, s2);
      assert Render(d2, f) == Render(d1, f) + s2;
    }
  }

  /** The first n bytes of s in the last block, and the rest in a new one. */
  lemma AppendedSplit(d: seq<Piece>, s: Bytes, n: nat)
    requires d != [] && d[|d| - 1].Text? && n <= |s|
    ensures Appended(d, s, d[|d| - 1 := Text(d[|d| - 1].bytes + s[..n])] + [Text(s[n..])])
  {
    var d1 := d[|d| - 1 := Text(d[|d| - 1].bytes + s[..n])];
    AppendedToLast(d, s[..n]);
    AppendedBlock(d1, s[n..]);
    AppendedThen(d, s[..n], d1, s[n..], d1 + [Text(s[n..])]);
    assert s[..n] + s[n..] == s;
  }

  /** A sequence without its element i. */
  function Without<T>(s: seq<T>, i: nat): (r: seq<T>)
    requires i < |s|
    ensures |r| == |s| - 1 && forall j :: 0 <= j < |r| ==> r[j] == s[if j < i then j else j + 1]
  {
    s[..i] + s[i + 1..]
  }

  lemma WithoutUnique(d: seq<Piece>, i: nat)
    requires Unique(d) && i < |d|
    ensures Unique(Without(d, i))
  {
  }

  // ---------------------------------------------------------------- which placeholders are left

  lemma PutHoles(d: seq<Piece>, i: nat, s: Bytes)
    requires i < |d| && d[i].Text?
    ensures forall h: nat {:trigger Hole(h)} :: Hole(h) in d[i := Text(d[i].bytes + s)] <==> Hole(h) in d
  {
    var d' := d[i := Text(d[i].bytes + s)];
    assert forall j :: 0 <= j < |d| && d[j].Hole? ==> d'[j] == d[j];
    assert forall j :: 0 <= j < |d| && d'[j].Hole? ==> d[j] == d'[j];
  }

  lemma DroppedHoles(d: seq<Piece>, i: nat)
    requires Unique(d) && i < |d| && d[i].Hole?
    ensures forall h: nat {:trigger Hole(h)} :: Hole(h) in Without(d, i) <==> Hole(h) in d && Hole(h) != d[i]
  {
    var d' := Without(d, i);
    forall h: nat ensures Hole(h) in d' <==> Hole(h) in d && Hole(h) != d[i] {
      if Hole(h) in d' {
        var j :| 0 <= j < |d'| && d'[j] == Hole(h);
        assert d[if j < i then j else j + 1] == Hole(h);
      }
      if Hole(h) in d && Hole(h) != d[i] {
        var j :| 0 <= j < |d| && d[j] == Hole(h);
        assert d'[if j < i then j else j - 1] == Hole(h);
      }
    }
  }

  lemma FilledHoles(d: seq<Piece>, i: nat, s: Bytes)
    requires Unique(d) && i < |d| && d[i].Hole?
    ensures forall h: nat {:trigger Hole(h)} :: Hole(h) in d[i := Text(s)] <==> Hole(h) in d && Hole(h) != d[i]
  {
    var d' := d[i := Text(s)];
    assert forall j :: 0 <= j < |d| && j != i ==> d'[j] == d[j];
  }

  lemma GluedHoles(d: seq<Piece>, i: nat, s: Bytes)
    requires Unique(d) && i + 1 < |d| && d[i].Hole? && d[i + 1].Text?
    ensures var d' := Without(d[i + 1 := Text(s + d[i + 1].bytes)], i);
            && d' == d[..i] + [Text(s + d[i + 1].bytes)] + d[i + 2..]
            && forall h: nat {:trigger Hole(h)} :: Hole(h) in d' <==> Hole(h) in d && Hole(h) != d[i]
  {
    FilledHoles(d, i, []);
    var d1 := d[i + 1 := Text(s + d[i + 1].bytes)];
    DroppedHoles(d1, i);
    assert forall j :: 0 <= j < |d| && j != i + 1 ==> d1[j] == d[j];
  }
}
