/** What the lines of the protocol are, byte by byte: exactly which are read, refused or waited for. */
module RequestBytes {
  import opened Wire
  import opened RequestGrammar

  /** The first '\r' of u is at k, and no NUL comes before it. */
  predicate IsLine(u: Bytes, k: nat) {
    k < |u| && u[k] == 13 && forall j :: 0 <= j < k ==> u[j] != 13 && u[j] != 0
  }

  /** u starts with a line of `lead` and a number from lo to hi, a '\r' and one more byte: `size` bytes in all. */
  ghost predicate NumberLine(u: Bytes, lead: Byte, lo: int, hi: int, n: int, size: nat) {
    && 3 <= size <= |u| && IsLine(u, size - 2) && u[0] == lead
    && lo <= n <= hi && u[1..size - 2] == Spelling(n)
  }

  /**
   u is refused: it has more than 64 KiB and no line in it, or a complete line that does not start with `lead` or has
   no number from lo to hi after it.
   */
  ghost predicate Refused(u: Bytes, lead: Byte, lo: int, hi: int) {
    || (|u| > 65536 && forall k: nat :: !IsLine(u, k))
    || exists k: nat :: IsLine(u, k) && k + 2 <= |u| && forall n, size: nat :: !NumberLine(u, lead, lo, hi, n, size)
  }

  const LEAST: int := -0x8000_0000_0000_0000
  const GREATEST: int := 0x7fff_ffff_ffff_ffff

  lemma LineEndIs(u: Bytes)
    ensures LineEnd(u).Some? ==> IsLine(u, LineEnd(u).value)
    ensures forall k: nat :: IsLine(u, k) ==> LineEnd(u) == Some(k)
  {
    if LineEnd(u).Some? {
      LineEndFound(u, LineEnd(u).value);
    }
    forall k: nat | IsLine(u, k) ensures LineEnd(u) == Some(k) {
      LineEndFound(u, k);
    }
  }

  lemma NumberIsRead(lead: Byte, u: Bytes, n: int, size: nat)
    requires lead != 13
    ensures ReadNumber(lead, u) == Done(n, size) <==> NumberLine(u, lead, LEAST, GREATEST, n, size)
  {
    LineEndIs(u);
    if LineEnd(u).Some? {
      var k := LineEnd(u).value;
      if 1 <= k && k + 2 <= |u| {
        ParseInt64Is(u[1..k], n);
      }
    }
  }

  lemma NumberIsRefused(lead: Byte, u: Bytes)
    requires lead != 13
    ensures ReadNumber(lead, u).Bad? <==> Refused(u, lead, LEAST, GREATEST)
  {
    LineEndIs(u);
    if LineEnd(u).Some? && LineEnd(u).value + 2 <= |u| {
      if ReadNumber(lead, u).Done? {
        NumberIsRead(lead, u, ReadNumber(lead, u).value, ReadNumber(lead, u).size);
      } else {
        forall n, size: nat ensures !NumberLine(u, lead, LEAST, GREATEST, n, size) {
          NumberIsRead(lead, u, n, size);
        }
      }
    }
  }

  /** A count line is read exactly when it is a '*' and the spelling of a number of at most 1048576. */
  lemma CountIsRead(u: Bytes, n: int, size: nat)
    ensures ReadCount(u) == Done(n, size) <==> NumberLine(u, 42, -0x8000_0000_0000_0000, 1048576, n, size)
  {
    NumberIsRead(42, u, n, size);
  }

  /** A count line is refused exactly when it is too long, does not start with '*', or has no such number. */
  lemma CountIsRefused(u: Bytes)
    ensures ReadCount(u).Bad? <==> Refused(u, 42, -0x8000_0000_0000_0000, 1048576)
  {
    NumberIsRefused(42, u);
    RefusedBetween(u, 42, -0x8000_0000_0000_0000, 1048576);
  }

  /** With bounds of its own: refused as a line, or read with a number outside the bounds. */
  lemma RefusedBetween(u: Bytes, lead: Byte, lo: int, hi: int)
    requires lead != 13 && LEAST <= lo && hi <= GREATEST
    ensures Refused(u, lead, lo, hi) <==>
            var r := ReadNumber(lead, u); r.Bad? || (r.Done? && !(lo <= r.value <= hi))
  {
    var r := ReadNumber(lead, u);
    LineEndIs(u);
    NumberIsRefused(lead, u);
    forall n, size: nat
      ensures NumberLine(u, lead, lo, hi, n, size) <==> r == Done(n, size) && lo <= n <= hi
    {
      NumberIsRead(lead, u, n, size);
    }
  }

  /** A length line is read exactly when it is a '$' and the spelling of a number from 0 to the configured limit. */
  lemma LengthIsRead(cfg: Config, u: Bytes, n: nat, size: nat)
    requires cfg.maxBulk <= GREATEST
    ensures ReadBulkLen(cfg, u) == Done(n, size) <==> NumberLine(u, 36, 0, cfg.maxBulk, n, size)
  {
    NumberIsRead(36, u, n, size);
  }

  lemma LengthIsRefused(cfg: Config, u: Bytes)
    requires cfg.maxBulk <= GREATEST
    ensures ReadBulkLen(cfg, u).Bad? <==> Refused(u, 36, 0, cfg.maxBulk)
  {
    RefusedBetween(u, 36, 0, cfg.maxBulk);
  }

  /** A bulk string is its length line, as many bytes as that says, and any two more. */
  lemma BulkIsRead(cfg: Config, u: Bytes, a: Bytes, size: nat)
    requires cfg.maxBulk <= GREATEST
    ensures ReadBulk(cfg, u) == Done(a, size) <==>
            exists k: nat {:trigger NumberLine(u, 36, 0, cfg.maxBulk, |a|, k)} ::
              NumberLine(u, 36, 0, cfg.maxBulk, |a|, k) && size == k + |a| + 2 <= |u| && a == u[k..k + |a|]
  {
    forall k: nat
      ensures ReadBulkLen(cfg, u) == Done(|a|, k) <==> NumberLine(u, 36, 0, cfg.maxBulk, |a|, k)
    {
      LengthIsRead(cfg, u, |a|, k);
    }
    if ReadBulk(cfg, u) == Done(a, size) {
      var k := ReadBulkLen(cfg, u).size;
      assert NumberLine(u, 36, 0, cfg.maxBulk, |a|, k);
    }
  }

  // ---------------------------------------------------------------- requests without arguments

  lemma SpellingHasNoEnd(n: int)
    ensures Spelling(n) != [] && forall i :: 0 <= i < |Spelling(n)| ==> Spelling(n)[i] != 13 && Spelling(n)[i] != 0
  {
  }

  /** '*', the spelling of n, '\r' and any byte. */
  function CountLine(n: int, x: Byte): Bytes {
    [42] + Spelling(n) + [13, x]
  }

  lemma CountLineNumber(n: int, x: Byte, t: Bytes)
    ensures NumberLine(CountLine(n, x) + t, 42, n, n, n, |CountLine(n, x)|)
  {
    var u := CountLine(n, x) + t;
    var k := |CountLine(n, x)| - 2;
    SpellingHasNoEnd(n);
    assert forall j :: 0 <= j < k ==> u[j] == ([42] + Spelling(n))[j];
    assert u[k] == 13 && u[1..k] == Spelling(n);
  }

  lemma CountLineIsRead(n: int, x: Byte, t: Bytes)
    requires -0x8000_0000_0000_0000 <= n <= 1048576
    ensures ReadCount(CountLine(n, x) + t) == Done(n, |CountLine(n, x)|)
  {
    CountLineNumber(n, x, t);
    CountIsRead(CountLine(n, x) + t, n, |CountLine(n, x)|);
  }

  /** A request that announces no arguments, or fewer than none, is dropped, and what follows it is served. */
  lemma EmptyRequestIsDropped(cfg: Config, n: int, x: Byte, t: Bytes)
    requires -0x8000_0000_0000_0000 <= n <= 0
    ensures Serve(Resp(cfg), CountLine(n, x) + t) == Serve(Resp(cfg), t)
  {
    var l, u := CountLine(n, x), CountLine(n, x) + t;
    CountLineIsRead(n, x, t);
    assert u != [] && u[0] == 42 && u[|l|..] == t;
    assert ReadRequest(Resp(cfg), u) == Done([], |l|);
  }

  /** A request that announces more than 1048576 arguments is refused, and nothing after it is served. */
  lemma HugeRequestIsRefused(cfg: Config, n: int, x: Byte, t: Bytes)
    requires 1048576 < n < 0x8000_0000_0000_0000
    ensures Serve(Resp(cfg), CountLine(n, x) + t) == Session([], ProtocolError)
  {
    var l, u := CountLine(n, x), CountLine(n, x) + t;
    CountLineNumber(n, x, t);
    NumberIsRead(42, u, n, |l|);
    assert u[0] == 42 && ReadCount(u).Bad?;
    assert ReadRequest(Resp(cfg), u) == Bad;
  }
}
