/** Bytes, and the decimal numbers of the Redis serialization protocol. */
module Wire {

  datatype Option<+T> = None | Some(value: T)

  type Byte = b: int | 0 <= b < 256
  type Bytes = seq<Byte>

  const NUL: Byte := 0
  const LF: Byte := 10
  const CR: Byte := 13
  const DOLLAR: Byte := 36
  const STAR: Byte := 42
  const MINUS: Byte := 45
  const ZERO: Byte := 48

  const INT64_LIMIT: int := 0x8000_0000_0000_0000

  const CRLF: Bytes := [CR, LF]

  /** strchr on an sds, from index i: the scan stops at a NUL, and the buffer ends in one. */
  function FindCR(u: Bytes, i: nat): (r: Option<nat>)
    requires i <= |u|
    ensures r.Some? ==> i <= r.value < |u| && u[r.value] == CR
    decreases |u| - i
  {
    if i == |u| || u[i] == NUL then None
    else if u[i] == CR then Some(i)
    else FindCR(u, i + 1)
  }

  function LineEnd(u: Bytes): (r: Option<nat>)
    ensures r.Some? ==> r.value < |u| && u[r.value] == CR
  {
    FindCR(u, 0)
  }

  lemma {:induction false} FindCRFound(u: Bytes, i: nat, k: nat)
    requires i <= |u|
    ensures FindCR(u, i) == Some(k) <==>
            i <= k < |u| && u[k] == CR && forall j :: i <= j < k ==> u[j] != CR && u[j] != NUL
    decreases |u| - i
  {
    if i < |u| && u[i] != NUL && u[i] != CR {
      FindCRFound(u, i + 1, k);
    }
  }

  /** A line end is found exactly when a '\r' comes before every NUL, and it is the first one. */
  lemma LineEndFound(u: Bytes, k: nat)
    ensures LineEnd(u) == Some(k) <==> k < |u| && u[k] == 13 && forall j :: 0 <= j < k ==> u[j] != 13 && u[j] != 0
  {
    FindCRFound(u, 0, k);
  }

  /** More input never moves a line end that was found, and a new one lies in the new input. */
  lemma LineEndStable(u: Bytes, t: Bytes)
    ensures LineEnd(u).Some? ==> LineEnd(u + t) == LineEnd(u)
    ensures LineEnd(u).None? && LineEnd(u + t).Some? ==> LineEnd(u + t).value >= |u|
  {
    if LineEnd(u).Some? {
      LineEndFound(u, LineEnd(u).value);
      LineEndFound(u + t, LineEnd(u).value);
    } else if LineEnd(u + t).Some? {
      var k := LineEnd(u + t).value;
      LineEndFound(u + t, k);
      if k < |u| {
        assert forall j :: 0 <= j <= k ==> u[j] == (u + t)[j];
        LineEndFound(u, k);
      }
    }
  }

  /** The index of the first NUL at or after i, or the length. */
  function FindNul(k: Bytes, i: nat): (r: nat)
    requires i <= |k|
    ensures i <= r <= |k|
    ensures forall j :: i <= j < r ==> k[j] != NUL
    ensures r < |k| ==> k[r] == NUL
    decreases |k| - i
  {
    if i == |k| || k[i] == NUL then i else FindNul(k, i + 1)
  }

  /** A string up to its first NUL, as sds_new takes it from a C string. */
  function CString(k: Bytes): (r: Bytes)
    ensures r == k <==> NUL !in k
    ensures NUL !in r && r <= k && (|r| < |k| ==> k[|r|] == NUL)
  {
    k[..FindNul(k, 0)]
  }

  predicate IsDigits(s: Bytes) {
    forall i :: 0 <= i < |s| ==> 48 <= s[i] <= 57
  }

  function DigitsValue(s: Bytes): nat
    requires IsDigits(s)
  {
    if s == [] then 0 else DigitsValue(s[..|s| - 1]) * 10 + (s[|s| - 1] - 48)
  }

  /** Digits without a leading zero: the only spelling string2ll takes for a positive number. */
  predicate Canonical(s: Bytes) {
    s != [] && s[0] != ZERO && IsDigits(s)
  }

  /** string2ll: the whole of s is one canonical number that fits a signed 64-bit integer. */
  function ParseInt64(s: Bytes): Option<int> {
    if s == [ZERO] then Some(0)
    else if s != [] && s[0] == MINUS then
      if Canonical(s[1..]) && DigitsValue(s[1..]) <= INT64_LIMIT then Some(0 - DigitsValue(s[1..])) else None
    else if Canonical(s) && DigitsValue(s) < INT64_LIMIT then Some(DigitsValue(s))
    else None
  }

  /** The decimal spelling that printf("%lld") gives a number. */
  function Decimal(n: nat): (s: Bytes)
    ensures IsDigits(s) && s != []
  {
    if n < 10 then [48 + n] else Decimal(n / 10) + [48 + n % 10]
  }

  lemma {:induction false} DecimalValue(n: nat)
    ensures DigitsValue(Decimal(n)) == n
    ensures n > 0 ==> Canonical(Decimal(n))
  {
    if n >= 10 {
      DecimalValue(n / 10);
      assert Decimal(n)[..|Decimal(n)| - 1] == Decimal(n / 10);
    }
  }

  /** Reading back a printed number gives the number, for all that fit. */
  lemma ParseDecimal(n: nat)
    requires n < INT64_LIMIT
    ensures ParseInt64(Decimal(n)) == Some(n)
  {
    DecimalValue(n);
  }

  /** The one spelling of a number: a minus sign if it is negative, and its digits. */
  function Spelling(n: int): Bytes {
    if n < 0 then [45] + Decimal(-n) else Decimal(n)
  }

  /** What the digits of a number are: the last one is the remainder by ten, and those before it spell the quotient. */
  lemma DecimalIs(n: nat)
    ensures n <= 9 ==> Decimal(n) == [48 + n]
    ensures n > 9 ==> Decimal(n) == Decimal(n / 10) + [48 + n % 10]
  {
  }

  /** Digits without a leading zero are the decimal spelling of their value. */
  lemma {:induction false} DigitsAreDecimal(s: Bytes)
    requires Canonical(s)
    ensures DigitsValue(s) > 0 && Decimal(DigitsValue(s)) == s
  {
    var t, d := s[..|s| - 1], s[|s| - 1] - 48;
    if |s| > 1 {
      DigitsAreDecimal(t);
      var v := DigitsValue(t);
      assert DigitsValue(s) == v * 10 + d && (v * 10 + d) / 10 == v && (v * 10 + d) % 10 == d;
      assert s == t + [48 + d];
    } else {
      assert t == [] && DigitsValue(t) == 0;
      assert s == [48 + d];
    }
  }

  /** Every number that fits is read back from its spelling. */
  lemma ParseSpelling(n: int)
    requires -0x8000_0000_0000_0000 <= n < 0x8000_0000_0000_0000
    ensures ParseInt64(Spelling(n)) == Some(n)
  {
    if n >= 0 {
      ParseDecimal(n);
    } else {
      DecimalValue(-n);
      assert Spelling(n)[1..] == Decimal(-n);
    }
  }

  /** What is read as a number is the spelling of that number, which fits. */
  lemma ParsedIsSpelled(s: Bytes)
    requires ParseInt64(s).Some?
    ensures var n := ParseInt64(s).value;
            -0x8000_0000_0000_0000 <= n < 0x8000_0000_0000_0000 && s == Spelling(n)
  {
    if s == [ZERO] {
      DecimalIs(0);
    } else if s[0] == MINUS {
      DigitsAreDecimal(s[1..]);
      assert s == [45] + s[1..];
    } else {
      DigitsAreDecimal(s);
    }
  }

  /**
   string2ll accepts exactly the spellings of the numbers that fit a signed 64-bit integer, and gives the number: no
   sign before zero or a positive number, no leading zero, nothing before or after.
   */
  lemma ParseInt64Is(s: Bytes, n: int)
    ensures ParseInt64(s) == Some(n) <==> -0x8000_0000_0000_0000 <= n < 0x8000_0000_0000_0000 && s == Spelling(n)
  {
    if ParseInt64(s).Some? {
      ParsedIsSpelled(s);
    }
    if -0x8000_0000_0000_0000 <= n < 0x8000_0000_0000_0000 {
      ParseSpelling(n);
    }
  }

  /** A decimal that is read as a number is that number: there is no other spelling, and no other reading. */
  lemma SpellingDiffers(m: int, n: int)
    requires -0x8000_0000_0000_0000 <= m < 0x8000_0000_0000_0000 && -0x8000_0000_0000_0000 <= n < 0x8000_0000_0000_0000
    ensures Spelling(m) == Spelling(n) <==> m == n
  {
    ParseInt64Is(Spelling(m), m);
    ParseInt64Is(Spelling(n), n);
  }

  function Pow10(n: nat): nat {
    if n == 0 then 1 else 10 * Pow10(n - 1)
  }

  lemma {:induction false} CanonicalIsLarge(s: Bytes)
    requires Canonical(s)
    ensures DigitsValue(s) >= Pow10(|s| - 1)
  {
    if |s| > 1 {
      CanonicalIsLarge(s[..|s| - 1]);
    }
  }

  lemma {:induction false} Pow10Grows(n: nat)
    requires n >= 19
    ensures Pow10(n) > INT64_LIMIT
  {
    if n > 19 {
      Pow10Grows(n - 1);
    } else {
      assert Pow10(4) == 10_000;
      assert Pow10(8) == 1_0000_0000;
      assert Pow10(12) == 1_0000_0000_0000;
      assert Pow10(16) == 1_0000_0000_0000_0000;
      assert Pow10(19) == 1000_0000_0000_0000_0000;
    }
  }

  /** Nothing longer than a sign and 19 digits is a number. */
  lemma LongIsNoNumber(s: Bytes)
    requires |s| > 20
    ensures ParseInt64(s) == None
  {
    var d := if s[0] == MINUS then s[1..] else s;
    if Canonical(d) {
      CanonicalIsLarge(d);
      Pow10Grows(|d| - 1);
    }
  }
}
