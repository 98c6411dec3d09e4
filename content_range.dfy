/**
 * The `Content-Range` value `UploadAsync` attaches to each chunk:
 * `bytes {rangeStart}-{rangeEnd}/{uploadFileLength}`. It borrows the header of section 14.4
 * of RFC 9110 but not its syntax: the middle number is the EXCLUSIVE end of the chunk
 * (where the RFC asks for the inclusive last-byte-pos), so it can equal the total.
 * A parser is given as the partner of the formatter.
 */
module ContentRange {
  import opened Wrappers

  predicate IsDigit(ch: char) {
    '0' <= ch <= '9'
  }

  predicate AllDigits(s: string) {
    forall k :: 0 <= k < |s| ==> IsDigit(s[k])
  }

  function DigitChar(d: nat): (ch: char)
    requires d < 10
    ensures IsDigit(ch)
  {
    ['0', '1', '2', '3', '4', '5', '6', '7', '8', '9'][d]
  }

  function DigitValue(ch: char): nat
    requires IsDigit(ch)
  {
    (ch as int - '0' as int) as nat
  }

  /** The invariant-culture decimal text of a non-negative integer, as string interpolation
      writes it: no sign, no leading zero, at least one digit. */
  function Decimal(n: nat): (s: string)
    ensures |s| > 0 && AllDigits(s)
    ensures '-' !in s && '/' !in s
    ensures s[0] == '0' ==> n == 0
  {
    if n < 10 then [DigitChar(n)] else Decimal(n / 10) + [DigitChar(n % 10)]
  }

  function ParseDecimal(s: string): nat
    requires AllDigits(s)
  {
    if s == [] then 0 else ParseDecimal(s[..|s| - 1]) * 10 + DigitValue(s[|s| - 1])
  }

  lemma {:induction false} DecimalRoundTrip(n: nat)
    ensures ParseDecimal(Decimal(n)) == n
  {
    var s := Decimal(n);
    if n >= 10 {
      DecimalRoundTrip(n / 10);
      assert s[..|s| - 1] == Decimal(n / 10);
    }
    assert DigitValue(DigitChar(n % 10)) == n % 10;
  }

  /** Cuts `s` at the first occurrence of `sep`. */
  function SplitOn(s: string, sep: char): (r: Option<(string, string)>)
    ensures r.Some? ==> s == r.value.0 + [sep] + r.value.1 && sep !in r.value.0
    ensures r.None? <==> sep !in s
  {
    if s == [] then None
    else if s[0] == sep then Some(([], s[1..]))
    else match SplitOn(s[1..], sep)
      case None => None
      case Some((a, b)) => Some(([s[0]] + a, b))
  }

  lemma {:induction false} SplitOnFirst(a: string, sep: char, b: string)
    requires sep !in a
    ensures SplitOn(a + [sep] + b, sep) == Some((a, b))
  {
    var s := a + [sep] + b;
    if a == [] {
      assert s[0] == sep && s[1..] == b;
    } else {
      SplitOnFirst(a[1..], sep, b);
      assert s[0] == a[0] != sep;
      assert s[1..] == a[1..] + [sep] + b;
      assert [a[0]] + a[1..] == a;
    }
  }

  /** `$"bytes {rangeStart}-{rangeEnd}/{uploadFileLength}"` */
  function ContentRangeValue(start: nat, end: nat, total: nat): string {
    "bytes " + Decimal(start) + "-" + Decimal(end) + "/" + Decimal(total)
  }

  function ParseNumber(s: string): Option<nat> {
    if s != [] && AllDigits(s) then Some(ParseDecimal(s)) else None
  }

  /** Reads back (start, end, total) from a value written in the format above. */
  function ParseContentRange(v: string): Option<(nat, nat, nat)> {
    if |v| < 6 || v[..6] != "bytes " then None
    else match SplitOn(v[6..], '-')
      case None => None
      case Some((a, rest)) =>
        match SplitOn(rest, '/')
        case None => None
        case Some((b, t)) =>
          match (ParseNumber(a), ParseNumber(b), ParseNumber(t))
          case (Some(x), Some(y), Some(z)) => Some((x, y, z))
          case _ => None
  }

  /** The value the driver writes determines the three numbers it was made from. */
  lemma ContentRangeRoundTrip(start: nat, end: nat, total: nat)
    ensures ParseContentRange(ContentRangeValue(start, end, total)) == Some((start, end, total))
  {
    var ds, de, dt := Decimal(start), Decimal(end), Decimal(total);
    var v := ContentRangeValue(start, end, total);
    assert v[..6] == "bytes ";
    assert v[6..] == ds + ['-'] + (de + "/" + dt);
    SplitOnFirst(ds, '-', de + "/" + dt);
    assert de + "/" + dt == de + ['/'] + dt;
    SplitOnFirst(de, '/', dt);
    DecimalRoundTrip(start);
    DecimalRoundTrip(end);
    DecimalRoundTrip(total);
  }

  /** Whether the validating `Headers.Add` accepts a `Content-Range` value: it must read as
      a byte range whose first position is at most its last and whose last position lies
      before the complete length (section 14.4 of RFC 9110 calls any other range invalid).
      `TryAddWithoutValidation` applies no such check. */
  predicate Validates(v: string) {
    var p := ParseContentRange(v);
    p.Some? && p.value.0 <= p.value.1 < p.value.2
  }

  /** A value the driver writes passes validation exactly when start <= end < total: an
      exclusive end equal to the total, as the final chunk of a file has, is refused. */
  lemma ValidatesIff(start: nat, end: nat, total: nat)
    ensures Validates(ContentRangeValue(start, end, total)) <==> start <= end < total
  {
    ContentRangeRoundTrip(start, end, total);
  }
}
