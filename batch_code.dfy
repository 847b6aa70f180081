/**
 * The lot-code generator: `LOTE-{company}-{n:04d}`, where `n` is one more
 * than the number ending the code of the company's most recent batch.
 */
module BatchCode {
  import opened Wrappers
  import opened BatchModel

  /** The text every generated code starts with. */
  const Prefix: string := "LOTE-"

  /** The character that separates the parts of a code. */
  const Separator: char := '-'

  /** The minimum width of the number, padded with zeros. */
  const Width: nat := 4

  predicate IsDigit(c: char) {
    '0' <= c <= '9'
  }

  predicate AllDigits(s: string) {
    forall k :: 0 <= k < |s| ==> IsDigit(s[k])
  }

  function DigitChar(d: nat): (c: char)
    requires d < 10
    ensures IsDigit(c)
  {
    ('0' as int + d) as char
  }

  function DigitValue(c: char): (d: nat)
    requires IsDigit(c)
    ensures d < 10 && DigitChar(d) == c
  {
    c as int - '0' as int
  }

  /** The shortest decimal form of `n`, as `str(n)` writes it: no sign, no leading zero. */
  function Decimal(n: nat): (s: string)
    ensures |s| >= 1 && AllDigits(s)
    ensures n > 0 ==> s[0] != '0'
    ensures n == 0 ==> s == "0"
  {
    if n < 10 then [DigitChar(n)] else Decimal(n / 10) + [DigitChar(n % 10)]
  }

  /** The number a string of decimal digits denotes (the empty string denotes 0). */
  function DigitsValue(s: string): nat
    requires AllDigits(s)
  {
    if s == [] then 0 else DigitsValue(s[..|s| - 1]) * 10 + DigitValue(s[|s| - 1])
  }

  /** `k` zeros. */
  function Zeros(k: nat): (s: string)
    ensures |s| == k && AllDigits(s)
    ensures forall j :: 0 <= j < k ==> s[j] == '0'
  {
    if k == 0 then [] else Zeros(k - 1) + "0"
  }

  /** `format(n, "04d")`: the decimal form of `n`, padded on the left with zeros to at least four characters. */
  function Pad(n: nat): (s: string)
    ensures |s| >= Width && AllDigits(s)
    ensures |Decimal(n)| <= Width ==> |s| == Width
    ensures |Decimal(n)| >= Width ==> s == Decimal(n)
  {
    var d := Decimal(n);
    if |d| >= Width then d else Zeros(Width - |d|) + d
  }

  /**
   * The code of the `n`-th lot of a company: it starts with `LOTE-`, and its
   * last segment is the padded number, which reads back as `n`.
   */
  function FormatCode(company: nat, n: nat): (s: string)
    ensures Prefix <= s
    ensures LastSegment(s) == Pad(n) && ParseNat(LastSegment(s)) == Some(n)
  {
    assert forall k :: 0 <= k < |Pad(n)| ==> Pad(n)[k] != Separator;
    LastSegmentAfter(Prefix + Decimal(company), Pad(n));
    PadRoundTrip(n);
    Prefix + Decimal(company) + [Separator] + Pad(n)
  }

  /** `s.split('-')[-1]`: what follows the last separator, or all of `s` if it has none. */
  function LastSegment(s: string): (r: string)
    ensures Separator !in r
    ensures |r| <= |s| && r == s[|s| - |r|..]
    ensures |r| < |s| ==> s[|s| - |r| - 1] == Separator
    ensures Separator !in s ==> r == s
  {
    if s == [] then []
    else if s[|s| - 1] == Separator then []
    else LastSegment(s[..|s| - 1]) + [s[|s| - 1]]
  }

  /**
   * `int(s)` for the strings the generator meets: a non-empty run of decimal
   * digits denotes its number; anything else is refused.
   */
  function ParseNat(s: string): (r: Option<nat>)
    ensures r.Some? <==> |s| > 0 && AllDigits(s)
  {
    if s != [] && AllDigits(s) then Some(DigitsValue(s)) else None
  }

  /**
   * The company's most recent batch: the index of its batch with the
   * highest id, if it has one.
   */
  function Latest(bs: seq<Batch>, company: nat): (r: Option<nat>)
    ensures r.None? <==> forall j :: 0 <= j < |bs| ==> bs[j].product.company != company
    ensures r.Some? ==> r.value < |bs| && bs[r.value].product.company == company
    ensures r.Some? ==> forall j :: 0 <= j < |bs| && bs[j].product.company == company ==> bs[j].id <= bs[r.value].id
  {
    if bs == [] then None
    else
      var n := |bs| - 1;
      assert forall j :: 0 <= j < n ==> bs[..n][j] == bs[j];
      var earlier := Latest(bs[..n], company);
      if bs[n].product.company != company then earlier
      else if earlier.None? || bs[earlier.value].id < bs[n].id then Some(n)
      else earlier
  }

  /**
   * The number of the next lot after a batch with code `code`: one more than
   * the number ending that code, or 1 if the code is absent, empty or does
   * not end in a number.
   */
  function NextNumber(code: Option<string>): (n: nat)
    ensures n >= 1
  {
    if code == None || code == Some("") then 1
    else
      match ParseNat(LastSegment(code.value))
      case Some(last) => last + 1
      case None => 1
  }

  /** The code of the company's most recent batch; `None` when it has no batch or that batch has no code. */
  function LatestCode(bs: seq<Batch>, company: nat): Option<string> {
    var latest := Latest(bs, company);
    if latest.None? then None else bs[latest.value].code
  }

  /**
   * `_generate_batch_code(company_id)`: the default code for the company's
   * next lot, a `LOTE-` code whose number is the next after the latest code's.
   */
  function NextBatchCode(bs: seq<Batch>, company: nat): (s: string)
    ensures Prefix <= s
    ensures ParseNat(LastSegment(s)) == Some(NextNumber(LatestCode(bs, company)))
  {
    FormatCode(company, NextNumber(LatestCode(bs, company)))
  }

  /** Reading a decimal form back gives the number. */
  lemma {:induction false} DecimalRoundTrip(n: nat)
    ensures DigitsValue(Decimal(n)) == n
  {
    if n >= 10 {
      var s := Decimal(n);
      assert s[..|s| - 1] == Decimal(n / 10);
      DecimalRoundTrip(n / 10);
    }
  }

  /** Leading zeros do not change the number a string of digits denotes. */
  lemma {:induction false} LeadingZeros(k: nat, s: string)
    requires AllDigits(s)
    ensures DigitsValue(Zeros(k) + s) == DigitsValue(s)
  {
    if s == [] {
      assert Zeros(k) + s == Zeros(k);
      if k > 0 {
        assert Zeros(k)[..k - 1] == Zeros(k - 1);
        LeadingZeros(k - 1, s);
        assert Zeros(k - 1) + s == Zeros(k - 1);
      }
    } else {
      var n := |s| - 1;
      assert (Zeros(k) + s)[..|Zeros(k) + s| - 1] == Zeros(k) + s[..n];
      LeadingZeros(k, s[..n]);
    }
  }

  /** The padded form reads back as the number it pads. */
  lemma PadRoundTrip(n: nat)
    ensures ParseNat(Pad(n)) == Some(n)
  {
    DecimalRoundTrip(n);
    var d := Decimal(n);
    if |d| < Width {
      LeadingZeros(Width - |d|, d);
    }
  }

  /** What follows a separator that is followed by no other is the last segment. */
  lemma {:induction false} LastSegmentAfter(a: string, b: string)
    requires Separator !in b
    ensures LastSegment(a + [Separator] + b) == b
  {
    if b != [] {
      var n := |b| - 1;
      assert (a + [Separator] + b)[..|a| + 1 + n] == a + [Separator] + b[..n];
      LastSegmentAfter(a, b[..n]);
    }
  }

  /** The code that follows `LOTE-{c}-{n}` is `LOTE-{c}-{n + 1}`. */
  lemma CodeSuccessor(company: nat, n: nat)
    ensures NextNumber(Some(FormatCode(company, n))) == n + 1
  {
    assert FormatCode(company, n) != "";
  }

  /** Different numbers give different codes. */
  lemma FormatCodeInjective(company: nat, n: nat, m: nat)
    requires FormatCode(company, n) == FormatCode(company, m)
    ensures n == m
  {
    assert ParseNat(LastSegment(FormatCode(company, n))) == Some(n);
  }

  /** A company with no batch gets the code numbered 1. */
  lemma FirstCode(bs: seq<Batch>, company: nat)
    requires forall j :: 0 <= j < |bs| ==> bs[j].product.company != company
    ensures NextBatchCode(bs, company) == FormatCode(company, 1)
  {
  }

  /**
   * When the company's latest batch has no code, an empty code, or a code
   * whose last segment is not a number, the next default code is numbered 1.
   */
  lemma NextWithoutNumber(bs: seq<Batch>, company: nat)
    requires Latest(bs, company).Some?
    requires var code := bs[Latest(bs, company).value].code;
      code == None || code == Some("") || ParseNat(LastSegment(code.value)).None?
    ensures NextBatchCode(bs, company) == FormatCode(company, 1)
  {
  }

  /** When the latest batch's code ends in the number `v`, the next default code is numbered `v + 1`. */
  lemma NextAfterNumber(bs: seq<Batch>, company: nat, s: string, v: nat)
    requires Latest(bs, company).Some?
    requires bs[Latest(bs, company).value].code == Some(s)
    requires ParseNat(LastSegment(s)) == Some(v)
    ensures NextBatchCode(bs, company) == FormatCode(company, v + 1)
  {
    assert LatestCode(bs, company) == Some(s) && s != "";
    assert NextNumber(Some(s)) == v + 1;
  }

  /** After a batch coded `LOTE-{c}-{n}`, the company's next default code is `LOTE-{c}-{n + 1}`. */
  lemma NextAfterLatest(bs: seq<Batch>, company: nat, n: nat)
    requires Latest(bs, company).Some?
    requires bs[Latest(bs, company).value].code == Some(FormatCode(company, n))
    ensures NextBatchCode(bs, company) == FormatCode(company, n + 1)
  {
    CodeSuccessor(company, n);
  }

  /** Company 7 starts its lots at `LOTE-7-0001`, and `LOTE-7-0001` is followed by `LOTE-7-0002`. */
  lemma CompanySevenCodes()
    ensures FormatCode(7, 1) == "LOTE-7-0001"
    ensures NextNumber(Some("LOTE-7-0001")) == 2
    ensures FormatCode(7, 2) == "LOTE-7-0002"
  {
    assert Decimal(7) == "7";
    assert Pad(1) == "0001";
    assert FormatCode(7, 1) == "LOTE-7-0001";
    assert Pad(2) == "0002";
    CodeSuccessor(7, 1);
  }
}
