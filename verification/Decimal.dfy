/** Decimal text: `str(int)` and `int(str)`, shared by ids, counters and slug suffixes. */
module Decimal {
  import opened Prelude
  import Text

  predicate IsDigit(c: char) {
    '0' <= c <= '9'
  }

  predicate AllDigits(s: string) {
    forall c :: c in s ==> IsDigit(c)
  }

  function DigitChar(d: nat): (c: char)
    requires d < 10
    ensures IsDigit(c) && c as int == '0' as int + d
  {
    (d + '0' as int) as char
  }

  function Print(n: nat): (s: string)
    ensures s != "" && AllDigits(s)
  {
    if n < 10 then [DigitChar(n)] else Print(n / 10) + [DigitChar(n % 10)]
  }

  /** `str(n)`. */
  function Str(n: int): string {
    if n < 0 then "-" + Print(-n) else Print(n)
  }

  function Value(s: string): nat
    requires AllDigits(s)
  {
    if s == "" then 0
    else
      var last := s[|s| - 1];
      assert last in s;
      Value(s[..|s| - 1]) * 10 + (last as int - '0' as int)
  }

  function DropUnderscores(s: string): (r: string)
    requires forall c :: c in s ==> IsDigit(c) || c == '_'
    ensures AllDigits(r)
    ensures AllDigits(s) ==> r == s
  {
    if s == "" then ""
    else
      assert s == [s[0]] + s[1..] && s[0] in s;
      (if s[0] == '_' then "" else [s[0]]) + DropUnderscores(s[1..])
  }

  /** Digits with single underscores between them, as Python's integer literals allow. */
  predicate IsDigitBody(s: string) {
    && s != "" && IsDigit(s[0]) && IsDigit(s[|s| - 1])
    && (forall c :: c in s ==> IsDigit(c) || c == '_')
    && (forall i :: 0 <= i < |s| - 1 ==> s[i] == '_' ==> s[i + 1] != '_')
  }

  /** `int(text)` on ASCII digits; `None` where Python raises `ValueError`. */
  function Parse(text: string): Option<int> {
    var s := Text.Strip(text);
    var negative := s != "" && s[0] == '-';
    var body := if s != "" && (s[0] == '-' || s[0] == '+') then s[1..] else s;
    if IsDigitBody(body) then
      var v: int := Value(DropUnderscores(body));
      Some(if negative then -v else v)
    else None
  }

  lemma {:induction false} ValuePrint(n: nat)
    ensures Value(Print(n)) == n
  {
    if n >= 10 {
      ValuePrint(n / 10);
      var s := Print(n);
      assert s[..|s| - 1] == Print(n / 10);
    } else {
      assert Value([DigitChar(n)][..0]) == 0;
    }
  }

  lemma DigitsAreTrimmed(s: string)
    requires s != "" && AllDigits(s)
    ensures Text.Trimmed(Text.IsSpace, s) && Text.Trimmed(Text.IsSpace, "-" + s)
  {
    assert IsDigit(s[0]) && IsDigit(s[|s| - 1]);
    var negated := "-" + s;
    assert negated[0] == '-' && negated[|negated| - 1] == s[|s| - 1];
  }

  lemma DigitsAreBody(s: string)
    requires s != "" && AllDigits(s)
    ensures IsDigitBody(s) && DropUnderscores(s) == s
    ensures s[0] != '-' && s[0] != '+'
  {
    assert forall i :: 0 <= i < |s| ==> IsDigit(s[i]);
  }

  /** `int(str(n)) == n`. */
  lemma ParseStr(n: int)
    ensures Parse(Str(n)) == Some(n)
  {
    ParsePrint(if n < 0 then -n else n);
  }

  lemma ParsePrint(n: nat)
    ensures Parse(Print(n)) == Some(n)
    ensures Parse("-" + Print(n)).Some? && Parse("-" + Print(n)).value + n == 0
  {
    ValuePrint(n);
    DigitsAreBody(Print(n));
    DigitsAreTrimmed(Print(n));
    var negated := "-" + Print(n);
    assert negated[0] == '-' && negated[1..] == Print(n);
  }

  lemma StrInjective(m: int, n: int)
    ensures Str(m) == Str(n) <==> m == n
  {
    ParseStr(m);
    ParseStr(n);
  }

  lemma StrChars(n: int)
    ensures forall c :: c in Str(n) ==> IsDigit(c) || c == '-'
  {
  }

  function Pow10(k: nat): (p: nat)
    ensures p >= 1
  {
    if k == 0 then 1 else 10 * Pow10(k - 1)
  }

  /** A number below 10^k prints in at most k digits. */
  lemma {:induction false} PrintLength(n: nat, k: nat)
    requires k >= 1 && n < Pow10(k)
    ensures |Print(n)| <= k
  {
    if n >= 10 {
      assert Pow10(1) == 10;
      assert n / 10 < Pow10(k - 1);
      PrintLength(n / 10, k - 1);
    }
  }
}
