/** The age input's text-to-number coercion, `parseInt(value, 10) || 0`.
    `ParseInt` follows the steps of `parseInt` with radix 10: drop leading white space and line
    terminators, read one optional sign, then read the longest run of decimal digits. An empty
    run gives NaN, written `None` here. `|| 0` turns NaN and 0 into 0. */
module AgeInput {
  import opened Records

  predicate IsDigit(c: char)
  {
    '0' <= c <= '9'
  }

  /** The characters `parseInt` trims from the front: the ECMAScript WhiteSpace set
      (TAB, VT, FF, ZWNBSP and the space separators) and the LineTerminator set. */
  predicate IsSpace(c: char)
  {
    || c == '\t' || c == '\n' || c == '\U{B}' || c == '\U{C}' || c == '\r'
    || c == ' ' || c == '\U{A0}' || c == '\U{1680}'
    || ('\U{2000}' <= c <= '\U{200A}')
    || c == '\U{2028}' || c == '\U{2029}' || c == '\U{202F}' || c == '\U{205F}'
    || c == '\U{3000}' || c == '\U{FEFF}'
  }

  predicate AllDigits(s: string)
  {
    forall i :: 0 <= i < |s| ==> IsDigit(s[i])
  }

  function DigitValue(c: char): (v: nat)
    requires IsDigit(c)
    ensures v < 10
  {
    c as int - '0' as int
  }

  function DigitChar(v: nat): (c: char)
    requires v < 10
    ensures IsDigit(c) && DigitValue(c) == v
  {
    ('0' as int + v) as char
  }

  /** The number a run of decimal digits denotes, most significant digit first. */
  function DigitsValue(ds: string): nat
    requires AllDigits(ds)
  {
    if ds == [] then 0 else DigitsValue(ds[..|ds| - 1]) * 10 + DigitValue(ds[|ds| - 1])
  }

  /** The first index at or after `i` that does not hold white space. */
  function SkipSpaces(s: string, i: nat): (j: nat)
    requires i <= |s|
    ensures i <= j <= |s|
    decreases |s| - i
  {
    if i < |s| && IsSpace(s[i]) then SkipSpaces(s, i + 1) else i
  }

  /** The end of the run of decimal digits that starts at `i`. */
  function DigitsEnd(s: string, i: nat): (j: nat)
    requires i <= |s|
    ensures i <= j <= |s|
    ensures AllDigits(s[i..j])
    ensures j == |s| || !IsDigit(s[j])
    decreases |s| - i
  {
    if i < |s| && IsDigit(s[i]) then DigitsEnd(s, i + 1) else i
  }

  /** `s[..i]` is the leading white space of `s`: all of it, and nothing more. */
  predicate LeadingSpaces(s: string, i: nat)
    requires i <= |s|
  {
    (forall m :: 0 <= m < i ==> IsSpace(s[m])) && (i == |s| || !IsSpace(s[i]))
  }

  /** At `i`, after one optional sign, a decimal digit follows. */
  predicate DigitAfterSign(s: string, i: nat)
    requires i <= |s|
  {
    var j := if i < |s| && (s[i] == '-' || s[i] == '+') then i + 1 else i;
    j < |s| && IsDigit(s[j])
  }

  /** Once its leading white space and one optional sign are removed, `s` starts with a
      decimal digit. */
  predicate StartsWithNumber(s: string)
  {
    exists i :: 0 <= i <= |s| && LeadingSpaces(s, i) && DigitAfterSign(s, i)
  }

  /** `SkipSpaces` stops at the end of the white space that starts at `i`. */
  lemma {:induction false} SkipSpacesStops(s: string, i: nat)
    requires i <= |s|
    ensures forall m :: i <= m < SkipSpaces(s, i) ==> IsSpace(s[m])
    ensures SkipSpaces(s, i) == |s| || !IsSpace(s[SkipSpaces(s, i)])
    decreases |s| - i
  {
    if i < |s| && IsSpace(s[i]) {
      SkipSpacesStops(s, i + 1);
    }
  }

  /** Whether `s` starts with a number is decided at the index where `SkipSpaces` stops. */
  lemma StartsWithNumberAt(s: string)
    ensures StartsWithNumber(s) <==> DigitAfterSign(s, SkipSpaces(s, 0))
  {
    var i0 := SkipSpaces(s, 0);
    SkipSpacesStops(s, 0);
    assert LeadingSpaces(s, i0);
    assert forall i :: 0 <= i <= |s| && LeadingSpaces(s, i) ==> i == i0;
  }

  /** `parseInt(s, 10)`, with `None` for NaN. It is NaN exactly when `s` does not start with a
      decimal digit once its leading white space and one optional sign are removed. */
  function ParseInt(s: string): (r: Option<int>)
    ensures r == None <==> !StartsWithNumber(s)
  {
    StartsWithNumberAt(s);
    var i := SkipSpaces(s, 0);
    var signed := i < |s| && (s[i] == '-' || s[i] == '+');
    var j := if signed then i + 1 else i;
    var k := DigitsEnd(s, j);
    if k == j then None
    else
      var magnitude: int := DigitsValue(s[j..k]);
      Some(if signed && s[i] == '-' then -magnitude else magnitude)
  }

  /** `parseInt(value, 10) || 0`: NaN is falsy and becomes 0; a parsed 0 stays 0. So the result
      is 0 for text that does not start with a number, and the parsed integer otherwise. */
  function CoerceAge(value: string): (age: int)
    ensures !StartsWithNumber(value) ==> age == 0
    ensures StartsWithNumber(value) ==> ParseInt(value) == Some(age)
  {
    match ParseInt(value)
    case Some(n) => n
    case None => 0
  }

  /** The decimal rendering of a natural number, without leading zeros. */
  function ShowNat(n: nat): (s: string)
    ensures |s| > 0 && AllDigits(s)
  {
    if n < 10 then [DigitChar(n)] else ShowNat(n / 10) + [DigitChar(n % 10)]
  }

  /** The decimal rendering of an integer, with a leading '-' when it is negative. */
  function ShowInt(n: int): string
  {
    if n < 0 then "-" + ShowNat(-n) else ShowNat(n)
  }

  /** Reading back a rendered natural number gives that number. */
  lemma {:induction false} DigitsValueShow(n: nat)
    ensures DigitsValue(ShowNat(n)) == n
  {
    if n >= 10 {
      var s := ShowNat(n);
      assert s[..|s| - 1] == ShowNat(n / 10);
      DigitsValueShow(n / 10);
    }
  }

  /** `DigitsEnd` stops exactly where a known run of digits stops. */
  lemma DigitsEndAt(s: string, i: nat, k: nat)
    requires i <= k <= |s|
    requires forall m :: i <= m < k ==> IsDigit(s[m])
    requires k == |s| || !IsDigit(s[k])
    ensures DigitsEnd(s, i) == k
  {
  }

  /** `SkipSpaces` stops exactly where a known run of white space stops. */
  lemma {:induction false} SkipSpacesAt(s: string, i: nat, k: nat)
    requires i <= k <= |s|
    requires forall m :: i <= m < k ==> IsSpace(s[m])
    requires k == |s| || !IsSpace(s[k])
    ensures SkipSpaces(s, i) == k
    decreases k - i
  {
    if i < k {
      SkipSpacesAt(s, i + 1, k);
    }
  }

  /** How `ParseInt` reads a text laid out as white space up to `i`, an optional sign at `i`,
      and a non-empty run of digits from `j` to `k` followed by a non-digit or the end:
      leading white space is skipped, trailing text is ignored. */
  lemma ParseIntLayout(s: string, i: nat, j: nat, k: nat)
    requires i <= j < k <= |s|
    requires forall m :: 0 <= m < i ==> IsSpace(s[m])
    requires !IsSpace(s[i])
    requires j == if s[i] == '-' || s[i] == '+' then i + 1 else i
    requires forall m :: j <= m < k ==> IsDigit(s[m])
    requires k == |s| || !IsDigit(s[k])
    ensures AllDigits(s[j..k])
    ensures ParseInt(s) == Some(if s[i] == '-' then -(DigitsValue(s[j..k]) as int) else DigitsValue(s[j..k]))
  {
    SkipSpacesAt(s, 0, i);
    DigitsEndAt(s, j, k);
  }

  /** Round trip: the decimal text of any integer parses back to it, and the age coercion
      keeps it. */
  lemma ParseIntShow(n: int)
    ensures ParseInt(ShowInt(n)) == Some(n)
    ensures CoerceAge(ShowInt(n)) == n
  {
    var magnitude: nat := if n < 0 then -n else n;
    var j := if n < 0 then 1 else 0;
    ShowIntLayout(n);
    ParseIntLayout(ShowInt(n), 0, j, |ShowInt(n)|);
    DigitsValueShow(magnitude);
  }

  /** The rendering of `n` is an optional '-' followed by the digits of its magnitude. */
  lemma ShowIntLayout(n: int)
    ensures var s, j := ShowInt(n), if n < 0 then 1 else 0;
      && j < |s| && !IsSpace(s[0])
      && (s[0] == '-' <==> n < 0) && s[0] != '+'
      && (forall m :: j <= m < |s| ==> IsDigit(s[m]))
      && s[j..|s|] == ShowNat(if n < 0 then -n else n)
  {
    var digits := ShowNat(if n < 0 then -n else n);
    var s := ShowInt(n);
    var j := if n < 0 then 1 else 0;
    assert s[j..] == digits;
    assert s[0] == if n < 0 then '-' else digits[0];
    forall m | j <= m < |s|
      ensures IsDigit(s[m])
    {
      assert s[m] == digits[m - j];
    }
  }

  /** Text without a single decimal digit does not parse, and the age coercion stores 0
      ("abc" gives 0, "" gives 0). */
  lemma NoDigitsCoerceToZero(value: string)
    requires forall i :: 0 <= i < |value| ==> !IsDigit(value[i])
    ensures ParseInt(value) == None
    ensures CoerceAge(value) == 0
  {
  }
}
