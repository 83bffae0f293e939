/** Decimal numerals as Go prints and reads them. */
module Decimal {
  import opened Money

  const MAX_INT64 := 0x7FFF_FFFF_FFFF_FFFF

  predicate IsDigit(c: char) {
    '0' <= c <= '9'
  }

  predicate AllDigits(s: string) {
    forall i | 0 <= i < |s| :: IsDigit(s[i])
  }

  /** Where the digits from `i` on end. */
  function DigitEnd(s: string, i: nat): (j: nat)
    requires i <= |s|
    ensures i <= j <= |s| && (forall k | i <= k < j :: IsDigit(s[k])) && (j < |s| ==> !IsDigit(s[j]))
    decreases |s| - i
  {
    if i < |s| && IsDigit(s[i]) then DigitEnd(s, i + 1) else i
  }

  function Digit(d: nat): (c: char)
    requires d < 10
    ensures IsDigit(c)
  {
    '0' + d as char
  }

  function Digits(n: nat): (s: string)
    ensures s != [] && AllDigits(s)
  {
    if n < 10 then [Digit(n)] else Digits(n / 10) + [Digit(n % 10)]
  }

  function Value(s: string): nat
    requires AllDigits(s)
  {
    if s == [] then 0 else 10 * Value(s[..|s| - 1]) + (s[|s| - 1] - '0') as nat
  }

  /** `strconv.Itoa`. */
  function Itoa(n: int): string {
    if n < 0 then "-" + Digits(-n) else Digits(n)
  }

  /** `strconv.Atoi` and `strconv.ParseInt(s, 10, 64)`: one optional sign, then digits, within 64 bits. */
  function ParseInt(s: string): Option<int> {
    if s == [] then None
    else
      var body := if s[0] == '-' || s[0] == '+' then s[1..] else s;
      if body == [] || !AllDigits(body) then None
      else if s[0] == '-' then
        if Value(body) > MAX_INT64 + 1 then None else Some(0 - Value(body))
      else
        if Value(body) > MAX_INT64 then None else Some(Value(body))
  }

  /** What reads as a number: digits, at most one sign before them, within 64 bits; nothing else. */
  lemma ReadsAsNumber(s: string)
    ensures s != [] && AllDigits(s) ==> ParseInt(s) == if Value(s) < 0x8000_0000_0000_0000 then Some(Value(s)) else None
    ensures s != [] && AllDigits(s) ==> ParseInt("+" + s) == ParseInt(s)
    ensures s != [] && AllDigits(s) ==>
              ParseInt("-" + s) == if Value(s) <= 0x8000_0000_0000_0000 then Some(0 - Value(s)) else None
    ensures ParseInt(s).Some? ==>
              s != [] && (AllDigits(s) || ((s[0] == '+' || s[0] == '-') && s[1..] != [] && AllDigits(s[1..])))
  {
    if s != [] && AllDigits(s) {
      SignedReads(s);
    }
  }

  lemma SignedReads(s: string)
    requires s != [] && AllDigits(s)
    ensures ParseInt("+" + s) == if Value(s) <= MAX_INT64 then Some(Value(s)) else None
    ensures ParseInt("-" + s) == if Value(s) <= MAX_INT64 + 1 then Some(0 - Value(s)) else None
  {
    var (plus, minus) := ("+" + s, "-" + s);
    assert plus[1..] == s && minus[1..] == s;
  }

  lemma {:induction false} ValueOfDigits(n: nat)
    ensures Value(Digits(n)) == n
  {
    if n >= 10 {
      ValueOfDigits(n / 10);
      assert Digits(n)[..|Digits(n)| - 1] == Digits(n / 10);
    }
  }

  /** Reading back what was printed gives the number, exactly over the 64-bit range. */
  lemma PrintParse(n: int)
    ensures ParseInt(Itoa(n)) == if -MAX_INT64 - 1 <= n <= MAX_INT64 then Some(n) else None
  {
    var m := if n < 0 then -n else n;
    ValueOfDigits(m);
    assert IsDigit(Digits(m)[0]);
    if n < 0 {
      assert Itoa(n)[1..] == Digits(m);
    }
  }

  /** No numeral of a natural number holds a separator. */
  lemma NoSeparator(n: nat, sep: char)
    requires !IsDigit(sep)
    ensures sep !in Itoa(n)
  {
  }

  lemma PrintInjective(a: nat, b: nat)
    requires Itoa(a) == Itoa(b)
    ensures a == b
  {
    ValueOfDigits(a);
    ValueOfDigits(b);
  }
}
