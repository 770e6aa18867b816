/**
 * Character classes and text scanning shared by the directive recognizer:
 * Python's `\s`, the classes `\S`, `[0-9]` and `[a-z0-9+-]`, the longest run of a
 * class, and Python's `int()` on the index texts the directive pattern lets through.
 */
module Text {
  import opened Wrappers

  /** Python's `\s` on str patterns: exactly the characters for which str.isspace() holds. */
  predicate IsSpace(c: char) {
    var k := c as int;
    || 0x09 <= k <= 0x0D
    || 0x1C <= k <= 0x20
    || k == 0x85
    || k == 0xA0
    || k == 0x1680
    || 0x2000 <= k <= 0x200A
    || k == 0x2028
    || k == 0x2029
    || k == 0x202F
    || k == 0x205F
    || k == 0x3000
  }

  /** Python's `\S`. */
  predicate IsToken(c: char) {
    !IsSpace(c)
  }

  /** The ASCII class `[0-9]`. */
  predicate IsDigit(c: char) {
    '0' <= c <= '9'
  }

  /** The class `[a-z0-9\+\-]` of the language clause. */
  predicate IsLanguageChar(c: char) {
    'a' <= c <= 'z' || IsDigit(c) || c == '+' || c == '-'
  }

  /** Every character of `s` is in class `p`. */
  predicate All(s: string, p: char -> bool) {
    forall i :: 0 <= i < |s| ==> p(s[i])
  }

  lemma AllConcat(a: string, b: string, p: char -> bool)
    ensures All(a + b, p) <==> All(a, p) && All(b, p)
  {
    if All(a, p) && All(b, p) {
      forall i | 0 <= i < |a + b| ensures p((a + b)[i]) {
        if i >= |a| {
          assert (a + b)[i] == b[i - |a|];
        }
      }
    }
    if All(a + b, p) {
      forall i | 0 <= i < |a| ensures p(a[i]) {
        assert (a + b)[i] == a[i];
      }
      forall i | 0 <= i < |b| ensures p(b[i]) {
        assert (a + b)[|a| + i] == b[i];
      }
    }
  }

  /** `s` is empty or begins with a character outside class `p`. */
  predicate StartsOutside(s: string, p: char -> bool) {
    s == [] || !p(s[0])
  }

  /** Length of the longest prefix of `s` in class `p` (a greedy `p*`). */
  function Run(s: string, p: char -> bool): (n: nat)
    ensures n <= |s|
    ensures All(s[..n], p)
    ensures StartsOutside(s[n..], p)
  {
    if s == [] || !p(s[0]) then 0 else 1 + Run(s[1..], p)
  }

  /** A greedy run over `w + t` stops exactly at the end of `w` when `t` does not continue it. */
  lemma {:induction false} RunOf(w: string, t: string, p: char -> bool)
    requires All(w, p)
    requires StartsOutside(t, p)
    ensures Run(w + t, p) == |w|
  {
    if w != [] {
      assert (w + t)[1..] == w[1..] + t;
      RunOf(w[1..], t, p);
    } else {
      assert w + t == t;
    }
  }

  /** The text of `-?[0-9]*`, sign removed. */
  function Unsigned(t: string): string {
    if |t| > 0 && t[0] == '-' then t[1..] else t
  }

  /** `t` matches `-?[0-9]*`. */
  predicate IsIndexText(t: string) {
    All(Unsigned(t), IsDigit)
  }

  /** An index text holds no blank. */
  lemma IndexTextIsToken(t: string)
    requires IsIndexText(t)
    ensures All(t, IsToken)
  {
    if |t| > 0 && t[0] == '-' {
      assert t == "-" + t[1..];
      AllConcat("-", t[1..], IsToken);
    }
  }

  /** Length of the greedy match of `-?[0-9]*` at the start of `s`. */
  function IndexRun(s: string): (n: nat)
    ensures n <= |s|
    ensures IsIndexText(s[..n])
    ensures |s| > 0 && s[0] == '-' ==> n >= 1
    ensures n < |s| ==> !IsDigit(s[n])
  {
    if |s| > 0 && s[0] == '-' then
      var k := Run(s[1..], IsDigit);
      assert Unsigned(s[..1 + k]) == s[1..][..k];
      assert s[1..][k..] == s[1 + k..];
      1 + k
    else
      var k := Run(s, IsDigit);
      assert k > 0 ==> s[..k][0] != '-';
      k
  }

  /** `-?[0-9]*` matched greedily over `x + t` takes exactly `x` when `t` cannot extend it. */
  lemma IndexRunOf(x: string, t: string)
    requires IsIndexText(x)
    requires t != [] && !IsDigit(t[0]) && t[0] != '-'
    ensures IndexRun(x + t) == |x|
  {
    if |x| > 0 && x[0] == '-' {
      assert (x + t)[1..] == x[1..] + t;
      RunOf(x[1..], t, IsDigit);
    } else {
      RunOf(x, t, IsDigit);
    }
  }

  function DigitValue(c: char): nat
    requires IsDigit(c)
  {
    (c as int) - ('0' as int)
  }

  function DigitChar(d: nat): (c: char)
    requires d < 10
    ensures IsDigit(c) && DigitValue(c) == d
  {
    ('0' as int + d) as char
  }

  /** The value of a string of decimal digits, most significant first. */
  function DigitsValue(d: string): nat
    requires All(d, IsDigit)
  {
    if d == [] then 0 else 10 * DigitsValue(d[..|d| - 1]) + DigitValue(d[|d| - 1])
  }

  /**
   * Python's int() on a text of the shape `-?[0-9]*`: an optional minus sign and at
   * least one digit give the number; an empty text or a bare "-" raise (None here).
   */
  function IntLiteral(t: string): (r: Option<int>)
    ensures r.Some? <==> IsIndexText(t) && Unsigned(t) != []
    ensures r.Some? ==> (r.value < 0 ==> t[0] == '-') && (t[0] != '-' ==> r.value >= 0)
  {
    if |t| > 0 && t[0] == '-' then
      if |t| > 1 && All(t[1..], IsDigit) then Some(-(DigitsValue(t[1..]) as int)) else None
    else if |t| > 0 && All(t, IsDigit) then Some(DigitsValue(t))
    else None
  }

  /** Decimal rendering of a natural number, without leading zeros. */
  function NatText(n: nat): (t: string)
    ensures t != [] && All(t, IsDigit)
    ensures t[0] != '-'
  {
    if n < 10 then [DigitChar(n)] else NatText(n / 10) + [DigitChar(n % 10)]
  }

  /** Decimal rendering of an integer, with a leading "-" when negative (Python's str()). */
  function IntText(n: int): (t: string)
    ensures IsIndexText(t) && Unsigned(t) != []
  {
    if n < 0 then "-" + NatText(-n) else NatText(n)
  }

  lemma {:induction false} NatTextValue(n: nat)
    ensures DigitsValue(NatText(n)) == n
  {
    if n >= 10 {
      var t := NatText(n);
      assert t[..|t| - 1] == NatText(n / 10);
      NatTextValue(n / 10);
    }
  }

  /** int(str(n)) == n: reading back a rendered integer gives the integer. */
  lemma IntLiteralOfIntText(n: int)
    ensures IntLiteral(IntText(n)) == Some(n)
  {
    if n < 0 {
      assert IntText(n)[1..] == NatText(-n);
      NatTextValue(-n);
    } else {
      NatTextValue(n);
    }
  }

  /** Leading zeros do not change the value read by int(). */
  lemma {:induction false} LeadingZero(d: string)
    requires All(d, IsDigit)
    ensures DigitsValue("0" + d) == DigitsValue(d)
  {
    if d != [] {
      assert ("0" + d)[..|"0" + d| - 1] == "0" + d[..|d| - 1];
      LeadingZero(d[..|d| - 1]);
    }
  }
}
