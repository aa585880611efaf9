/** Chapter keys of the progress map.

    A chapter is identified in the progress map by the string
    `<bookName>-<chapter>`, the chapter written in decimal the way a
    template literal renders a non-negative integer (no sign, no leading
    zeros). Chapter numbers are never negative, so the decimal part holds
    no '-' and the last '-' of a key separates the book name from the
    chapter: the encoding is injective even for book names that contain
    '-' themselves (ChapterKeyInjective).
 */
module Keys {

  /** The character of a decimal digit. */
  function DigitChar(d: nat): (c: char)
    requires d < 10
    ensures '0' <= c <= '9'
    ensures c as int - '0' as int == d
  {
    (48 + d) as char
  }

  /** Decimal rendering of a natural number, as `${n}` produces it. */
  function NatToString(n: nat): (r: string)
    ensures |r| >= 1
    ensures |r| == 1 <==> n < 10
    ensures forall i :: 0 <= i < |r| ==> '0' <= r[i] <= '9'
    decreases n
  {
    if n < 10 then [DigitChar(n)] else NatToString(n / 10) + [DigitChar(n % 10)]
  }

  /** The number a string of decimal digits denotes, most significant digit
      first. */
  function DecimalValue(s: string): nat
    requires forall i :: 0 <= i < |s| ==> '0' <= s[i] <= '9'
  {
    if s == [] then 0
    else 10 * DecimalValue(s[..|s| - 1]) + (s[|s| - 1] as int - '0' as int)
  }

  /** The rendering denotes `n` in decimal and, for a positive `n`, starts
      with a non-zero digit: the only leading zero is that of "0" itself. */
  lemma {:induction false} NatToStringValue(n: nat)
    ensures DecimalValue(NatToString(n)) == n
    ensures n >= 1 ==> NatToString(n)[0] != '0'
    decreases n
  {
    var s := NatToString(n);
    if n >= 10 {
      NatToStringValue(n / 10);
      assert s[..|s| - 1] == NatToString(n / 10);
      assert s[0] == NatToString(n / 10)[0];
    }
  }

  /** Distinct numbers have distinct renderings. */
  lemma {:induction false} NatToStringInjective(m: nat, n: nat)
    requires NatToString(m) == NatToString(n)
    ensures m == n
    decreases m
  {
    var s := NatToString(m);
    if m < 10 || n < 10 {
      assert m < 10 && n < 10;
      assert s[0] == DigitChar(m) && s[0] == DigitChar(n);
    } else {
      var k := |s| - 1;
      assert s[k] == DigitChar(m % 10) && s[k] == DigitChar(n % 10);
      assert s[..k] == NatToString(m / 10) && s[..k] == NatToString(n / 10);
      NatToStringInjective(m / 10, n / 10);
    }
  }

  /** The key under which chapter `chapter` of book `bookName` is recorded. */
  function ChapterKey(bookName: string, chapter: nat): (k: string)
    ensures |k| == |bookName| + 1 + |NatToString(chapter)|
    ensures k[|bookName|] == '-'
  {
    bookName + "-" + NatToString(chapter)
  }

  /** Splitting at the last '-': if two strings `x-d` and `y-e` are equal and
      `d`, `e` contain no '-', then `x == y` and `d == e`. */
  lemma SplitAtLastDash(x: string, d: string, y: string, e: string)
    requires forall i :: 0 <= i < |d| ==> d[i] != '-'
    requires forall i :: 0 <= i < |e| ==> e[i] != '-'
    requires x + "-" + d == y + "-" + e
    ensures x == y && d == e
  {
    var s := x + "-" + d;
    assert s == y + "-" + e;
    assert s[|x|] == '-' && s[|y|] == '-';
    assert forall i :: |x| < i < |s| ==> s[i] == d[i - |x| - 1] != '-';
    assert forall i :: |y| < i < |s| ==> s[i] == e[i - |y| - 1] != '-';
    assert |x| == |y|;
    assert x == s[..|x|] && y == s[..|y|];
    assert d == s[|x| + 1..] && e == s[|y| + 1..];
  }

  /** Distinct (book, chapter) pairs have distinct keys, whatever characters
      the book names contain. */
  lemma ChapterKeyInjective(a: string, i: nat, b: string, j: nat)
    requires ChapterKey(a, i) == ChapterKey(b, j)
    ensures a == b && i == j
  {
    var d, e := NatToString(i), NatToString(j);
    SplitAtLastDash(a, d, b, e);
    NatToStringInjective(i, j);
  }
}
