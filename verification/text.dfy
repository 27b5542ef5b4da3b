/** Rendering of numbers in JavaScript template literals, and the one fact about
    dash-separated strings that card ids and default player names rely on. */
module Text {

  /** The character of decimal digit `d`. */
  function DigitChar(d: nat): (c: char)
    requires d < 10
    ensures '0' <= c <= '9'
    ensures c as int - '0' as int == d
  {
    ('0' as int + d) as char
  }

  /** `${n}` for a non-negative integer: decimal, no leading zeros. */
  function NatToString(n: nat): (s: string)
    ensures |s| >= 1
    ensures |s| == 1 <==> n < 10
    ensures forall k :: 0 <= k < |s| ==> '0' <= s[k] <= '9'
    decreases n
  {
    if n < 10 then [DigitChar(n)] else NatToString(n / 10) + [DigitChar(n % 10)]
  }

  /** Different numbers render differently. */
  lemma {:induction false} NatToStringInjective(m: nat, n: nat)
    requires NatToString(m) == NatToString(n)
    ensures m == n
    decreases m
  {
    if m < 10 || n < 10 {
      assert m < 10 && n < 10;
      assert NatToString(m)[0] == DigitChar(m);
      assert NatToString(n)[0] == DigitChar(n);
    } else {
      var sm, sn := NatToString(m), NatToString(n);
      assert sm == NatToString(m / 10) + [DigitChar(m % 10)];
      assert sn == NatToString(n / 10) + [DigitChar(n % 10)];
      assert |NatToString(m / 10)| == |NatToString(n / 10)|;
      assert NatToString(m / 10) == sm[..|sm| - 1] == sn[..|sn| - 1] == NatToString(n / 10);
      assert DigitChar(m % 10) == sm[|sm| - 1] == sn[|sn| - 1] == DigitChar(n % 10);
      NatToStringInjective(m / 10, n / 10);
    }
  }

  /** Splitting at the first dash: when the heads carry no dash, `a-b` determines `a` and `b`. */
  lemma SplitAtDash(a: string, b: string, c: string, d: string)
    requires '-' !in a && '-' !in c
    requires a + "-" + b == c + "-" + d
    ensures a == c && b == d
  {
    var x := a + "-" + b;
    assert forall k :: 0 <= k < |a| ==> x[k] == a[k];
    assert forall k :: 0 <= k < |c| ==> x[k] == c[k];
    assert x[|a|] == '-' && x[|c|] == '-';
    assert |a| == |c|;
    assert a == x[..|a|] == c;
    assert b == x[|a| + 1..] == d;
  }
}
