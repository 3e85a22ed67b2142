/** Powers of ten, and decimals padded with zeros to one width. */
module Decimal {
  import Text

  function Pow10(n: nat): (p: nat)
    ensures p > 0
  {
    if n == 0 then 1 else 10 * Pow10(n - 1)
  }

  /** Decimal digits, padded with zeros to the width. */
  function Digits(n: nat, width: nat): (s: string)
    ensures |s| == width
  {
    if width == 0 then "" else Digits(n / 10, width - 1) + [('0' as int + n % 10) as char]
  }

  lemma LeqStep(a: string, b: string)
    requires a != [] && b != []
    ensures Text.Leq(a, b) <==> if a[0] != b[0] then a[0] < b[0] else Text.Leq(a[1..], b[1..])
  {
  }

  lemma {:induction false} LeqSnoc(a: string, b: string, c: char, d: char)
    requires |a| == |b|
    ensures Text.Leq(a + [c], b + [d]) <==> if a == b then c <= d else Text.Leq(a, b)
  {
    LeqStep(a + [c], b + [d]);
    if a == [] {
      assert a + [c] == [c] && b + [d] == [d] && [c][1..] == [] && [d][1..] == [];
    } else {
      LeqStep(a, b);
      hide Text.Leq;
      assert (a + [c])[0] == a[0] && (b + [d])[0] == b[0];
      assert (a + [c])[1..] == a[1..] + [c] && (b + [d])[1..] == b[1..] + [d];
      LeqSnoc(a[1..], b[1..], c, d);
      assert a == [a[0]] + a[1..] && b == [b[0]] + b[1..];
    }
  }

  lemma {:induction false} DigitsOrder(m: nat, n: nat, width: nat)
    requires m < Pow10(width) && n < Pow10(width)
    ensures Digits(m, width) == Digits(n, width) <==> m == n
    ensures Text.Leq(Digits(m, width), Digits(n, width)) <==> m <= n
  {
    if width > 0 {
      var a, b := Digits(m / 10, width - 1), Digits(n / 10, width - 1);
      var c, d := ('0' as int + m % 10) as char, ('0' as int + n % 10) as char;
      DigitsOrder(m / 10, n / 10, width - 1);
      LeqSnoc(a, b, c, d);
      assert (a + [c] == b + [d]) <==> a == b && c == d by {
        assert (a + [c])[..width - 1] == a && (b + [d])[..width - 1] == b;
        assert (a + [c])[width - 1] == c && (b + [d])[width - 1] == d;
      }
    }
  }
}
