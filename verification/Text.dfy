/** Text in the C collation. A Dafny `char` is a Unicode scalar value, and the byte order
    of UTF-8 is the order of scalar values, so `COLLATE "C"` is plain lexicographic order. */
module Text {

  predicate Leq(a: string, b: string)
  {
    if a == [] then true
    else if b == [] then false
    else if a[0] != b[0] then a[0] < b[0]
    else Leq(a[1..], b[1..])
  }

  lemma {:induction false} LeqReflexive(a: string)
    ensures Leq(a, a)
    decreases |a|
  {
    if a != [] { LeqReflexive(a[1..]); }
  }

  lemma {:induction false} LeqTotal(a: string, b: string)
    ensures Leq(a, b) || Leq(b, a)
    decreases |a|
  {
    if a != [] && b != [] && a[0] == b[0] { LeqTotal(a[1..], b[1..]); }
  }

  lemma {:induction false} LeqAntisymmetric(a: string, b: string)
    requires Leq(a, b) && Leq(b, a)
    ensures a == b
    decreases |a|
  {
    if a != [] && b != [] {
      LeqAntisymmetric(a[1..], b[1..]);
      assert a == [a[0]] + a[1..] && b == [b[0]] + b[1..];
    }
  }

  lemma LeqAntisymmetricAll()
    ensures forall a, b :: Leq(a, b) && Leq(b, a) ==> a == b
  {
    forall a, b | Leq(a, b) && Leq(b, a) ensures a == b { LeqAntisymmetric(a, b); }
  }

  lemma {:induction false} LeqTransitive(a: string, b: string, c: string)
    requires Leq(a, b) && Leq(b, c)
    ensures Leq(a, c)
    decreases |a|
  {
    if a != [] && a[0] == b[0] && b[0] == c[0] { LeqTransitive(a[1..], b[1..], c[1..]); }
  }

  /** Text is ordered by its first difference. */
  lemma {:induction false} LeqAt(a: string, b: string, i: nat)
    requires i < |a| && i < |b| && a[..i] == b[..i] && a[i] < b[i]
    ensures Leq(a, b) && a != b
    decreases i
  {
    if i > 0 {
      assert a[0] == a[..i][0] && b[0] == b[..i][0];
      assert a[1..][..i - 1] == a[..i][1..] && b[1..][..i - 1] == b[..i][1..];
      LeqAt(a[1..], b[1..], i - 1);
    }
  }

  /** The first difference of the two texts is smaller in the first. */
  ghost predicate SmallerAt(a: string, b: string, i: nat)
  {
    i < |a| && i < |b| && a[..i] == b[..i] && a[i] < b[i]
  }

  /** The order is that of the first difference, and a text comes before its extensions. */
  lemma {:induction false} LeqExactly(a: string, b: string)
    ensures Leq(a, b) <==> a <= b || exists i: nat :: SmallerAt(a, b, i)
    decreases |a|
  {
    if i: nat :| SmallerAt(a, b, i) { LeqAt(a, b, i); }
    if a <= b { LeqPrefix(a, b[|a|..]); assert a + b[|a|..] == b; }
    if Leq(a, b) && a != [] && b != [] {
      if a[0] < b[0] {
        assert SmallerAt(a, b, 0);
      } else {
        LeqExactly(a[1..], b[1..]);
        if i: nat :| SmallerAt(a[1..], b[1..], i) {
          assert a[..i + 1] == [a[0]] + a[1..][..i] && b[..i + 1] == [b[0]] + b[1..][..i];
          assert SmallerAt(a, b, i + 1);
        } else {
          assert a == [a[0]] + a[1..] && b == [b[0]] + b[1..];
        }
      }
    }
  }

  lemma {:induction false} LeqPrefix(a: string, b: string)
    ensures Leq(a, a + b)
    decreases |a|
  {
    if a != [] {
      assert (a + b)[1..] == a[1..] + b;
      LeqPrefix(a[1..], b);
    }
  }

  /** `value = btrim(value)`: no leading or trailing space. */
  predicate Trimmed(s: string)
  {
    s != [] ==> s[0] != ' ' && s[|s| - 1] != ' '
  }

  /** The one character that neither a text column nor a JSON column can hold. */
  const NUL: char := 0 as char

  /** The identity columns' rule: trimmed and not empty. */
  predicate Normalized(s: string)
  {
    Trimmed(s) && s != "" && NUL !in s
  }
}
