/** What several parts share: optional values, sequences, division and white space. */
module Common {

  datatype Option<+T> = None | Some(value: T)

  lemma Associative<T>(a: seq<T>, b: seq<T>, c: seq<T>)
    ensures a + (b + c) == a + b + c
  {
  }

  lemma AtLeastOnce(d: int, k: int)
    requires d > 0 && k >= 1
    ensures d * k >= d
  {
  }

  lemma DivIs(v: int, d: int, q: int, r: int)
    requires v == d * q + r && 0 <= r < d
    ensures v / d == q && v % d == r
  {
    var q', r' := v / d, v % d;
    assert v == d * q' + r' && 0 <= r' < d;
    Distribute(d, q, q');
    if q > q' {
      AtLeastOnce(d, q - q');
    } else if q < q' {
      AtLeastOnce(d, q' - q);
      Distribute(d, q', q);
    }
  }

  lemma Distribute(d: int, q: int, p: int)
    ensures d * (q - p) == d * q - d * p
  {
  }

  lemma Expand(a: int, b: int, q: int, r: int)
    ensures a * (b * q + r) == a * b * q + a * r
  {
    assert a * (b * q) == a * b * q;
    Distribute(a, b * q, -r);
    assert a * -r == -(a * r);
  }

  lemma ScaledRemainder(a: int, b: int, r: int, s: int)
    requires 0 <= r < b && 0 <= s < a
    ensures a * b > 0 && 0 <= a * r + s < a * b
  {
    Distribute(a, b, r);
    AtLeastOnce(a, b - r);
    AtLeastOnce(a, r + 1);
    Distribute(a, r + 1, 1);
    AtLeastOnce(a, b);
  }

  /** Dividing twice is dividing by the product, for negative numbers as well. */
  lemma DivDiv(v: int, a: int, b: int)
    requires a > 0 && b > 0
    ensures a * b > 0 && v / a / b == v / (a * b)
  {
    var q, r := v / a, v % a;
    var q2, r2 := q / b, q % b;
    Expand(a, b, q2, r2);
    ScaledRemainder(a, b, r2, r);
    Quotient(v, a, q, r, b, q2, r2);
    DivIs(v, a * b, q2, a * r2 + r);
  }

  lemma Quotient(v: int, a: int, q: int, r: int, b: int, q2: int, r2: int)
    requires a > 0 && b > 0 && q == v / a && r == v % a && q2 == q / b && r2 == q % b
    ensures v == a * (b * q2 + r2) + r
  {
    assert q == b * q2 + r2;
    assert v == a * q + r;
  }

  predicate IsSpace(c: char) { c in {' ', '\t', '\n', '\r', '\U{0B}', '\U{0C}'} }

  function LeadingSpace(s: string): (n: nat)
    ensures n <= |s| && (n < |s| ==> !IsSpace(s[n]))
    ensures forall i | 0 <= i < n :: IsSpace(s[i])
  {
    if s == "" || !IsSpace(s[0]) then 0 else 1 + LeadingSpace(s[1..])
  }

  lemma {:induction false} LeadingSpaceIs(s: string, n: nat)
    requires n < |s| && !IsSpace(s[n]) && forall i | 0 <= i < n :: IsSpace(s[i])
    ensures LeadingSpace(s) == n
  {
    if n > 0 {
      LeadingSpaceIs(s[1..], n - 1);
    }
  }
}
