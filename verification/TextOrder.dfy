/** The order of Rust strings: by code point, a prefix first. */
module TextOrder {
  predicate StrBefore(a: string, b: string) {
    if b == [] then false
    else if a == [] then true
    else a[0] < b[0] || (a[0] == b[0] && StrBefore(a[1..], b[1..]))
  }

  lemma {:induction false} StrAsymmetric(a: string, b: string)
    requires StrBefore(a, b)
    ensures !StrBefore(b, a)
  {
    if a != [] && a[0] == b[0] { StrAsymmetric(a[1..], b[1..]); }
  }

  lemma {:induction false} StrNegTransitive(a: string, b: string, c: string)
    requires StrBefore(a, c)
    ensures StrBefore(a, b) || StrBefore(b, c)
  {
    if a != [] && b != [] && a[0] == b[0] == c[0] { StrNegTransitive(a[1..], b[1..], c[1..]); }
  }

  lemma {:induction false} StrConnected(a: string, b: string)
    requires a != b
    ensures StrBefore(a, b) || StrBefore(b, a)
  {
    if a != [] && b != [] && a[0] == b[0] {
      assert a == [a[0]] + a[1..] && b == [b[0]] + b[1..];
      StrConnected(a[1..], b[1..]);
    }
  }
}
