/** Go's `<` on strings: lexicographic, compared here by code point.
    (UTF-8 is order preserving, so comparing bytes and comparing code points agree.) */
module LexOrder {

  predicate Less(a: string, b: string) {
    b != [] && (a == [] || a[0] < b[0] || (a[0] == b[0] && Less(a[1..], b[1..])))
  }

  predicate AtMost(a: string, b: string) {
    a == b || Less(a, b)
  }

  /** The order is total and antisymmetric: exactly one of the three cases holds. */
  lemma {:induction false} Trichotomy(a: string, b: string)
    ensures Less(a, b) || a == b || Less(b, a)
    ensures !(Less(a, b) && Less(b, a))
    ensures a == b ==> !Less(a, b)
  {
    if a != [] && b != [] && a[0] == b[0] {
      Trichotomy(a[1..], b[1..]);
      assert a == [a[0]] + a[1..] && b == [b[0]] + b[1..];
    }
  }

  lemma {:induction false} Transitive(a: string, b: string, c: string)
    requires AtMost(a, b) && AtMost(b, c)
    ensures AtMost(a, c)
  {
    if a != b && b != c && a != [] && a[0] == b[0] && b[0] == c[0] {
      assert a == [a[0]] + a[1..] && c == [c[0]] + c[1..];
      Transitive(a[1..], b[1..], c[1..]);
    }
  }

  // ---- What the order is, without recursion ----

  /** The first `k` characters agree, and then `a` ends first or has the smaller character. */
  ghost predicate PrecedesAt(a: string, b: string, k: nat) {
    && k <= |a| && k <= |b| && a[..k] == b[..k]
    && ((k == |a| && |a| < |b|) || (k < |a| && k < |b| && a[k] < b[k]))
  }

  ghost predicate Precedes(a: string, b: string) {
    exists k: nat :: PrecedesAt(a, b, k)
  }

  lemma {:induction false} LessHasPoint(a: string, b: string) returns (k: nat)
    requires Less(a, b)
    ensures PrecedesAt(a, b, k)
  {
    if a == [] || a[0] < b[0] {
      k := 0;
    } else {
      var j := LessHasPoint(a[1..], b[1..]);
      k := j + 1;
      assert a[..k] == [a[0]] + a[1..][..j] && b[..k] == [b[0]] + b[1..][..j];
    }
  }

  lemma {:induction false} PointIsLess(a: string, b: string, k: nat)
    requires PrecedesAt(a, b, k)
    ensures Less(a, b)
  {
    if k > 0 {
      assert a[0] == a[..k][0] && b[0] == b[..k][0];
      assert a[1..][..k - 1] == a[..k][1..] && b[1..][..k - 1] == b[..k][1..];
      PointIsLess(a[1..], b[1..], k - 1);
    }
  }

  /** The order is the ascending lexicographic one: a proper prefix comes first, and so does the string with the smaller
      character at the first difference. */
  lemma LessExactly(a: string, b: string)
    ensures Less(a, b) <==> Precedes(a, b)
  {
    if Less(a, b) {
      var k := LessHasPoint(a, b);
    }
    if k: nat :| PrecedesAt(a, b, k) {
      PointIsLess(a, b, k);
    }
  }
}
