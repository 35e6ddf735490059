/** The order of Go strings. */
module GoString {
  /** Go's <: code-point order, which for valid UTF-8 is the order of the bytes. */
  predicate Less(a: string, b: string) {
    b != "" && (a == "" || a[0] < b[0] || (a[0] == b[0] && Less(a[1..], b[1..])))
  }

  lemma {:induction false} LessTotal(a: string, b: string)
    ensures a == b || Less(a, b) || Less(b, a)
    ensures !(Less(a, b) && Less(b, a)) && !Less(a, a)
  {
    if a != "" { LessTotal(a[1..], a[1..]); }
    if a != "" && b != "" && a[0] == b[0] {
      LessTotal(a[1..], b[1..]);
      assert a == [a[0]] + a[1..] && b == [b[0]] + b[1..];
    }
  }

  lemma {:induction false} LessTransitive(a: string, b: string, c: string)
    requires Less(a, b) && Less(b, c)
    ensures Less(a, c)
  {
    if a != "" && a[0] == b[0] && b[0] == c[0] {
      LessTransitive(a[1..], b[1..], c[1..]);
    }
  }

  /** A proper prefix comes first; otherwise the first difference decides. */
  lemma {:induction false} LessExactly(a: string, b: string)
    ensures Less(a, b) <==> exists k: nat :: AgreeTo(a, b, k) && k < |b| && (k == |a| || a[k] < b[k])
  {
    if a == "" || b == "" || a[0] != b[0] {
      assert AgreeTo(a, b, 0);
    } else {
      LessExactly(a[1..], b[1..]);
      assert forall k: nat :: AgreeTo(a[1..], b[1..], k) <==> AgreeTo(a, b, k + 1);
      if k: nat :| AgreeTo(a, b, k) && k < |b| && (k == |a| || a[k] < b[k]) {
        assert AgreeTo(a[1..], b[1..], k - 1);
      }
    }
  }

  /** The texts agree up to position k. */
  predicate AgreeTo(a: string, b: string, k: nat) { k <= |a| && k <= |b| && forall i | 0 <= i < k :: a[i] == b[i] }
}
