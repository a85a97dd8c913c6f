/** Node identities, ordered as Rust orders strings: lexicographically. */
module NodeIds {

  type NodeId = string

  predicate Less(a: NodeId, b: NodeId) {
    && |b| > 0
    && (|a| == 0 || a[0] < b[0] || (a[0] == b[0] && Less(a[1..], b[1..])))
  }

  lemma {:induction false} LessIsStrictTotalOrder(a: NodeId, b: NodeId)
    ensures !(Less(a, b) && Less(b, a))
    ensures !Less(a, a)
    ensures Less(a, b) || Less(b, a) || a == b
  {
    if |a| > 0 {
      LessIsStrictTotalOrder(a[1..], a[1..]);
    }
    if |a| > 0 && |b| > 0 && a[0] == b[0] {
      LessIsStrictTotalOrder(a[1..], b[1..]);
      assert a == [a[0]] + a[1..] && b == [b[0]] + b[1..];
    }
  }

  lemma {:induction false} LessIsTransitive(a: NodeId, b: NodeId, c: NodeId)
    requires Less(a, b) && Less(b, c)
    ensures Less(a, c)
  {
    if |a| > 0 && a[0] == b[0] == c[0] {
      LessIsTransitive(a[1..], b[1..], c[1..]);
    }
  }

  /** A proper prefix comes first; otherwise the first differing character decides. */
  lemma {:induction false} FirstDifferenceDecides(a: NodeId, b: NodeId, k: nat)
    requires k <= |a| && k <= |b| && a[..k] == b[..k]
    ensures k == |a| < |b| ==> Less(a, b)
    ensures k < |a| && k < |b| && a[k] < b[k] ==> Less(a, b)
  {
    if k > 0 {
      assert a[0] == a[..k][0] == b[..k][0] == b[0];
      assert a[1..][..k - 1] == a[..k][1..] == b[..k][1..] == b[1..][..k - 1];
      FirstDifferenceDecides(a[1..], b[1..], k - 1);
    }
  }
}
