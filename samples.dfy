/**
 * Bounded windows of measured durations (the startup-time ledger and the
 * status loop's edit-cost window) and their arithmetic mean. Durations are
 * `real`; the `round(...)` the bot applies for display is not modelled.
 */
module Samples {

  function Sum(s: seq<real>): real {
    if s == [] then 0.0 else s[0] + Sum(s[1..])
  }

  function Mean(s: seq<real>): real
    requires s != []
  {
    Sum(s) / (|s| as real)
  }

  /** The newest `min(|s|, n)` elements of `s`, oldest first */
  function Newest<T>(s: seq<T>, n: nat): (r: seq<T>)
    ensures |r| == if |s| < n then |s| else n
    ensures r == s[|s| - |r|..]
  {
    if |s| <= n then s else s[|s| - n..]
  }

  /**
   * Trimming early does not change what a later trim keeps: the newest `n`
   * of `Newest(a, n) + b` are the newest `n` of `a + b`.
   */
  lemma NewestAbsorbs<T>(a: seq<T>, b: seq<T>, n: nat)
    ensures Newest(Newest(a, n) + b, n) == Newest(a + b, n)
  {
    var na := Newest(a, n);
    var l := Newest(na + b, n);
    var r := Newest(a + b, n);
    assert |l| == |r|;
    forall k | 0 <= k < |l| ensures l[k] == r[k] {
      var off := |a + b| - |r|;
      assert r[k] == (a + b)[off + k];
      assert l[k] == (na + b)[|na + b| - |l| + k];
      if |na + b| - |l| + k < |na| {
        assert (na + b)[|na + b| - |l| + k] == na[|na + b| - |l| + k];
        assert na[|na + b| - |l| + k] == a[|a| - |na| + (|na + b| - |l| + k)];
      }
    }
  }

  /** A trim followed by one append and one front removal keeps a bounded window. */
  lemma NewestStep<T>(w: seq<T>, x: T, n: nat)
    requires 0 < n && |w| <= n
    ensures Newest(w + [x], n) == if |w + [x]| > n then (w + [x])[1..] else w + [x]
  {
  }
}
