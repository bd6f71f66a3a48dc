/** Small definitions shared by the other modules. */
module Collections {
  datatype Option<T> = None | Some(value: T)

  lemma SubsetSize(a: set<nat>, b: set<nat>)
    requires a <= b
    ensures |a| <= |b|
    ensures |a| == |b| ==> a == b
  {
    assert b == a + (b - a) && |b| == |a| + |b - a|;
  }

  lemma SubSlice<T>(a: seq<T>, off: nat, h: seq<T>, i: nat, j: nat)
    requires i <= j <= |h| && off + |h| <= |a| && a[off..off + |h|] == h
    ensures a[off + i..off + j] == h[i..j]
  {
    var x, y := a[off + i..off + j], h[i..j];
    forall k | 0 <= k < |y| ensures x[k] == y[k] {
      assert a[off..off + |h|][i + k] == h[i + k];
    }
  }
}
