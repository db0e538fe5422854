/** `Array.prototype.filter`, and which positions of its input it keeps. */
module Sequences {

  /** The elements of `s` that satisfy `keep`, in their original order. */
  function Filter<T>(s: seq<T>, keep: T -> bool): (r: seq<T>)
    ensures |r| <= |s|
    ensures forall k :: 0 <= k < |r| ==> keep(r[k])
  {
    if s == [] then []
    else Filter(s[..|s| - 1], keep) + (if keep(s[|s| - 1]) then [s[|s| - 1]] else [])
  }

  /** The positions of `s` whose element satisfies `keep`, in increasing order. */
  function KeptIndices<T>(s: seq<T>, keep: T -> bool): seq<nat>
  {
    if s == [] then []
    else KeptIndices(s[..|s| - 1], keep) + (if keep(s[|s| - 1]) then [|s| - 1] else [])
  }

  /** Concatenation is associative. */
  lemma AppendAssoc<T>(x: seq<T>, y: seq<T>, z: seq<T>)
    ensures (x + y) + z == x + (y + z)
  {
  }

  /** Strictly increasing positions below `n`. */
  predicate IncreasingBelow(ks: seq<nat>, n: nat) {
    && (forall k :: 0 <= k < |ks| ==> ks[k] < n)
    && (forall k, l :: 0 <= k < l < |ks| ==> ks[k] < ks[l])
  }

  /**
   * `Filter` keeps exactly the elements that satisfy `keep`, each once and in
   * input order: its k-th output is the input at the k-th kept position, the
   * kept positions increase, and a position is kept if and only if its element
   * satisfies `keep`.
   */
  lemma {:induction false} FilterByIndices<T>(s: seq<T>, keep: T -> bool)
    ensures var ks := KeptIndices(s, keep);
      && |Filter(s, keep)| == |ks|
      && IncreasingBelow(ks, |s|)
      && (forall k :: 0 <= k < |ks| ==> Filter(s, keep)[k] == s[ks[k]])
      && (forall i :: 0 <= i < |s| ==> (keep(s[i]) <==> i in ks))
  {
    if s != [] {
      var n := |s| - 1;
      var init := s[..n];
      FilterByIndices(init, keep);
      var ks0 := KeptIndices(init, keep);
      var ks := KeptIndices(s, keep);
      var f := Filter(s, keep);
      assert ks == ks0 + (if keep(s[n]) then [n] else []);
      assert f == Filter(init, keep) + (if keep(s[n]) then [s[n]] else []);
      forall k | 0 <= k < |ks| ensures f[k] == s[ks[k]] {
        if k < |ks0| {
          assert f[k] == Filter(init, keep)[k];
          assert ks[k] == ks0[k];
        }
      }
      forall i | 0 <= i < |s| ensures keep(s[i]) <==> i in ks {
        if i < n {
          assert s[i] == init[i];
          assert i in ks0 <==> i in ks;
        }
      }
    }
  }

  /** An input whose every element satisfies `keep` passes through unchanged. */
  lemma {:induction false} FilterAll<T>(s: seq<T>, keep: T -> bool)
    requires forall i :: 0 <= i < |s| ==> keep(s[i])
    ensures Filter(s, keep) == s
  {
    if s != [] {
      FilterAll(s[..|s| - 1], keep);
      assert s[..|s| - 1] + [s[|s| - 1]] == s;
    }
  }
}
