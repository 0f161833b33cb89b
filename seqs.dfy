/** Subsequences: index lists that pick out a subsequence, and the present values of a sequence of options. */
module Seqs {
  import opened Wrappers

  /** Indices strictly increasing and below `n`: the positions a subsequence picks out. */
  ghost predicate Increasing(idx: seq<nat>, n: nat)
  {
    && (forall k :: 0 <= k < |idx| ==> idx[k] < n)
    && (forall a, b :: 0 <= a < b < |idx| ==> idx[a] < idx[b])
  }

  /** The present values, in order. */
  function Somes<T>(os: seq<Option<T>>): seq<T>
  {
    if os == [] then []
    else
      var n := |os| - 1;
      Somes(os[..n]) + (if os[n].Some? then [os[n].value] else [])
  }

  /** The present values of a sequence of options, in order (`idx` picks out their positions). */
  lemma {:induction false} SomesIff<T>(os: seq<Option<T>>) returns (idx: seq<nat>)
    ensures |idx| == |Somes(os)| && Increasing(idx, |os|)
    ensures forall k :: 0 <= k < |idx| ==> os[idx[k]] == Some(Somes(os)[k])
    ensures forall i :: 0 <= i < |os| ==> (os[i].Some? <==> i in idx)
  {
    if os == [] {
      idx := [];
    } else {
      var n := |os| - 1;
      var pre := os[..n];
      var pidx := SomesIff(pre);
      var ps := Somes(pre);
      var all := Somes(os);
      assert forall i :: 0 <= i < n ==> pre[i] == os[i];
      if os[n].Some? {
        idx := pidx + [n];
        forall k | 0 <= k < |idx| ensures os[idx[k]] == Some(all[k]) {
          if k < |pidx| {
            assert all[k] == ps[k];
          }
        }
        forall i | 0 <= i < |os| ensures os[i].Some? <==> i in idx {
          if i < n {
            assert i in idx <==> i in pidx;
          }
        }
      } else {
        idx := pidx;
        assert all == ps;
        forall i | 0 <= i < |os| ensures os[i].Some? <==> i in idx {
          if i == n {
            assert n !in pidx;
          }
        }
      }
    }
  }

  /** Extending a prefix by one option extends its present values by that option's value, if any. */
  lemma SomesSnoc<T>(os: seq<Option<T>>, i: nat)
    requires i < |os|
    ensures os[i].Some? ==> Somes(os[..i + 1]) == Somes(os[..i]) + [os[i].value]
    ensures os[i].None? ==> Somes(os[..i + 1]) == Somes(os[..i])
  {
    assert os[..i + 1][..i] == os[..i];
    assert Somes(os[..i]) + [] == Somes(os[..i]);
  }

  /** A present value is among the present values. */
  lemma {:induction false} SomeListed<T>(os: seq<Option<T>>, i: nat)
    requires i < |os| && os[i].Some?
    ensures os[i].value in Somes(os)
  {
    var n := |os| - 1;
    if i < n {
      assert os[..n][i] == os[i];
      SomeListed(os[..n], i);
    }
  }
}
