/** Order-preserving selection over sequences, the pattern behind both the
    row filter of the buoy parser and the choice of message lines. */
module Sequences {
  import opened Wrappers

  /** The images under `f` of the elements `f` accepts, in their original order. */
  function FilterMap<A, B>(s: seq<A>, f: A -> Option<B>): (r: seq<B>)
    ensures |r| <= |s|
    ensures (forall i :: 0 <= i < |s| ==> f(s[i]).None?) ==> r == []
    ensures (forall i :: 0 <= i < |s| ==> f(s[i]).Some?) ==> |r| == |s|
  {
    if |s| == 0 then []
    else
      var rest := FilterMap(s[1..], f);
      match f(s[0])
      case Some(b) => [b] + rest
      case None => rest
  }

  /** Each `idx[k]` is a position of `s` whose element `f` maps to `r[k]`. */
  ghost predicate ImagesAt<A, B>(s: seq<A>, f: A -> Option<B>, r: seq<B>, idx: seq<nat>)
  {
    |idx| == |r| && forall k :: 0 <= k < |idx| ==> idx[k] < |s| && f(s[idx[k]]) == Some(r[k])
  }

  ghost predicate Increasing(idx: seq<nat>)
  {
    forall k, l :: 0 <= k < l < |idx| ==> idx[k] < idx[l]
  }

  /** Every position of `s` that `f` accepts occurs in `idx`. */
  ghost predicate Covers<A, B>(s: seq<A>, f: A -> Option<B>, idx: seq<nat>)
  {
    forall i :: 0 <= i < |s| && f(s[i]).Some? ==> i in idx
  }

  /** `idx` lists, in increasing order, exactly the positions of `s` that `f`
      accepts, and `r[k]` is the image of the element at `idx[k]`. */
  ghost predicate OrderedSelection<A, B>(s: seq<A>, f: A -> Option<B>, r: seq<B>, idx: seq<nat>)
  {
    ImagesAt(s, f, r, idx) && Increasing(idx) && Covers(s, f, idx)
  }

  /** Positions shifted one place to the right. */
  function Shift(idx: seq<nat>): (r: seq<nat>)
    ensures |r| == |idx|
    ensures forall k :: 0 <= k < |idx| ==> r[k] == idx[k] + 1
  {
    seq(|idx|, k requires 0 <= k < |idx| => idx[k] + 1)
  }

  /** Positions shifted one place to the left; every position must be at least 1. */
  function Unshift(idx: seq<nat>): (r: seq<nat>)
    requires forall k :: 0 <= k < |idx| ==> idx[k] > 0
    ensures |r| == |idx|
    ensures forall k :: 0 <= k < |idx| ==> r[k] + 1 == idx[k]
  {
    seq(|idx|, k requires 0 <= k < |idx| => (idx[k] - 1) as nat)
  }

  lemma IncreasingShift(idx: seq<nat>)
    requires Increasing(idx)
    ensures Increasing(Shift(idx)) && Increasing([0] + Shift(idx))
  {
    var sh := [0] + Shift(idx);
    forall k, l | 0 <= k < l < |sh|
      ensures sh[k] < sh[l]
    {
      if k > 0 {
        assert sh[k] == idx[k - 1] + 1 && sh[l] == idx[l - 1] + 1;
      }
    }
  }

  lemma ImagesAtShift<A, B>(s: seq<A>, f: A -> Option<B>, r: seq<B>, idx: seq<nat>)
    requires |s| > 0 && ImagesAt(s[1..], f, r, idx)
    ensures ImagesAt(s, f, r, Shift(idx))
    ensures f(s[0]).Some? ==> ImagesAt(s, f, [f(s[0]).value] + r, [0] + Shift(idx))
  {
    var sh := Shift(idx);
    forall k | 0 <= k < |idx|
      ensures sh[k] < |s| && f(s[sh[k]]) == Some(r[k])
    {
      assert s[1..][idx[k]] == s[idx[k] + 1];
    }
    if f(s[0]).Some? {
      var idx2 := [0] + sh;
      var r2 := [f(s[0]).value] + r;
      forall k | 0 <= k < |idx2|
        ensures idx2[k] < |s| && f(s[idx2[k]]) == Some(r2[k])
      {
        if k > 0 {
          assert idx2[k] == sh[k - 1] && r2[k] == r[k - 1];
        }
      }
    }
  }

  lemma CoversShift<A, B>(s: seq<A>, f: A -> Option<B>, idx: seq<nat>)
    requires |s| > 0 && Covers(s[1..], f, idx)
    ensures f(s[0]).None? ==> Covers(s, f, Shift(idx))
    ensures f(s[0]).Some? ==> Covers(s, f, [0] + Shift(idx))
  {
    var sh := Shift(idx);
    forall i | 1 <= i < |s| && f(s[i]).Some?
      ensures i in sh
    {
      assert s[1..][i - 1] == s[i];
      var k :| 0 <= k < |idx| && idx[k] == i - 1;
      assert sh[k] == i;
    }
    if f(s[0]).Some? {
      var idx2 := [0] + sh;
      forall i | 0 <= i < |s| && f(s[i]).Some?
        ensures i in idx2
      {
        if i > 0 {
          assert i in sh;
          var k :| 0 <= k < |sh| && sh[k] == i;
          assert idx2[k + 1] == i;
        }
      }
    }
  }

  /** A selection of the tail extends to one of the whole sequence. */
  lemma SelectionCons<A, B>(s: seq<A>, f: A -> Option<B>, r: seq<B>, idx: seq<nat>)
    requires |s| > 0 && OrderedSelection(s[1..], f, r, idx)
    ensures f(s[0]).None? ==> OrderedSelection(s, f, r, Shift(idx))
    ensures f(s[0]).Some? ==> OrderedSelection(s, f, [f(s[0]).value] + r, [0] + Shift(idx))
  {
    IncreasingShift(idx);
    ImagesAtShift(s, f, r, idx);
    CoversShift(s, f, idx);
  }

  /** The positions of `s` whose elements `f` accepts, in increasing order. */
  function Positions<A, B>(s: seq<A>, f: A -> Option<B>): seq<nat>
  {
    if |s| == 0 then []
    else
      var rest := Shift(Positions(s[1..], f));
      if f(s[0]).Some? then [0] + rest else rest
  }

  /** `FilterMap` keeps exactly the accepted elements, in order: those at
      `Positions(s, f)`. */
  lemma {:induction false} FilterMapSelects<A, B>(s: seq<A>, f: A -> Option<B>)
    ensures OrderedSelection(s, f, FilterMap(s, f), Positions(s, f))
  {
    if |s| == 0 {
      assert OrderedSelection(s, f, FilterMap(s, f), []);
    } else {
      FilterMapSelects(s[1..], f);
      SelectionCons(s, f, FilterMap(s[1..], f), Positions(s[1..], f));
      if f(s[0]).Some? {
        assert FilterMap(s, f) == [f(s[0]).value] + FilterMap(s[1..], f);
      } else {
        assert FilterMap(s, f) == FilterMap(s[1..], f);
      }
    }
  }

  lemma IncreasingHeadIsLeast(idx: seq<nat>, k: nat)
    requires Increasing(idx) && k < |idx|
    ensures idx[0] <= idx[k]
  {
  }

  lemma IncreasingUnshift(idx: seq<nat>)
    requires Increasing(idx) && forall k :: 0 <= k < |idx| ==> idx[k] > 0
    ensures Increasing(Unshift(idx))
  {
  }

  lemma ImagesAtUnshift<A, B>(s: seq<A>, f: A -> Option<B>, r: seq<B>, idx: seq<nat>)
    requires |s| > 0 && ImagesAt(s, f, r, idx) && forall k :: 0 <= k < |idx| ==> idx[k] > 0
    ensures ImagesAt(s[1..], f, r, Unshift(idx))
  {
    var un := Unshift(idx);
    forall k | 0 <= k < |un|
      ensures un[k] < |s[1..]| && f(s[1..][un[k]]) == Some(r[k])
    {
      assert s[1..][un[k]] == s[idx[k]];
    }
  }

  lemma CoversUnshift<A, B>(s: seq<A>, f: A -> Option<B>, idx: seq<nat>)
    requires |s| > 0 && Covers(s, f, idx) && forall k :: 0 <= k < |idx| ==> idx[k] > 0
    ensures Covers(s[1..], f, Unshift(idx))
  {
    var un := Unshift(idx);
    forall i | 0 <= i < |s[1..]| && f(s[1..][i]).Some?
      ensures i in un
    {
      assert s[1..][i] == s[i + 1];
      assert i + 1 in idx;
      var k :| 0 <= k < |idx| && idx[k] == i + 1;
      assert un[k] == i;
    }
  }

  /** A selection of the whole sequence whose first element `f` accepts
      starts at position 0, and the rest restricts to one of the tail. */
  lemma SelectionUnconsAccepted<A, B>(s: seq<A>, f: A -> Option<B>, r: seq<B>, idx: seq<nat>)
    requires |s| > 0 && f(s[0]).Some?
    requires OrderedSelection(s, f, r, idx)
    ensures |r| > 0 && r[0] == f(s[0]).value
    ensures (forall k :: 1 <= k < |idx| ==> idx[k] > 0) && OrderedSelection(s[1..], f, r[1..], Unshift(idx[1..]))
  {
    assert 0 in idx;
    var k0 :| 0 <= k0 < |idx| && idx[k0] == 0;
    IncreasingHeadIsLeast(idx, k0);
    var rest := idx[1..];
    forall k | 0 <= k < |rest|
      ensures rest[k] > 0
    {
      assert idx[0] < idx[k + 1];
    }
    assert ImagesAt(s, f, r[1..], rest);
    assert Increasing(rest);
    forall i | 0 <= i < |s| && f(s[i]).Some? && i > 0
      ensures i in rest
    {
      var k :| 0 <= k < |idx| && idx[k] == i;
      assert rest[k - 1] == i;
    }
    ImagesAtUnshift(s, f, r[1..], rest);
    IncreasingUnshift(rest);
    CoversUnshiftHead(s, f, rest);
  }

  /** A selection of the whole sequence whose first element `f` rejects
      restricts to one of the tail. */
  lemma SelectionUnconsRejected<A, B>(s: seq<A>, f: A -> Option<B>, r: seq<B>, idx: seq<nat>)
    requires |s| > 0 && f(s[0]).None?
    requires OrderedSelection(s, f, r, idx)
    ensures (forall k :: 0 <= k < |idx| ==> idx[k] > 0) && OrderedSelection(s[1..], f, r, Unshift(idx))
  {
    forall k | 0 <= k < |idx|
      ensures idx[k] > 0
    {
    }
    ImagesAtUnshift(s, f, r, idx);
    IncreasingUnshift(idx);
    CoversUnshift(s, f, idx);
  }

  lemma CoversUnshiftHead<A, B>(s: seq<A>, f: A -> Option<B>, idx: seq<nat>)
    requires |s| > 0 && forall k :: 0 <= k < |idx| ==> idx[k] > 0
    requires forall i :: 0 <= i < |s| && f(s[i]).Some? && i > 0 ==> i in idx
    ensures Covers(s[1..], f, Unshift(idx))
  {
    var un := Unshift(idx);
    forall i | 0 <= i < |s[1..]| && f(s[1..][i]).Some?
      ensures i in un
    {
      assert s[1..][i] == s[i + 1];
      assert i + 1 in idx;
      var k :| 0 <= k < |idx| && idx[k] == i + 1;
      assert un[k] == i;
    }
  }

  /** Conversely, an ordered selection determines its result: it is `FilterMap`'s. */
  lemma {:induction false} OrderedSelectionIsFilterMap<A, B>(s: seq<A>, f: A -> Option<B>, r: seq<B>, idx: seq<nat>)
    requires OrderedSelection(s, f, r, idx)
    ensures r == FilterMap(s, f)
    decreases |s|
  {
    if |s| == 0 {
    } else {
      if f(s[0]).Some? {
        SelectionUnconsAccepted(s, f, r, idx);
        OrderedSelectionIsFilterMap(s[1..], f, r[1..], Unshift(idx[1..]));
        assert FilterMap(s, f) == [r[0]] + FilterMap(s[1..], f);
        assert r == [r[0]] + r[1..];
      } else {
        SelectionUnconsRejected(s, f, r, idx);
        OrderedSelectionIsFilterMap(s[1..], f, r, Unshift(idx));
        assert FilterMap(s, f) == FilterMap(s[1..], f);
      }
    }
  }
}
