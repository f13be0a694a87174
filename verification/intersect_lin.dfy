/** The linear-time intersection of two sorted containers: two cursors walk
    the shorter and the longer list, skipping the smaller value, and a value
    met in both is taken once and both cursors move on. */
module LinearIntersect {
  import Merging

  /** The merge walk on two lists: equal heads are taken and both dropped,
      otherwise the smaller head is dropped. On sorted lists this is the
      multiset intersection in ascending order (`MeetMultiset`). */
  function Meet(a: seq<int>, b: seq<int>): seq<int>
    decreases |a| + |b|
  {
    if |a| == 0 || |b| == 0 then []
    else if a[0] == b[0] then [a[0]] + Meet(a[1..], b[1..])
    else if a[0] < b[0] then Meet(a[1..], b)
    else Meet(a, b[1..])
  }

  /** The two-cursor loop on `a` (meant to be the shorter list) and `b`. */
  method MeetLoop(a: seq<int>, b: seq<int>) returns (result: seq<int>)
    ensures result == Meet(a, b)
  {
    var ai, bi := 0, 0;
    result := [];
    while ai < |a| && bi < |b|
      invariant 0 <= ai <= |a| && 0 <= bi <= |b|
      invariant result + Meet(a[ai..], b[bi..]) == Meet(a, b)
      decreases |a| - ai + |b| - bi
    {
      var bvalue := b[bi];
      ghost var ai0, bi0 := ai, bi;
      while ai < |a| && a[ai] < bvalue
        invariant ai0 <= ai <= |a|
        invariant result + Meet(a[ai..], b[bi..]) == Meet(a, b)
      {
        assert a[ai..][1..] == a[ai + 1..];
        ai := ai + 1;
      }
      if ai < |a| {
        var avalue := a[ai];
        while bi < |b| && b[bi] < avalue
          invariant bi0 <= bi <= |b|
          invariant result + Meet(a[ai..], b[bi..]) == Meet(a, b)
        {
          assert b[bi..][1..] == b[bi + 1..];
          bi := bi + 1;
        }
        if bi < |b| && avalue == b[bi] {
          assert a[ai..][1..] == a[ai + 1..] && b[bi..][1..] == b[bi + 1..];
          result := result + [avalue];
          ai := ai + 1;
          bi := bi + 1;
        }
      }
    }
    assert a[ai..] == [] || b[bi..] == [];
  }

  /** The intersection as written: `a` is `list1` only if it is strictly
      shorter and `b` is `list1` only if it is strictly longer, so for lists
      of equal length both are `list2`. */
  method IntersectLinAsWritten(list1: seq<int>, list2: seq<int>) returns (result: seq<int>)
    ensures |list1| != |list2| ==> result == Meet(list1, list2)
    ensures |list1| == |list2| ==> result == list2
  {
    var a := if |list1| < |list2| then list1 else list2;
    var b := if |list1| > |list2| then list1 else list2;
    result := MeetLoop(a, b);
    MeetSymmetric(list1, list2);
    MeetSelf(list2);
  }

  /** The intersection with the shorter list as `a` and the other one as `b`. */
  method IntersectLin(list1: seq<int>, list2: seq<int>) returns (result: seq<int>)
    ensures result == Meet(list1, list2)
  {
    var a := if |list1| < |list2| then list1 else list2;
    var b := if |list1| < |list2| then list2 else list1;
    result := MeetLoop(a, b);
    MeetSymmetric(list1, list2);
  }

  // ----- What the walk computes --------------------------------------------

  /** Argument order does not matter. */
  lemma {:induction false} MeetSymmetric(a: seq<int>, b: seq<int>)
    ensures Meet(a, b) == Meet(b, a)
    decreases |a| + |b|
  {
    if |a| > 0 && |b| > 0 {
      if a[0] == b[0] {
        MeetSymmetric(a[1..], b[1..]);
      } else if a[0] < b[0] {
        MeetSymmetric(a[1..], b);
      } else {
        MeetSymmetric(a, b[1..]);
      }
    }
  }

  /** A list met with itself is the list. */
  lemma {:induction false} MeetSelf(a: seq<int>)
    ensures Meet(a, a) == a
  {
    if |a| > 0 {
      MeetSelf(a[1..]);
    }
  }

  /** Each value taken advances both cursors, so the result is no longer
      than either list, and it is empty when either list is. */
  lemma {:induction false} MeetLength(a: seq<int>, b: seq<int>)
    ensures |Meet(a, b)| <= |a| && |Meet(a, b)| <= |b|
    ensures |a| == 0 || |b| == 0 ==> Meet(a, b) == []
    decreases |a| + |b|
  {
    if |a| > 0 && |b| > 0 {
      if a[0] == b[0] {
        MeetLength(a[1..], b[1..]);
      } else if a[0] < b[0] {
        MeetLength(a[1..], b);
      } else {
        MeetLength(a, b[1..]);
      }
    }
  }

  /** The values taken from `a` and `b` are values of both lists, and the
      first one is at least either list's head. */
  lemma {:induction false} MeetFrom(a: seq<int>, b: seq<int>)
    ensures forall x :: x in Meet(a, b) ==> x in a && x in b
    ensures |Meet(a, b)| > 0 ==> Meet(a, b)[0] >= a[0] && Meet(a, b)[0] >= b[0]
    decreases |a| + |b|
  {
    if |a| > 0 && |b| > 0 {
      if a[0] == b[0] {
        MeetFrom(a[1..], b[1..]);
      } else if a[0] < b[0] {
        MeetFrom(a[1..], b);
      } else {
        MeetFrom(a, b[1..]);
      }
    }
  }

  /** Sorted lists give a sorted result. */
  lemma {:induction false} MeetSorted(a: seq<int>, b: seq<int>)
    requires Merging.Sorted(a) && Merging.Sorted(b)
    ensures Merging.Sorted(Meet(a, b))
    decreases |a| + |b|
  {
    if |a| > 0 && |b| > 0 {
      if a[0] == b[0] {
        MeetSorted(a[1..], b[1..]);
        MeetFrom(a[1..], b[1..]);
        var r := Meet(a[1..], b[1..]);
        forall i, j | 0 <= i < j < |[a[0]] + r|
          ensures ([a[0]] + r)[i] <= ([a[0]] + r)[j]
        {
          if i == 0 {
            assert r[j - 1] in Meet(a[1..], b[1..]);
            assert r[j - 1] in a[1..];
          }
        }
      } else if a[0] < b[0] {
        MeetSorted(a[1..], b);
      } else {
        MeetSorted(a, b[1..]);
      }
    }
  }

  /** On sorted lists the walk takes each value as often as both lists
      hold it: the result is the multiset intersection. */
  lemma {:induction false} MeetMultiset(a: seq<int>, b: seq<int>)
    requires Merging.Sorted(a) && Merging.Sorted(b)
    ensures multiset(Meet(a, b)) == multiset(a) * multiset(b)
    decreases |a| + |b|
  {
    if |a| > 0 && |b| > 0 {
      if a[0] == b[0] {
        MeetMultiset(a[1..], b[1..]);
        MultisetBothHeads(a, b);
      } else if a[0] < b[0] {
        MeetMultiset(a[1..], b);
        BelowHeadAbsent(a[0], b);
        MultisetDropLeft(a, b);
      } else {
        MeetMultiset(a, b[1..]);
        BelowHeadAbsent(b[0], a);
        MultisetDropRight(a, b);
      }
    }
  }

  /** A value below the head of a sorted list is not on it. */
  lemma BelowHeadAbsent(x: int, s: seq<int>)
    requires Merging.Sorted(s) && |s| > 0 && x < s[0]
    ensures x !in multiset(s)
  {
    forall j | 0 <= j < |s|
      ensures s[j] != x
    {
      assert s[0] <= s[j];
    }
  }

  /** A head on both lists adds one to the intersection of the tails. */
  lemma MultisetBothHeads(a: seq<int>, b: seq<int>)
    requires |a| > 0 && |b| > 0 && a[0] == b[0]
    ensures multiset(a) * multiset(b) == multiset{a[0]} + multiset(a[1..]) * multiset(b[1..])
  {
    assert a == [a[0]] + a[1..] && b == [b[0]] + b[1..];
    var l := multiset(a) * multiset(b);
    var r := multiset{a[0]} + multiset(a[1..]) * multiset(b[1..]);
    forall y
      ensures l[y] == r[y]
    {
    }
  }

  /** A head of `a` that `b` lacks leaves the intersection unchanged. */
  lemma MultisetDropLeft(a: seq<int>, b: seq<int>)
    requires |a| > 0 && a[0] !in multiset(b)
    ensures multiset(a) * multiset(b) == multiset(a[1..]) * multiset(b)
  {
    assert a == [a[0]] + a[1..];
    var l := multiset(a) * multiset(b);
    var r := multiset(a[1..]) * multiset(b);
    forall y
      ensures l[y] == r[y]
    {
    }
  }

  /** A head of `b` that `a` lacks leaves the intersection unchanged. */
  lemma MultisetDropRight(a: seq<int>, b: seq<int>)
    requires |b| > 0 && b[0] !in multiset(a)
    ensures multiset(a) * multiset(b) == multiset(a) * multiset(b[1..])
  {
    assert b == [b[0]] + b[1..];
    var l := multiset(a) * multiset(b);
    var r := multiset(a) * multiset(b[1..]);
    forall y
      ensures l[y] == r[y]
    {
    }
  }

  /** The corrected intersection of sorted lists is their multiset
      intersection, ascending and no longer than either list; an empty
      list gives an empty result; argument order does not matter. */
  lemma IntersectLinCorrect(list1: seq<int>, list2: seq<int>)
    requires Merging.Sorted(list1) && Merging.Sorted(list2)
    ensures multiset(Meet(list1, list2)) == multiset(list1) * multiset(list2)
    ensures Merging.Sorted(Meet(list1, list2))
    ensures |Meet(list1, list2)| <= |list1| && |Meet(list1, list2)| <= |list2|
    ensures Meet(list1, list2) == Meet(list2, list1)
  {
    MeetMultiset(list1, list2);
    MeetSorted(list1, list2);
    MeetLength(list1, list2);
    MeetSymmetric(list1, list2);
  }

  /** The equal-length case as written: `[1]` and `[2]` share no value, yet
      the result is `[2]`. */
  method IntersectLinAsWrittenExample() returns (result: seq<int>)
    ensures result == [2] && Meet([1], [2]) == []
  {
    result := IntersectLinAsWritten([1], [2]);
    assert Meet([1], [2]) == Meet([1][1..], [2]);
  }
}
