/** Lists against the sets of their members: the counting behind `len(set(xs)) != len(xs)`, and lists in pieces.

    None of this is about one script in particular. The gate, the consent matrix, the authority manifest and the per-block
    assessment all compare lengths where they mean repetitions or coverage, and all of them lean on these few lemmas. */
module Counting {

  ghost predicate Distinct<T>(s: seq<T>) {
    forall i, j :: 0 <= i < j < |s| ==> s[i] != s[j]
  }

  function SetOf<T(==)>(s: seq<T>): set<T> {
    set x | x in s
  }

  /** A list has no repetitions exactly when it is as long as its set is large. */
  lemma {:induction false} SetSizeIff<T>(s: seq<T>)
    ensures |SetOf(s)| <= |s|
    ensures |SetOf(s)| == |s| <==> Distinct(s)
  {
    if s == [] {
      assert SetOf(s) == {};
    } else {
      var n := |s| - 1;
      var front, last := s[..n], s[n];
      SetSizeIff(front);
      assert s == front + [last];
      assert SetOf(s) == SetOf(front) + {last};
      if last in front {
        assert SetOf(s) == SetOf(front);
        var i :| 0 <= i < n && front[i] == last;
        assert s[i] == s[n];
      } else {
        assert |SetOf(s)| == |SetOf(front)| + 1;
        assert Distinct(s) <==> Distinct(front) by {
          if Distinct(s) {
            assert forall i, j :: 0 <= i < j < n ==> front[i] == s[i] && front[j] == s[j];
          }
        }
      }
    }
  }

  /** A subset as large as the whole is the whole. */
  lemma FullSubset<T>(a: set<T>, b: set<T>)
    requires a <= b && |a| >= |b|
    ensures a == b
  {
    assert b == a + (b - a);
    assert |b| == |a| + |b - a|;
  }

  /** Two lists without repetitions and with the same members are equally long. */
  lemma SameMembersSameLength<T>(a: seq<T>, b: seq<T>)
    requires Distinct(a) && Distinct(b) && SetOf(a) == SetOf(b)
    ensures |a| == |b|
  {
    SetSizeIff(a);
    SetSizeIff(b);
  }

  /** Lists put together from pieces that are not too long are equal only piece by piece. */
  lemma SamePieces<T>(a: seq<T>, b: seq<T>, c: seq<T>, d: seq<T>)
    requires |a| == |c| || (|a| <= |c| && |b| <= |d|)
    ensures a + b == c + d <==> a == c && b == d
  {
    if a + b == c + d {
      assert |a + b| == |a| + |b| && |c + d| == |c| + |d|;
      assert a == (a + b)[..|a|] && c == (c + d)[..|a|] && b == (a + b)[|a|..] && d == (c + d)[|a|..];
    }
  }

  /** Two lists behind one another repeat nothing exactly when neither does and they share nothing. */
  lemma DistinctConcat<T>(a: seq<T>, b: seq<T>)
    ensures Distinct(a + b) <==> Distinct(a) && Distinct(b) && SetOf(a) !! SetOf(b)
  {
    var all := a + b;
    if Distinct(all) {
      DistinctPart(a, b);
    } else {
      var i, j :| 0 <= i < j < |all| && all[i] == all[j];
      if i < |a| <= j {
        assert a[i] in SetOf(a) && b[j - |a|] in SetOf(b);
      }
    }
  }

  lemma DistinctPart<T>(a: seq<T>, b: seq<T>)
    requires Distinct(a + b)
    ensures Distinct(a) && Distinct(b) && SetOf(a) !! SetOf(b)
  {
    var all := a + b;
    forall i, j | 0 <= i < j < |a|
      ensures a[i] != a[j]
    {
      assert all[i] == a[i] && all[j] == a[j];
    }
    forall i, j | 0 <= i < j < |b|
      ensures b[i] != b[j]
    {
      assert all[|a| + i] == b[i] && all[|a| + j] == b[j];
    }
    forall i, j | 0 <= i < |a| && 0 <= j < |b|
      ensures a[i] != b[j]
    {
      assert all[i] == a[i] && all[|a| + j] == b[j];
    }
  }

  /** The members a list comprehension with a condition keeps. */
  function Filter<T>(keep: T -> bool, s: seq<T>): seq<T> {
    if s == [] then []
    else Filter(keep, s[..|s| - 1]) + (if keep(s[|s| - 1]) then [s[|s| - 1]] else [])
  }

  /** `at` are the places at which the members of `s` meet the condition, in order. */
  ghost predicate PlacesOf<T(!new)>(keep: T -> bool, s: seq<T>, at: seq<nat>) {
    && (forall k, l :: 0 <= k < l < |at| ==> at[k] < at[l])
    && (forall k :: 0 <= k < |at| ==> at[k] < |s| && keep(s[at[k]]))
    && forall j :: 0 <= j < |s| && keep(s[j]) ==> j in at
  }

  lemma OneMorePlace<T(!new)>(keep: T -> bool, s: seq<T>, x: T, at: seq<nat>)
    requires PlacesOf(keep, s, at)
    ensures PlacesOf(keep, s + [x], at + (if keep(x) then [|s|] else []))
  {
    var longer, more := s + [x], at + (if keep(x) then [|s|] else []);
    forall j | 0 <= j < |longer| && keep(longer[j])
      ensures j in more
    {
      if j < |s| {
        assert j in at;
      } else {
        assert more[|at|] == j;
      }
    }
  }

  function Picked<T>(s: seq<T>, at: seq<nat>): seq<T>
    requires forall k :: 0 <= k < |at| ==> at[k] < |s|
  {
    seq(|at|, k requires 0 <= k < |at| => s[at[k]])
  }

  /** A filtered list has exactly the members that meet the condition, in their order. */
  lemma {:induction false} FilterPicks<T(!new)>(keep: T -> bool, s: seq<T>) returns (at: seq<nat>)
    ensures PlacesOf(keep, s, at) && Filter(keep, s) == Picked(s, at)
  {
    if s == [] {
      at := [];
    } else {
      var n := |s| - 1;
      var front := s[..n];
      var before := FilterPicks(keep, front);
      OneMorePlace(keep, front, s[n], before);
      assert s == front + [s[n]];
      at := before + (if keep(s[n]) then [n] else []);
      assert Picked(s, at) == Picked(front, before) + (if keep(s[n]) then [s[n]] else []);
    }
  }
}
