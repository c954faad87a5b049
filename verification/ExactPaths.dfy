/** Repository-relative paths as the allowlist takes them.

    The script looks for `..` among the components of a path; the model looks for it between slashes. That these are the same
    is what this module is about, together with the other conditions on the path of an allowlist entry. */
module ExactPaths {

  /** At `i` the path holds `..` as a whole component. */
  predicate ParentAt(p: string, i: int) {
    && 0 <= i <= |p| - 2 && p[i] == '.' && p[i + 1] == '.'
    && (i == 0 || p[i - 1] == '/') && (i + 2 == |p| || p[i + 2] == '/')
  }

  predicate HasParent(p: string) {
    exists i :: 0 <= i <= |p| && ParentAt(p, i)
  }

  predicate IsExactPath(p: string) {
    && !("/" <= p)
    && !HasParent(p)
    && forall i :: 0 <= i < |p| ==> p[i] != '*' && p[i] != '?' && p[i] != '[' && p[i] != ']'
  }

  /** Up to the next slash. */
  function PartLength(p: string): (k: nat)
    ensures k <= |p| && (forall i :: 0 <= i < k ==> p[i] != '/') && (k < |p| ==> p[k] == '/')
  {
    if p == "" || p[0] == '/' then 0 else 1 + PartLength(p[1..])
  }

  /** What stands between the slashes, as `Path.parts` has it (which leaves out empty parts and single dots). */
  function Parts(p: string): seq<string>
    decreases |p|
  {
    var k := PartLength(p);
    if k == |p| then [p] else [p[..k]] + Parts(p[k + 1..])
  }

  lemma OnePart(p: string)
    requires PartLength(p) == |p|
    ensures p == ".." <==> exists i :: ParentAt(p, i)
  {
    if p == ".." {
      assert ParentAt(p, 0);
    }
    if i :| ParentAt(p, i) {
      assert i == 0 && |p| == 2;
      assert p == "..";
    }
  }

  lemma ParentShift(p: string, k: nat, rest: string)
    requires k == PartLength(p) < |p| && rest == p[k + 1..]
    ensures (exists i :: ParentAt(rest, i)) <==> exists i :: i > k && ParentAt(p, i)
  {
    if i :| ParentAt(rest, i) {
      assert ParentAt(p, i + k + 1);
    }
    if i :| i > k && ParentAt(p, i) {
      assert ParentAt(rest, i - k - 1);
    }
  }

  lemma FirstPart(p: string, k: nat)
    requires k == PartLength(p) < |p|
    ensures p[..k] == ".." <==> exists i :: i <= k && ParentAt(p, i)
  {
    if k == 2 {
      assert p[..2] == [p[0], p[1]];
      if p[..2] == ".." {
        assert ParentAt(p, 0);
      }
    }
    if i :| i <= k && ParentAt(p, i) {
    }
  }

  lemma {:induction false} ParentIff(p: string)
    ensures ".." in Parts(p) <==> exists i :: ParentAt(p, i)
    decreases |p|
  {
    hide ParentAt, PartLength;
    var k := PartLength(p);
    if k == |p| {
      OnePart(p);
    } else {
      ParentIff(p[k + 1..]);
      ParentShift(p, k, p[k + 1..]);
      FirstPart(p, k);
    }
  }

  /** An allowlist path is exact when it does not start at the root, climbs nowhere and has no wildcard. */
  lemma ExactPathIff(p: string)
    ensures IsExactPath(p) <==>
      && (p != "" ==> p[0] != '/') && ".." !in Parts(p)
      && '*' !in p && '?' !in p && '[' !in p && ']' !in p
  {
    hide Parts, HasParent;
    ParentIff(p);
    HasParentIff(p);
    if IsExactPath(p) {
      assert forall c :: c in p ==> exists i :: 0 <= i < |p| && p[i] == c;
    }
  }

  lemma HasParentIff(p: string)
    ensures HasParent(p) <==> exists i :: ParentAt(p, i)
  {
  }
}
