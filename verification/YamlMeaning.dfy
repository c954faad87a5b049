/** What the OpenAPI line parser makes of any lines, without following it line by line: which lines become rows, and where
    each row's path, method and operation come from. */
module YamlMeaning {
  import opened Options
  import opened YamlOperations
  import R = YamlRoundTrip

  /** The last path line before `i` is `p`. */
  ghost predicate PathAt(kinds: seq<Kind>, p: int, i: int) {
    0 <= p < i <= |kinds| && kinds[p].PathLine? && forall q :: p < q < i ==> !kinds[q].PathLine?
  }

  /** A method line with a path line somewhere before it. */
  ghost predicate IsHead(kinds: seq<Kind>, i: int) {
    0 <= i < |kinds| && kinds[i].MethodLine? && exists p :: 0 <= p < i && kinds[p].PathLine?
  }

  /** An operationId line after `i` with neither a path nor a method line between them. */
  ghost predicate Under(kinds: seq<Kind>, i: int, j: int) {
    && 0 <= i < j < |kinds| && kinds[j].IdLine?
    && forall q :: i < q < j ==> !kinds[q].PathLine? && !kinds[q].MethodLine?
  }

  /** The row of the method line `i`: the path of the last path line before it, its own method, and the last id under it or,
      where there is none, method and path with a blank between them. */
  ghost predicate RowFor(kinds: seq<Kind>, i: int, row: Row)
    requires IsHead(kinds, i)
  {
    && (forall p :: PathAt(kinds, p, i) ==> row.path == kinds[p].path)
    && row.method_ == kinds[i].verb
    && (forall j :: Under(kinds, i, j) && (forall l :: l > j ==> !Under(kinds, i, l)) ==> row.operation == kinds[j].id)
    && ((forall j :: !Under(kinds, i, j)) ==> row.operation == row.method_ + ([' '] + row.path))
  }

  /** `heads` are the places of the method lines that have a path, in order. */
  ghost predicate HeadsOf(kinds: seq<Kind>, heads: seq<nat>) {
    && (forall k, l :: 0 <= k < l < |heads| ==> heads[k] < heads[l])
    && (forall k :: 0 <= k < |heads| ==> IsHead(kinds, heads[k]))
    && forall i :: IsHead(kinds, i) ==> i in heads
  }

  /** Neither a path nor a method line follows `i`. */
  ghost predicate Open(kinds: seq<Kind>, i: int) {
    forall q :: i < q < |kinds| && 0 <= q ==> !kinds[q].PathLine? && !kinds[q].MethodLine?
  }

  /** What the state remembers of the lines read. */
  ghost predicate Remembers(kinds: seq<Kind>, heads: seq<nat>, st: State) {
    && HeadsOf(kinds, heads) && |st.rows| == |heads|
    && (forall k :: 0 <= k < |heads| ==> RowFor(kinds, heads[k], st.rows[k]))
    && (st.path.None? <==> forall p :: 0 <= p < |kinds| ==> !kinds[p].PathLine?)
    && (forall p :: PathAt(kinds, p, |kinds|) ==> st.path == Some(kinds[p].path))
    && (st.verb.Some? <==> heads != [] && Open(kinds, heads[|heads| - 1]))
  }

  lemma StepsSnoc(st: State, kinds: seq<Kind>, kind: Kind)
    ensures Steps(st, kinds + [kind]) == Step(Steps(st, kinds), kind)
  {
    R.StepsConcat(st, kinds, [kind]);
  }

  // ---------- one more line ----------

  lemma LongerHead(kinds: seq<Kind>, kind: Kind, i: int)
    requires i < |kinds|
    ensures IsHead(kinds + [kind], i) <==> IsHead(kinds, i)
  {
    var longer := kinds + [kind];
    if IsHead(kinds, i) {
      var p :| 0 <= p < i && kinds[p].PathLine?;
      assert longer[p].PathLine?;
    }
    if IsHead(longer, i) {
      var p :| 0 <= p < i && longer[p].PathLine?;
      assert kinds[p].PathLine?;
    }
  }

  lemma LongerPath(kinds: seq<Kind>, kind: Kind, p: int, i: int)
    requires i <= |kinds|
    ensures PathAt(kinds + [kind], p, i) <==> PathAt(kinds, p, i)
    ensures PathAt(kinds, p, i) ==> 0 <= p < |kinds| && (kinds + [kind])[p] == kinds[p]
  {
    var longer := kinds + [kind];
    assert forall q :: 0 <= q < |kinds| ==> longer[q] == kinds[q];
  }

  lemma LongerUnder(kinds: seq<Kind>, kind: Kind, i: int, j: int)
    requires j < |kinds|
    ensures Under(kinds + [kind], i, j) <==> Under(kinds, i, j)
    ensures Under(kinds, i, j) ==> 0 <= j < |kinds| && (kinds + [kind])[j] == kinds[j]
  {
    var longer := kinds + [kind];
    assert forall q :: 0 <= q < |kinds| ==> longer[q] == kinds[q];
  }

  lemma UnderLast(kinds: seq<Kind>, kind: Kind, i: nat)
    requires i < |kinds|
    ensures Under(kinds + [kind], i, |kinds|) <==> kind.IdLine? && Open(kinds, i)
    ensures Open(kinds + [kind], i) <==> Open(kinds, i) && !kind.PathLine? && !kind.MethodLine?
  {
    var longer := kinds + [kind];
    assert forall q :: 0 <= q < |kinds| ==> longer[q] == kinds[q];
    assert longer[|kinds|] == kind;
  }

  lemma RowKept(kinds: seq<Kind>, kind: Kind, h: int, row: Row)
    requires IsHead(kinds, h) && RowFor(kinds, h, row) && !Under(kinds + [kind], h, |kinds|)
    ensures IsHead(kinds + [kind], h) && RowFor(kinds + [kind], h, row)
  {
    hide PathAt, Under, IsHead;
    var longer := kinds + [kind];
    HeadInside(kinds, h);
    LongerHead(kinds, kind, h);
    forall p
      ensures PathAt(longer, p, h) <==> PathAt(kinds, p, h)
      ensures PathAt(kinds, p, h) ==> 0 <= p < |kinds| && longer[p] == kinds[p]
    {
      LongerPath(kinds, kind, p, h);
    }
    forall j
      ensures Under(longer, h, j) <==> Under(kinds, h, j)
      ensures Under(kinds, h, j) ==> 0 <= j < |kinds| && longer[j] == kinds[j]
    {
      if j < |kinds| {
        LongerUnder(kinds, kind, h, j);
      } else {
        NoneUnder(kinds, kind, h, j);
      }
    }
  }

  lemma HeadInside(kinds: seq<Kind>, h: int)
    requires IsHead(kinds, h)
    ensures 0 <= h < |kinds| && kinds[h].MethodLine?
  {
  }

  lemma NoneUnder(kinds: seq<Kind>, kind: Kind, h: int, j: int)
    requires j >= |kinds| && !Under(kinds + [kind], h, |kinds|)
    ensures !Under(kinds + [kind], h, j) && !Under(kinds, h, j)
  {
  }

  lemma RowNamed(kinds: seq<Kind>, kind: Kind, h: int, row: Row)
    requires IsHead(kinds, h) && RowFor(kinds, h, row) && kind.IdLine? && Under(kinds + [kind], h, |kinds|)
    ensures IsHead(kinds + [kind], h) && RowFor(kinds + [kind], h, row.(operation := kind.id))
  {
    hide PathAt, IsHead;
    var longer := kinds + [kind];
    HeadInside(kinds, h);
    LongerHead(kinds, kind, h);
    forall p
      ensures PathAt(longer, p, h) <==> PathAt(kinds, p, h)
      ensures PathAt(kinds, p, h) ==> 0 <= p < |kinds| && longer[p] == kinds[p]
    {
      LongerPath(kinds, kind, p, h);
    }
    assert longer[|kinds|] == kind;
  }

  /** The first row of a method line. */
  lemma RowOpened(kinds: seq<Kind>, verb: string, path: string, p: int)
    requires PathAt(kinds, p, |kinds|) && kinds[p].path == path
    ensures
      var longer := kinds + [MethodLine(verb)];
      IsHead(longer, |kinds|) && RowFor(longer, |kinds|, Row(path, verb, Untitled(verb, path))) && Open(longer, |kinds|)
  {
    var longer := kinds + [MethodLine(verb)];
    assert longer[p].PathLine? && longer[|kinds|] == MethodLine(verb);
    assert Untitled(verb, path) == verb + ([' '] + path) by {
      var name := Untitled(verb, path);
      assert name == name[..|verb|] + ([name[|verb|]] + name[|verb| + 1..]);
    }
    forall q | PathAt(longer, q, |kinds|)
      ensures q == p
    {
      LongerPath(kinds, MethodLine(verb), q, |kinds|);
      assert PathAt(kinds, q, |kinds|);
    }
  }

  lemma PathThere(kinds: seq<Kind>) returns (p: nat)
    requires exists q :: 0 <= q < |kinds| && kinds[q].PathLine?
    ensures PathAt(kinds, p, |kinds|)
  {
    p := |kinds| - 1;
    while !kinds[p].PathLine?
      invariant p < |kinds|
      invariant exists q :: 0 <= q <= p && kinds[q].PathLine?
      invariant forall q :: p < q < |kinds| ==> !kinds[q].PathLine?
      decreases p
    {
      p := p - 1;
    }
  }

  lemma HeadsKept(kinds: seq<Kind>, kind: Kind, heads: seq<nat>)
    requires HeadsOf(kinds, heads) && (kind.MethodLine? ==> forall p :: 0 <= p < |kinds| ==> !kinds[p].PathLine?)
    ensures HeadsOf(kinds + [kind], heads)
  {
    hide IsHead;
    var longer := kinds + [kind];
    NewHead(kinds, kind);
    forall k | 0 <= k < |heads|
      ensures IsHead(longer, heads[k])
    {
      HeadInside(kinds, heads[k]);
      LongerHead(kinds, kind, heads[k]);
    }
    forall i | IsHead(longer, i)
      ensures i in heads
    {
      HeadInside(longer, i);
      if i < |kinds| {
        LongerHead(kinds, kind, i);
      }
    }
  }

  lemma NewHead(kinds: seq<Kind>, kind: Kind)
    ensures IsHead(kinds + [kind], |kinds|) <==> kind.MethodLine? && exists p :: 0 <= p < |kinds| && kinds[p].PathLine?
  {
    var longer := kinds + [kind];
    assert forall q :: 0 <= q < |kinds| ==> longer[q] == kinds[q];
  }

  lemma HeadsGrown(kinds: seq<Kind>, kind: Kind, heads: seq<nat>)
    requires HeadsOf(kinds, heads) && IsHead(kinds + [kind], |kinds|)
    ensures HeadsOf(kinds + [kind], heads + [|kinds|])
  {
    hide IsHead;
    var longer, more := kinds + [kind], heads + [|kinds|];
    forall k | 0 <= k < |heads|
      ensures heads[k] < |kinds| && IsHead(longer, heads[k])
    {
      HeadInside(kinds, heads[k]);
      LongerHead(kinds, kind, heads[k]);
    }
    forall i | IsHead(longer, i)
      ensures i in more
    {
      HeadInside(longer, i);
      if i < |kinds| {
        LongerHead(kinds, kind, i);
        assert i in heads;
      } else {
        assert more[|heads|] == i;
      }
    }
  }

  /** Only the last method line can be open. */
  lemma EarlierClosed(kinds: seq<Kind>, heads: seq<nat>, k: nat)
    requires HeadsOf(kinds, heads) && k + 1 < |heads|
    ensures !Open(kinds, heads[k])
  {
    HeadInside(kinds, heads[|heads| - 1]);
    assert heads[k] < heads[|heads| - 1];
  }

  /** A row is left as it is by a line that names nothing, and by an id that is not under it. */
  lemma RowsKept(kinds: seq<Kind>, kind: Kind, heads: seq<nat>, st: State, n: nat)
    requires Remembers(kinds, heads, st) && n <= |heads|
    requires forall k :: 0 <= k < n ==> !kind.IdLine? || !Open(kinds, heads[k])
    ensures forall k :: 0 <= k < n ==> IsHead(kinds + [kind], heads[k]) && RowFor(kinds + [kind], heads[k], st.rows[k])
  {
    hide RowFor, IsHead, Open, Under;
    forall k | 0 <= k < n
      ensures IsHead(kinds + [kind], heads[k]) && RowFor(kinds + [kind], heads[k], st.rows[k])
    {
      HeadInside(kinds, heads[k]);
      UnderLast(kinds, kind, heads[k]);
      RowKept(kinds, kind, heads[k], st.rows[k]);
    }
  }

  /** The memory of the last path line after one more line. */
  lemma PathRemembered(kinds: seq<Kind>, kind: Kind, path: Option<string>)
    requires path.None? <==> forall p :: 0 <= p < |kinds| ==> !kinds[p].PathLine?
    requires forall p :: PathAt(kinds, p, |kinds|) ==> path == Some(kinds[p].path)
    ensures
      var longer, now := kinds + [kind], if kind.PathLine? then Some(kind.path) else path;
      && (now.None? <==> forall p :: 0 <= p < |longer| ==> !longer[p].PathLine?)
      && (forall p :: PathAt(longer, p, |longer|) ==> now == Some(longer[p].path))
  {
    var longer := kinds + [kind];
    assert longer[|kinds|] == kind && forall q :: 0 <= q < |kinds| ==> longer[q] == kinds[q];
    if path.Some? {
      var q :| 0 <= q < |kinds| && kinds[q].PathLine?;
      assert longer[q].PathLine?;
    }
    forall p | PathAt(longer, p, |longer|)
      ensures (if kind.PathLine? then Some(kind.path) else path) == Some(longer[p].path)
    {
      if !kind.PathLine? {
        assert PathAt(kinds, p, |kinds|);
      }
    }
  }

  lemma LastOpen(kinds: seq<Kind>, kind: Kind, heads: seq<nat>)
    requires HeadsOf(kinds, heads) && heads != []
    ensures
      var last := heads[|heads| - 1];
      Open(kinds + [kind], last) <==> Open(kinds, last) && !kind.PathLine? && !kind.MethodLine?
  {
    HeadInside(kinds, heads[|heads| - 1]);
    UnderLast(kinds, kind, heads[|heads| - 1]);
  }

  lemma AfterMethod(kinds: seq<Kind>, heads: seq<nat>, st: State, verb: string) returns (more: seq<nat>)
    requires Remembers(kinds, heads, st)
    ensures Remembers(kinds + [MethodLine(verb)], more, Step(st, MethodLine(verb)))
  {
    hide RowFor, IsHead, PathAt, Open, HeadsOf;
    var kind := MethodLine(verb);
    PathRemembered(kinds, kind, st.path);
    RowsKept(kinds, kind, heads, st, |heads|);
    NewHead(kinds, kind);
    if heads != [] {
      HeadHasPath(kinds, heads);
    }
    if st.path.None? {
      more := heads;
      HeadsKept(kinds, kind, heads);
    } else {
      more := heads + [|kinds|];
      HeadsGrown(kinds, kind, heads);
      var p := PathThere(kinds);
      RowOpened(kinds, verb, st.path.value, p);
    }
  }

  lemma HeadHasPath(kinds: seq<Kind>, heads: seq<nat>)
    requires HeadsOf(kinds, heads) && heads != []
    ensures exists p :: 0 <= p < |kinds| && kinds[p].PathLine?
  {
    assert IsHead(kinds, heads[0]);
  }

  lemma AfterId(kinds: seq<Kind>, heads: seq<nat>, st: State, id: string)
    requires Remembers(kinds, heads, st)
    ensures Remembers(kinds + [IdLine(id)], heads, Step(st, IdLine(id)))
  {
    hide RowFor, IsHead, PathAt, Open, HeadsOf;
    var kind := IdLine(id);
    PathRemembered(kinds, kind, st.path);
    HeadsKept(kinds, kind, heads);
    if heads != [] {
      var last := |heads| - 1;
      LastOpen(kinds, kind, heads);
      forall k | 0 <= k < last
        ensures !Open(kinds, heads[k])
      {
        EarlierClosed(kinds, heads, k);
      }
      if st.verb.Some? {
        RowsKept(kinds, kind, heads, st, last);
        LastNamed(kinds, heads, st, id);
      } else {
        RowsKept(kinds, kind, heads, st, |heads|);
      }
    }
  }

  lemma LastNamed(kinds: seq<Kind>, heads: seq<nat>, st: State, id: string)
    requires Remembers(kinds, heads, st) && st.verb.Some?
    ensures
      var last := |heads| - 1;
      && heads != [] && IsHead(kinds + [IdLine(id)], heads[last])
      && RowFor(kinds + [IdLine(id)], heads[last], st.rows[last].(operation := id))
  {
    hide RowFor, Open, IsHead;
    var last := |heads| - 1;
    HeadInside(kinds, heads[last]);
    UnderLast(kinds, IdLine(id), heads[last]);
    RowNamed(kinds, IdLine(id), heads[last], st.rows[last]);
  }

  lemma AfterOther(kinds: seq<Kind>, heads: seq<nat>, st: State, kind: Kind)
    requires Remembers(kinds, heads, st) && (kind.PathLine? || kind.Noise?)
    ensures Remembers(kinds + [kind], heads, Step(st, kind))
  {
    hide RowFor, IsHead, PathAt, Open, HeadsOf;
    PathRemembered(kinds, kind, st.path);
    HeadsKept(kinds, kind, heads);
    RowsKept(kinds, kind, heads, st, |heads|);
    if heads != [] {
      LastOpen(kinds, kind, heads);
    }
  }

  lemma {:induction false} Remembered(kinds: seq<Kind>) returns (heads: seq<nat>)
    ensures Remembers(kinds, heads, Steps(START, kinds))
    decreases |kinds|
  {
    if kinds == [] {
      heads := [];
    } else {
      hide Remembers;
      var n := |kinds| - 1;
      var front, kind := kinds[..n], kinds[n];
      assert kinds == front + [kind];
      var before := Remembered(front);
      StepsSnoc(START, front, kind);
      if kind.MethodLine? {
        heads := AfterMethod(front, before, Steps(START, front), kind.verb);
      } else if kind.IdLine? {
        heads := before;
        AfterId(front, before, Steps(START, front), kind.id);
      } else {
        heads := before;
        AfterOther(front, before, Steps(START, front), kind);
      }
    }
  }

  /** For any lines: there is one row for each method line with a path line before it, in their order. It has the path of the
      last path line before it, its own method, and the last id before the next path or method line; where there is no such
      id it is named by method and path. */
  lemma {:induction false} RowsOfAnyLines(classify: string -> Kind, lines: seq<string>) returns (heads: seq<nat>)
    ensures |Operations(classify, lines)| == |heads|
    ensures forall k, l :: 0 <= k < l < |heads| ==> heads[k] < heads[l]
    ensures forall i :: i in heads <==> IsHead(Kinds(classify, lines), i)
    ensures forall k :: 0 <= k < |heads| ==> RowFor(Kinds(classify, lines), heads[k], Operations(classify, lines)[k])
  {
    hide RowFor, IsHead, Open, PathAt;
    heads := Remembered(Kinds(classify, lines));
  }
}
