/** The pinned authority manifest: its builder, its structural validator, and what an accepted manifest lists. */
module AuthorityManifest {
  import opened Options
  import opened Counting

  // ---------- manifests ----------

  /** One approved repository: its commit and the artifacts that must be pinned. */
  datatype Authority = Authority(name: string, commit: string, comparison: string, artifacts: seq<string>)

  /** A JSON field that is missing is `None`. */
  datatype Artifact = Artifact(path: Option<string>, sha256: Hash)

  /** The `sha256` field: a text, or a list or an object, by its members or keys, of which `None` is no text. Missing
      fields and everything without a length are `NoHash`. */
  datatype Hash = NoHash | HashText(s: string) | HashItems(items: seq<Option<string>>)

  datatype Entry = Entry(repository: Option<string>, commit: Option<string>, comparison: Option<string>,
                         artifacts: Option<seq<Artifact>>)

  datatype Manifest = Manifest(schemaVersion: Option<int>, networkAccess: Option<bool>, repositories: Option<seq<Entry>>)

  function Names(approved: seq<Authority>): seq<Option<string>> {
    seq(|approved|, i requires 0 <= i < |approved| => Some(approved[i].name))
  }

  function EntryNames(entries: seq<Entry>): seq<Option<string>> {
    seq(|entries|, i requires 0 <= i < |entries| => entries[i].repository)
  }

  // ---------- the validator ----------

  datatype Problem = BadContract | IncompleteInventory | WrongNames | WrongCommit(name: string)
    | WrongArtifacts(name: string) | BadHash(name: string, path: Option<string>)

  predicate HexDigit(c: char) {
    '0' <= c <= '9' || 'a' <= c <= 'f'
  }

  const HEX_DIGITS := "0123456789abcdef"

  /** `item in "0123456789abcdef"`: Python looks for the whole item as a part of the text. */
  predicate PartOfDigits(item: string) {
    exists i, j :: 0 <= i <= j <= |HEX_DIGITS| && HEX_DIGITS[i..j] == item
  }

  /** What the check lets through: 64 hexadecimal digits, but also 64 list members or object keys that are parts of
      the digit text. */
  predicate GoodHash(a: Artifact) {
    match a.sha256
    case NoHash => false
    case HashText(s) => |s| == 64 && forall i :: 0 <= i < 64 ==> HexDigit(s[i])
    case HashItems(items) => |items| == 64 && forall i :: 0 <= i < 64 ==> items[i].Some? && PartOfDigits(items[i].value)
  }

  /** `{entry["repository"]: entry for entry in repositories}`: of entries with one name the last stays. */
  function ByName(entries: seq<Entry>): map<Option<string>, Entry> {
    if entries == [] then map[]
    else ByName(entries[..|entries| - 1])[entries[|entries| - 1].repository := entries[|entries| - 1]]
  }

  function Paths(artifacts: seq<Artifact>): set<Option<string>> {
    set a | a in artifacts :: a.path
  }

  function Pinned(a: Authority): set<Option<string>> {
    set path | path in a.artifacts :: Some(path)
  }

  function HashProblem(name: string, artifacts: seq<Artifact>): Option<Problem> {
    if artifacts == [] then None
    else if !GoodHash(artifacts[0]) then Some(BadHash(name, artifacts[0].path))
    else HashProblem(name, artifacts[1..])
  }

  function EntryProblem(a: Authority, e: Entry): Option<Problem> {
    if e.commit != Some(a.commit) then Some(WrongCommit(a.name))
    else if e.artifacts.None? || Paths(e.artifacts.value) != Pinned(a) then Some(WrongArtifacts(a.name))
    else HashProblem(a.name, e.artifacts.value)
  }

  function EntriesProblem(approved: seq<Authority>, byName: map<Option<string>, Entry>): Option<Problem>
    requires forall a :: a in approved ==> Some(a.name) in byName
  {
    if approved == [] then None
    else
      var problem := EntryProblem(approved[0], byName[Some(approved[0].name)]);
      if problem.Some? then problem else EntriesProblem(approved[1..], byName)
  }

  lemma {:induction false} ByNameKeys(entries: seq<Entry>)
    ensures ByName(entries).Keys == SetOf(EntryNames(entries))
    ensures forall i :: 0 <= i < |entries| ==> entries[i].repository in ByName(entries)
    decreases |entries|
  {
    var names := EntryNames(entries);
    if entries != [] {
      var front := entries[..|entries| - 1];
      ByNameKeys(front);
      assert names == EntryNames(front) + [entries[|entries| - 1].repository];
      assert SetOf(names) == SetOf(EntryNames(front)) + {entries[|entries| - 1].repository};
    }
    forall i | 0 <= i < |entries|
      ensures entries[i].repository in SetOf(names)
    {
      assert names[i] == entries[i].repository;
    }
  }

  lemma NameInSet(approved: seq<Authority>, a: Authority)
    requires a in approved
    ensures Some(a.name) in SetOf(Names(approved))
  {
    var i :| 0 <= i < |approved| && approved[i] == a;
    assert Names(approved)[i] == Some(a.name);
  }

  /** What `validate_structure` raises, if anything. */
  function StructureProblem(approved: seq<Authority>, m: Manifest): Option<Problem> {
    if m.schemaVersion != Some(1) || m.networkAccess != Some(false) then Some(BadContract)
    else if m.repositories.None? || |m.repositories.value| != |approved| then Some(IncompleteInventory)
    else
      var byName := ByName(m.repositories.value);
      if byName.Keys != SetOf(Names(approved)) then Some(WrongNames)
      else
        assert forall a :: a in approved ==> Some(a.name) in byName by {
          forall a | a in approved
            ensures Some(a.name) in byName.Keys
          {
            NameInSet(approved, a);
          }
        }
        EntriesProblem(approved, byName)
  }

  // ---------- what an accepted manifest lists ----------

  /** An entry pins an authority: the commit, exactly its artifacts as a set, and a well-formed hash for each. */
  ghost predicate Pins(a: Authority, e: Entry) {
    && e.commit == Some(a.commit)
    && e.artifacts.Some? && Paths(e.artifacts.value) == Pinned(a)
    && forall i :: 0 <= i < |e.artifacts.value| ==> GoodHash(e.artifacts.value[i])
  }

  ghost predicate ListedAt(entries: seq<Entry>, a: Authority, i: int) {
    0 <= i < |entries| && entries[i].repository == Some(a.name)
  }

  /** An authority has exactly one entry, and that entry pins it. */
  ghost predicate PinnedOnce(entries: seq<Entry>, a: Authority) {
    exists i :: ListedAt(entries, a, i) && Pins(a, entries[i]) && forall j :: ListedAt(entries, a, j) ==> j == i
  }

  /** An entry pins an authority when it has its commit, every artifact of the authority and no other, and behind each one a
      hash of 64 hexadecimal digits or 64 parts of the digit text. */
  lemma PinsSays(a: Authority, e: Entry)
    ensures Pins(a, e) <==>
      && e.commit == Some(a.commit) && e.artifacts.Some?
      && (forall path :: path in a.artifacts ==> exists k :: 0 <= k < |e.artifacts.value| && e.artifacts.value[k].path == Some(path))
      && forall k :: 0 <= k < |e.artifacts.value| ==>
          && e.artifacts.value[k].path.Some? && e.artifacts.value[k].path.value in a.artifacts
          && match e.artifacts.value[k].sha256
             case NoHash => false
             case HashText(s) => |s| == 64 && forall i :: 0 <= i < 64 ==> '0' <= s[i] <= '9' || 'a' <= s[i] <= 'f'
             case HashItems(items) => |items| == 64 && forall i :: 0 <= i < 64 ==> items[i].Some? && PartOfDigits(items[i].value)
  {
    hide PartOfDigits;
    if e.artifacts.Some? {
      SamePathsIff(a, e.artifacts.value);
    }
  }

  lemma SamePathsIff(a: Authority, artifacts: seq<Artifact>)
    ensures Paths(artifacts) == Pinned(a) <==>
      && (forall path :: path in a.artifacts ==> exists k :: 0 <= k < |artifacts| && artifacts[k].path == Some(path))
      && forall k :: 0 <= k < |artifacts| ==> artifacts[k].path.Some? && artifacts[k].path.value in a.artifacts
  {
    if Paths(artifacts) == Pinned(a) {
      forall path | path in a.artifacts
        ensures exists k :: 0 <= k < |artifacts| && artifacts[k].path == Some(path)
      {
        assert Some(path) in Pinned(a);
      }
      forall k | 0 <= k < |artifacts|
        ensures artifacts[k].path.Some? && artifacts[k].path.value in a.artifacts
      {
        assert artifacts[k].path in Pinned(a);
      }
    }
  }

  lemma {:induction false} HashProblemIff(name: string, artifacts: seq<Artifact>)
    ensures HashProblem(name, artifacts) == None <==> forall i :: 0 <= i < |artifacts| ==> GoodHash(artifacts[i])
  {
    if artifacts != [] {
      HashProblemIff(name, artifacts[1..]);
      assert forall i :: 1 <= i < |artifacts| ==> artifacts[i] == artifacts[1..][i - 1];
    }
  }

  lemma EntryProblemIff(a: Authority, e: Entry)
    ensures EntryProblem(a, e) == None <==> Pins(a, e)
  {
    if e.artifacts.Some? {
      HashProblemIff(a.name, e.artifacts.value);
    }
  }

  lemma {:induction false} EntriesProblemIff(approved: seq<Authority>, byName: map<Option<string>, Entry>)
    requires forall a :: a in approved ==> Some(a.name) in byName
    ensures EntriesProblem(approved, byName) == None <==> forall a :: a in approved ==> Pins(a, byName[Some(a.name)])
  {
    hide EntryProblem, Pins;
    if approved != [] {
      EntryProblemIff(approved[0], byName[Some(approved[0].name)]);
      EntriesProblemIff(approved[1..], byName);
      assert forall a :: a in approved <==> a == approved[0] || a in approved[1..];
    }
  }

  /** Where names are not repeated, the dictionary is the list. */
  lemma {:induction false} ByNameAt(entries: seq<Entry>, i: nat)
    requires Distinct(EntryNames(entries)) && i < |entries|
    ensures entries[i].repository in ByName(entries) && ByName(entries)[entries[i].repository] == entries[i]
    decreases |entries|
  {
    var last := |entries| - 1;
    var names := EntryNames(entries);
    assert names[i] == entries[i].repository && names[last] == entries[last].repository;
    if i < last {
      var front := entries[..last];
      assert EntryNames(front) == names[..last];
      ByNameAt(front, i);
    }
  }

  lemma DistinctNames(approved: seq<Authority>, entries: seq<Entry>)
    requires Distinct(Names(approved)) && |entries| == |approved|
    requires SetOf(EntryNames(entries)) == SetOf(Names(approved))
    ensures Distinct(EntryNames(entries))
  {
    SetSizeIff(Names(approved));
    SetSizeIff(EntryNames(entries));
  }

  lemma PinnedOnceIff(entries: seq<Entry>, a: Authority)
    requires Distinct(EntryNames(entries)) && Some(a.name) in ByName(entries)
    ensures PinnedOnce(entries, a) <==> Pins(a, ByName(entries)[Some(a.name)])
  {
    hide Pins;
    var names := EntryNames(entries);
    ByNameKeys(entries);
    assert Some(a.name) in SetOf(names);
    var i: nat :| i < |names| && names[i] == Some(a.name);
    assert ListedAt(entries, a, i);
    ByNameAt(entries, i);
    forall j | ListedAt(entries, a, j)
      ensures j == i
    {
      assert names[j] == names[i];
    }
  }

  lemma PinnedCover(approved: seq<Authority>, entries: seq<Entry>)
    requires Distinct(Names(approved)) && |entries| == |approved|
    requires forall a :: a in approved ==> PinnedOnce(entries, a)
    ensures SetOf(EntryNames(entries)) == SetOf(Names(approved))
  {
    hide Pins;
    var want, have := Names(approved), EntryNames(entries);
    forall name | name in SetOf(want)
      ensures name in SetOf(have)
    {
      var k :| 0 <= k < |want| && want[k] == name;
      assert approved[k] in approved;
      assert PinnedOnce(entries, approved[k]);
      var i :| ListedAt(entries, approved[k], i);
      assert have[i] == name;
    }
    SetSizeIff(want);
    SetSizeIff(have);
    FullSubset(SetOf(want), SetOf(have));
  }

  lemma MemberOfNames(approved: seq<Authority>, entries: seq<Entry>, a: Authority)
    requires SetOf(EntryNames(entries)) == SetOf(Names(approved)) && a in approved
    ensures Some(a.name) in ByName(entries)
  {
    NameInSet(approved, a);
    ByNameKeys(entries);
  }

  /** An accepted manifest lists each approved repository exactly once, nothing else, at its commit and with its
      artifacts; and every such manifest is accepted. */
  lemma AcceptedIff(approved: seq<Authority>, m: Manifest)
    requires Distinct(Names(approved))
    ensures StructureProblem(approved, m) == None
       <==> && m.schemaVersion == Some(1) && m.networkAccess == Some(false)
            && m.repositories.Some? && |m.repositories.value| == |approved|
            && forall a :: a in approved ==> PinnedOnce(m.repositories.value, a)
  {
    hide ByName, Pins, PinnedOnce, EntryProblem, Distinct, Names, EntryNames;
    if m.repositories.Some? && |m.repositories.value| == |approved| {
      var entries := m.repositories.value;
      ByNameKeys(entries);
      if forall a :: a in approved ==> PinnedOnce(entries, a) {
        PinnedCover(approved, entries);
      }
      if SetOf(EntryNames(entries)) == SetOf(Names(approved)) {
        DistinctNames(approved, entries);
        forall a | a in approved
          ensures Some(a.name) in ByName(entries) && (PinnedOnce(entries, a) <==> Pins(a, ByName(entries)[Some(a.name)]))
        {
          MemberOfNames(approved, entries, a);
          PinnedOnceIff(entries, a);
        }
        EntriesProblemIff(approved, ByName(entries));
      }
    }
  }

  // ---------- the builder ----------

  /** The checkout: the content of a repository's file, if it is one, and the hash function. */
  datatype Checkout<!C> = Checkout(file: (string, string) -> Option<C>, sha256: C -> string)

  ghost predicate Hashes<C(!new)>(sha256: C -> string) {
    forall c :: GoodHash(Artifact(None, HashText(sha256(c))))
  }

  function Pin<C>(src: Checkout<C>, name: string, path: string): Artifact
    requires src.file(name, path).Some?
  {
    Artifact(Some(path), HashText(src.sha256(src.file(name, path).value)))
  }

  predicate AllThere<C>(src: Checkout<C>, a: Authority) {
    forall k :: 0 <= k < |a.artifacts| ==> src.file(a.name, a.artifacts[k]).Some?
  }

  function EntryFor<C>(src: Checkout<C>, a: Authority): Entry
    requires AllThere(src, a)
  {
    Entry(Some(a.name), Some(a.commit), Some(a.comparison),
          Some(seq(|a.artifacts|, k requires 0 <= k < |a.artifacts| => Pin(src, a.name, a.artifacts[k]))))
  }

  /** The loops of `build_manifest`; no result when a pinned artifact is missing. */
  method BuildManifest<C>(src: Checkout<C>, approved: seq<Authority>) returns (r: Option<Manifest>)
    ensures r.Some? <==> forall i :: 0 <= i < |approved| ==> AllThere(src, approved[i])
    ensures r.Some? ==>
      && r.value.schemaVersion == Some(1) && r.value.networkAccess == Some(false) && r.value.repositories.Some?
      && |r.value.repositories.value| == |approved|
      && forall i :: 0 <= i < |approved| ==> r.value.repositories.value[i] == EntryFor(src, approved[i])
  {
    var repositories: seq<Entry> := [];
    for i := 0 to |approved|
      invariant |repositories| == i
      invariant forall k :: 0 <= k < i ==> AllThere(src, approved[k]) && repositories[k] == EntryFor(src, approved[k])
    {
      var a := approved[i];
      var artifacts: seq<Artifact> := [];
      for k := 0 to |a.artifacts|
        invariant |artifacts| == k
        invariant forall j :: 0 <= j < k ==> src.file(a.name, a.artifacts[j]).Some? && artifacts[j] == Pin(src, a.name, a.artifacts[j])
      {
        if src.file(a.name, a.artifacts[k]).None? {
          return None;
        }
        artifacts := artifacts + [Pin(src, a.name, a.artifacts[k])];
      }
      assert artifacts == EntryFor(src, a).artifacts.value;
      repositories := repositories + [Entry(Some(a.name), Some(a.commit), Some(a.comparison), Some(artifacts))];
    }
    r := Some(Manifest(Some(1), Some(false), Some(repositories)));
  }

  /** An entry as the builder writes it: the approved name, commit and comparison, and for each artifact in order its path and
      the hash of the content found under the repository's name and that path. */
  lemma EntryForSays<C>(src: Checkout<C>, a: Authority, k: nat)
    requires AllThere(src, a)
    ensures
      var e := EntryFor(src, a);
      && e.repository == Some(a.name) && e.commit == Some(a.commit) && e.comparison == Some(a.comparison)
      && e.artifacts.Some? && |e.artifacts.value| == |a.artifacts|
      && (k < |a.artifacts| ==>
            && e.artifacts.value[k].path == Some(a.artifacts[k]) && src.file(a.name, a.artifacts[k]).Some?
            && e.artifacts.value[k].sha256 == HashText(src.sha256(src.file(a.name, a.artifacts[k]).value)))
  {
  }

  ghost predicate BuiltFrom<C>(src: Checkout<C>, approved: seq<Authority>, m: Manifest) {
    && m.schemaVersion == Some(1) && m.networkAccess == Some(false)
    && m.repositories.Some? && |m.repositories.value| == |approved|
    && forall i :: 0 <= i < |approved| ==> AllThere(src, approved[i]) && m.repositories.value[i] == EntryFor(src, approved[i])
  }

  lemma EntryPins<C(!new)>(src: Checkout<C>, a: Authority)
    requires AllThere(src, a) && Hashes(src.sha256)
    ensures Pins(a, EntryFor(src, a))
  {
    var artifacts := EntryFor(src, a).artifacts.value;
    forall path | path in a.artifacts
      ensures Some(path) in Paths(artifacts)
    {
      var k :| 0 <= k < |a.artifacts| && a.artifacts[k] == path;
      assert artifacts[k].path == Some(path);
    }
    assert Paths(artifacts) == Pinned(a);
    forall k | 0 <= k < |artifacts|
      ensures GoodHash(artifacts[k])
    {
      assert GoodHash(Artifact(None, artifacts[k].sha256));
    }
  }

  /** Whatever the builder writes, from any checkout, the validator accepts. */
  lemma BuiltIsAccepted<C(!new)>(src: Checkout<C>, approved: seq<Authority>, m: Manifest)
    requires Distinct(Names(approved)) && Hashes(src.sha256) && BuiltFrom(src, approved, m)
    ensures StructureProblem(approved, m) == None
  {
    hide Pins, StructureProblem, Hashes, AllThere;
    var entries := m.repositories.value;
    forall a | a in approved
      ensures PinnedOnce(entries, a)
    {
      var i: nat :| i < |approved| && approved[i] == a;
      EntryPins(src, a);
      assert ListedAt(entries, a, i);
      forall j | ListedAt(entries, a, j)
        ensures j == i
      {
        assert Names(approved)[j] == Some(approved[j].name) == Some(approved[i].name) == Names(approved)[i];
      }
    }
    AcceptedIff(approved, m);
  }

  // ---------- what acceptance leaves open ----------

  /** Replacing an entry by one with the same name, commit and artifact set, and good hashes wherever the old one has
      them, keeps a manifest accepted. */
  lemma EntryReplaced(approved: seq<Authority>, m: Manifest, i: nat, e: Entry)
    requires Distinct(Names(approved)) && StructureProblem(approved, m) == None && i < |m.repositories.value|
    requires var was := m.repositories.value[i]; e.repository == was.repository && e.commit == was.commit
    requires forall a :: Pins(a, m.repositories.value[i]) ==> Pins(a, e)
    ensures StructureProblem(approved, m.(repositories := Some(m.repositories.value[i := e]))) == None
  {
    hide StructureProblem, Pins;
    AcceptedIff(approved, m);
    var entries := m.repositories.value;
    var edited := entries[i := e];
    forall a | a in approved
      ensures PinnedOnce(edited, a)
    {
      assert PinnedOnce(entries, a);
      var k :| ListedAt(entries, a, k) && Pins(a, entries[k]) && forall j :: ListedAt(entries, a, j) ==> j == k;
      assert ListedAt(edited, a, k) && Pins(a, edited[k]);
      assert forall j :: ListedAt(edited, a, j) ==> ListedAt(entries, a, j);
    }
    AcceptedIff(approved, m.(repositories := Some(edited)));
  }

  /** The inventory of one repository is compared as a set: an accepted manifest stays accepted when an artifact is
      listed again with another well-formed hash. */
  lemma RepeatedArtifactAccepted(approved: seq<Authority>, m: Manifest, i: nat, again: Artifact)
    requires Distinct(Names(approved)) && StructureProblem(approved, m) == None
    requires i < |m.repositories.value| && m.repositories.value[i].artifacts.Some?
    requires GoodHash(again) && again.path in Paths(m.repositories.value[i].artifacts.value)
    ensures var e := m.repositories.value[i];
            StructureProblem(approved, m.(repositories :=
              Some(m.repositories.value[i := e.(artifacts := Some(e.artifacts.value + [again]))]))) == None
  {
    var e := m.repositories.value[i];
    hide StructureProblem, GoodHash;
    var longer := e.(artifacts := Some(e.artifacts.value + [again]));
    assert Paths(longer.artifacts.value) == Paths(e.artifacts.value);
    EntryReplaced(approved, m, i, longer);
  }

  function DigitList(s: string): Hash {
    HashItems(seq(|s|, i requires 0 <= i < |s| => Some([s[i]])))
  }

  /** Of single characters the digit text has exactly the lower-case hexadecimal digits. */
  lemma DigitIsPart(c: char)
    ensures HexDigit(c) <==> PartOfDigits([c])
  {
    if PartOfDigits([c]) {
      var i, j :| 0 <= i <= j <= |HEX_DIGITS| && HEX_DIGITS[i..j] == [c];
      assert HEX_DIGITS[i..j][0] == HEX_DIGITS[i] == c;
      DigitAt(i);
    }
    if '0' <= c <= '9' {
      var i := (c - '0') as int;
      DigitAt(i);
      assert HEX_DIGITS[i..i + 1] == [c];
    } else if 'a' <= c <= 'f' {
      var i := 10 + (c - 'a') as int;
      DigitAt(i);
      assert HEX_DIGITS[i..i + 1] == [c];
    }
  }

  lemma DigitAt(i: int)
    requires 0 <= i < 16
    ensures HEX_DIGITS[i] == if i < 10 then '0' + i as char else 'a' + (i - 10) as char
  {
  }

  /** A hash given as the list of its digits passes as well: an accepted manifest stays accepted when any of its
      text hashes is replaced so. */
  lemma DigitListAccepted(approved: seq<Authority>, m: Manifest, i: nat, k: nat)
    requires Distinct(Names(approved)) && StructureProblem(approved, m) == None
    requires i < |m.repositories.value| && m.repositories.value[i].artifacts.Some?
    requires k < |m.repositories.value[i].artifacts.value| && m.repositories.value[i].artifacts.value[k].sha256.HashText?
    requires GoodHash(m.repositories.value[i].artifacts.value[k])
    ensures var e := m.repositories.value[i];
            var a := e.artifacts.value[k];
            StructureProblem(approved, m.(repositories := Some(m.repositories.value[i :=
              e.(artifacts := Some(e.artifacts.value[k := a.(sha256 := DigitList(a.sha256.s))]))]))) == None
  {
    var e := m.repositories.value[i];
    var a := e.artifacts.value[k];
    var listed := a.(sha256 := DigitList(a.sha256.s));
    DigitListGood(a, listed);
    hide StructureProblem, GoodHash, PartOfDigits;
    PathsKept(e.artifacts.value, k, listed);
    EntryReplaced(approved, m, i, e.(artifacts := Some(e.artifacts.value[k := listed])));
  }

  lemma PathsKept(artifacts: seq<Artifact>, k: nat, a: Artifact)
    requires k < |artifacts| && a.path == artifacts[k].path
    ensures Paths(artifacts[k := a]) == Paths(artifacts)
  {
    var edited := artifacts[k := a];
    forall path
      ensures path in Paths(edited) <==> path in Paths(artifacts)
    {
      if i :| 0 <= i < |artifacts| && artifacts[i].path == path {
        assert edited[i].path == path && edited[i] in edited;
      }
      if i :| 0 <= i < |artifacts| && edited[i].path == path {
        assert artifacts[i].path == path && artifacts[i] in artifacts;
      }
    }
  }

  lemma DigitListGood(a: Artifact, listed: Artifact)
    requires a.sha256.HashText? && GoodHash(a) && listed == a.(sha256 := DigitList(a.sha256.s))
    ensures GoodHash(listed)
  {
    hide PartOfDigits;
    forall i | 0 <= i < 64
      ensures PartOfDigits([a.sha256.s[i]])
    {
      DigitIsPart(a.sha256.s[i]);
    }
  }
}
