/** Whether any allowlist at all opens the gate: the record format admits exact paths only, and one record for each triage id. */
module GateAllowlist {
  import opened Options
  import opened Counting
  import opened DiffScan
  import opened DiffRoundTrip
  import opened DiffExact
  import opened ExactPaths
  import opened ShipGate
  import opened GateExact
  import opened GateNames
  import opened GateTree

  /** The digests are 64 lower-case hexadecimal digits, as `hexdigest` gives them. */
  ghost predicate Digests(sha: string -> string) {
    forall content :: IsHex64(sha(content))
  }

  // ---------- triage ids ----------

  /** There are `n` different triage ids. */
  ghost predicate EnoughIds(n: nat) {
    exists ids: seq<string> :: |ids| == n && Distinct(ids) && forall i :: 0 <= i < n ==> IsTriageId(ids[i])
  }

  // ---------- writing an allowlist ----------

  lemma {:induction false} Listed<T>(s: set<T>) returns (list: seq<T>)
    ensures Distinct(list) && SetOf(list) == s && |list| == |s|
    decreases |s|
  {
    if s == {} {
      list := [];
    } else {
      var x :| x in s;
      var rest := Listed(s - {x});
      list := [x] + rest;
      forall i, j | 0 <= i < j < |list|
        ensures list[i] != list[j]
      {
        assert list[j] == rest[j - 1] && rest[j - 1] in SetOf(rest);
      }
      assert SetOf(list) == {x} + SetOf(rest);
      SetSizeIff(list);
    }
  }

  /** One record for each key, under an id of its own. */
  function RecordsFor(keys: seq<Key>, ids: seq<string>): seq<AllowRecord>
    requires |ids| == |keys|
  {
    seq(|keys|, i requires 0 <= i < |keys| => AllowRecord(keys[i].path, keys[i].line, keys[i].sha256, ids[i]))
  }

  function ItemsFor(keys: seq<Key>, ids: seq<string>): seq<RawItem>
    requires |ids| == |keys|
  {
    seq(|keys|, i requires 0 <= i < |keys| =>
      Item(Raw.Text(keys[i].path), Number(keys[i].line), Raw.Text(keys[i].sha256), Raw.Text(ids[i])))
  }

  predicate Listable(key: Key) {
    IsExactPath(key.path) && key.line >= 1 && IsHex64(key.sha256)
  }

  lemma AllowlistParses(keys: seq<Key>, ids: seq<string>)
    requires Distinct(keys) && forall i :: 0 <= i < |keys| ==> Listable(keys[i])
    requires |ids| == |keys| && Distinct(ids) && forall i :: 0 <= i < |ids| ==> IsTriageId(ids[i])
    ensures Parses(Document(true, Some(ItemsFor(keys, ids))), RecordsFor(keys, ids)) && RecordKeys(RecordsFor(keys, ids)) == keys
  {
    hide IsExactPath, IsHex64, IsTriageId;
    var items, records := ItemsFor(keys, ids), RecordsFor(keys, ids);
    assert forall i :: 0 <= i < |keys| ==> ValidItem(items[i]) && records[i] == ToRecord(items[i]);
    assert RecordKeys(records) == keys && TriageIds(records) == ids;
  }

  // ---------- when some allowlist opens the gate ----------

  ghost predicate CanOpen(det: Detector, tree: map<string, string>, git: GitOutput) {
    exists doc, records, findings :: Opens(det, doc, tree, git, records, findings)
  }

  lemma FindingListable(det: Detector, files: seq<FileDiff>, f: Finding)
    requires Digests(det.sha) && f in Scanned(det, files, None)
    ensures f.line >= 1 && IsHex64(f.sha256)
  {
    hide IsHex64, FileScanned, Hits, LineAt;
    ScannedIff(det, files, None, f);
    var i: nat :| InFile(det, files, None, i, f);
    FileScannedHits(det, files[i], Believed(files, None, i), KeyOf(f));
  }

  /** Some allowlist opens the gate exactly when every finding is current and its path one an allowlist may name, and there is
      a triage id for each of the findings' keys. */
  lemma {:induction false} CanOpenIff(det: Detector, tree: map<string, string>, files: seq<FileDiff>, ends: seq<string>)
    requires Gated(files, ends) && Digests(det.sha)
    ensures CanOpen(det, tree, GitText(files, ends))
       <==> && (forall f :: f in Scanned(det, files, None) ==> FindingCurrent(det.sha, tree, f) && IsExactPath(f.path))
            && EnoughIds(|SetOf(FindingKeys(Scanned(det, files, None)))|)
  {
    hide Gated, Scanned, GitText, Opens, FindingCurrent, IsExactPath, Digests, Parses, EnoughIds;
    var findings := Scanned(det, files, None);
    if CanOpen(det, tree, GitText(files, ends)) {
      var doc, records, fs :| Opens(det, doc, tree, GitText(files, ends), records, fs);
      OpenedFindings(det, doc, tree, files, ends, records, fs);
      GateOpensIff(det, doc, tree, files, ends, records);
      KeysOfRecords(doc, records);
      SetSizeIff(RecordKeys(records));
      forall f | f in findings
        ensures IsExactPath(f.path)
      {
        ExactRecord(doc, records, findings, f);
      }
    }
    if (forall f :: f in findings ==> FindingCurrent(det.sha, tree, f) && IsExactPath(f.path)) && EnoughIds(|SetOf(FindingKeys(findings))|) {
      OpenIt(det, tree, files, ends);
    }
  }

  lemma OpenedFindings(
    det: Detector, doc: Document, tree: map<string, string>, files: seq<FileDiff>, ends: seq<string>,
    records: seq<AllowRecord>, findings: seq<Finding>)
    requires Gated(files, ends) && Opens(det, doc, tree, GitText(files, ends), records, findings)
    ensures findings == Scanned(det, files, None)
  {
    hide Gated, Scanned, GitText, ScanText, Parses, Current;
    GateFindings(det, files, ends);
  }

  lemma KeysOfRecords(doc: Document, records: seq<AllowRecord>)
    requires Parses(doc, records)
    ensures Distinct(RecordKeys(records)) && |RecordKeys(records)| == |records| && EnoughIds(|records|)
  {
    hide IsExactPath, IsHex64, IsTriageId;
    var ids := TriageIds(records);
    forall i | 0 <= i < |ids|
      ensures IsTriageId(ids[i])
    {
      assert ValidItem(doc.entries.value[i]);
    }
  }

  lemma ExactRecord(doc: Document, records: seq<AllowRecord>, findings: seq<Finding>, f: Finding)
    requires Parses(doc, records) && SetOf(RecordKeys(records)) == SetOf(FindingKeys(findings)) && f in findings
    ensures IsExactPath(f.path)
  {
    hide IsExactPath, IsHex64, IsTriageId;
    KeyListed(findings, KeyOf(f));
    var k :| 0 <= k < |records| && RecordKeys(records)[k] == KeyOf(f);
    assert ValidItem(doc.entries.value[k]);
  }

  lemma OpenIt(det: Detector, tree: map<string, string>, files: seq<FileDiff>, ends: seq<string>)
    requires Gated(files, ends) && Digests(det.sha)
    requires forall f :: f in Scanned(det, files, None) ==> FindingCurrent(det.sha, tree, f) && IsExactPath(f.path)
    requires EnoughIds(|SetOf(FindingKeys(Scanned(det, files, None)))|)
    ensures CanOpen(det, tree, GitText(files, ends))
  {
    hide Gated, Scanned, GitText, Opens, FindingCurrent, IsExactPath, IsHex64, IsTriageId, Digests, Parses;
    var findings := Scanned(det, files, None);
    var keys := Listed(SetOf(FindingKeys(findings)));
    var ids: seq<string> :| |ids| == |keys| && Distinct(ids) && forall i :: 0 <= i < |keys| ==> IsTriageId(ids[i]);
    forall i | 0 <= i < |keys|
      ensures Listable(keys[i])
    {
      assert keys[i] in SetOf(keys);
      KeyListed(findings, keys[i]);
      var f :| f in findings && KeyOf(f) == keys[i];
      FindingListable(det, files, f);
    }
    AllowlistParses(keys, ids);
    GateOpensIff(det, Document(true, Some(ItemsFor(keys, ids))), tree, files, ends, RecordsFor(keys, ids));
    assert Opens(det, Document(true, Some(ItemsFor(keys, ids))), tree, GitText(files, ends), RecordsFor(keys, ids), findings);
  }
}
