/**
 * `generateZip`: compacts the project's pending updates, lists its
 * documents, rewinds them strictly one after another into one archive,
 * collects their metadata into the manifest, writes `manifest.json` last and
 * ends the archive. Any rejected call aborts the rest.
 */
module Export {
  import opened Wrappers
  import opened History
  import opened Archive
  import opened Rewind

  /** What a run leaves behind: the entries added, the metadata collected, and the error it stopped with, if any. */
  datatype Run = Run(entries: seq<Entry>, docs: seq<DocMetadata>, failure: Option<ExportError>)

  /**
   * The `for (const docId of docIds)` loop, given what each document's
   * `rewindDoc` leaves behind, in order: entries accumulate, metadata is
   * pushed onto `manifest.docs`, and the first rejection ends the loop.
   */
  function Loop(results: seq<DocResult>): (run: Run)
    ensures |run.docs| <= |results|
    ensures run.failure.None? ==> |run.docs| == |results|
    ensures |results| == 0 ==> run == Run([], [], None)
    decreases |results|
  {
    if results == [] then Run([], [], None)
    else
      var before := Loop(results[..|results| - 1]);
      if before.failure.Some? then before
      else
        var last := results[|results| - 1];
        match last.result
        case Success(md) => Run(before.entries + last.entries, before.docs + [md], None)
        case Failure(e) => Run(before.entries + last.entries, before.docs, Some(e))
  }

  /** What `rewindDoc` leaves behind for each listed document, in listing order. */
  function Results(projectId: string, docIds: seq<string>, c: Collaborators): (results: seq<DocResult>)
    ensures |results| == |docIds|
  {
    seq(|docIds|, i requires 0 <= i < |docIds| => RewindDocSpec(projectId, docIds[i], c))
  }

  /** The `manifest.json` entry. */
  function ManifestEntry(m: Manifest): Entry
  {
    Entry(ManifestPath, ManifestRecord(m), None)
  }

  /** `generateZip(projectId, zipfile)` as a value. */
  function GenerateZipSpec(projectId: string, c: Collaborators): (run: Run)
    ensures !c.processUncompressedUpdates(projectId) ==> run == Run([], [], Some(CompactionFailed(projectId)))
    ensures c.processUncompressedUpdates(projectId) && c.findAllDocsInProject(projectId).None? ==>
      run == Run([], [], Some(ListDocsFailed(projectId)))
    ensures run.failure.None? ==>
      |run.entries| > 0 && run.entries[|run.entries| - 1] == ManifestEntry(Manifest(projectId, run.docs))
    ensures c.processUncompressedUpdates(projectId) && c.findAllDocsInProject(projectId) == Some([]) ==>
      run == Run([ManifestEntry(Manifest(projectId, []))], [], None)
  {
    if !c.processUncompressedUpdates(projectId) then Run([], [], Some(CompactionFailed(projectId)))
    else match c.findAllDocsInProject(projectId)
      case None => Run([], [], Some(ListDocsFailed(projectId)))
      case Some(docIds) =>
        var run := Loop(Results(projectId, docIds, c));
        if run.failure.Some? then run
        else Run(run.entries + [ManifestEntry(Manifest(projectId, run.docs))], run.docs, None)
  }

  /** One more document in the loop: nothing once the loop has stopped, otherwise its entries and its metadata or error. */
  lemma LoopExtend(results: seq<DocResult>, last: DocResult)
    ensures Loop(results + [last]) ==
      if Loop(results).failure.Some? then Loop(results)
      else Run(Loop(results).entries + last.entries,
               if last.result.Success? then Loop(results).docs + [last.result.value] else Loop(results).docs,
               if last.result.Success? then None else Some(last.result.error))
  {
    assert (results + [last])[..|results|] == results;
  }

  /** Once a document has rejected, the documents after it change nothing. */
  lemma {:induction false} FailureIsFinal(results: seq<DocResult>, k: int)
    requires 0 <= k <= |results| && Loop(results[..k]).failure.Some?
    ensures Loop(results) == Loop(results[..k])
    decreases |results| - k
  {
    if k == |results| {
      assert results[..k] == results;
    } else {
      assert results[..k + 1][..k] == results[..k];
      FailureIsFinal(results, k + 1);
    }
  }

  /** The loop completes exactly when every document's rewind resolves. */
  lemma {:induction false} LoopSucceedsIffEveryDocDoes(results: seq<DocResult>)
    ensures Loop(results).failure.None? <==> forall i :: 0 <= i < |results| ==> results[i].result.Success?
    decreases |results|
  {
    if results != [] {
      var n := |results| - 1;
      LoopSucceedsIffEveryDocDoes(results[..n]);
      assert forall i :: 0 <= i < n ==> results[..n][i] == results[i];
    }
  }

  /** The entries of several documents, one document after another. */
  function Concat(parts: seq<seq<Entry>>): seq<Entry>
    decreases |parts|
  {
    if parts == [] then [] else Concat(parts[..|parts| - 1]) + parts[|parts| - 1]
  }

  /** Each document's own entries, in order. */
  function EntriesOf(results: seq<DocResult>): (parts: seq<seq<Entry>>)
    ensures |parts| == |results|
  {
    seq(|results|, i requires 0 <= i < |results| => results[i].entries)
  }

  /**
   * A completed loop collects one metadata record per document, in order,
   * and writes each document's entries, document after document.
   */
  lemma {:induction false} LoopInOrder(results: seq<DocResult>)
    requires Loop(results).failure.None?
    ensures |Loop(results).docs| == |results|
    ensures forall i :: 0 <= i < |results| ==> results[i].result == Success(Loop(results).docs[i])
    ensures Loop(results).entries == Concat(EntriesOf(results))
    decreases |results|
  {
    if results != [] {
      var n := |results| - 1;
      var before := results[..n];
      LoopSucceedsIffEveryDocDoes(results);
      LoopInOrder(before);
      var docs := Loop(results).docs;
      assert docs == Loop(before).docs + [results[n].result.value];
      forall i | 0 <= i < |results|
        ensures results[i].result == Success(docs[i])
      {
        if i < n {
          assert before[i] == results[i];
        }
      }
      assert EntriesOf(results)[..n] == EntriesOf(before);
    }
  }

  /** If no document writes `manifest.json`, the loop does not either. */
  lemma {:induction false} LoopHasNoManifest(results: seq<DocResult>)
    requires forall i, e :: 0 <= i < |results| && e in results[i].entries ==> !e.path.ManifestPath?
    ensures forall e :: e in Loop(results).entries ==> !e.path.ManifestPath?
    decreases |results|
  {
    if results != [] {
      var n := |results| - 1;
      assert forall i :: 0 <= i < n ==> results[..n][i] == results[i];
      LoopHasNoManifest(results[..n]);
    }
  }

  /**
   * A rejected document aborts the loop: the archive holds the entries of
   * the documents before it, then whatever the failing document wrote before
   * its fetch failed, and nothing of the documents after it.
   */
  lemma {:induction false} AbortAtFirstFailure(results: seq<DocResult>)
    requires Loop(results).failure.Some?
    ensures exists k ::
      && 0 <= k < |results|
      && Loop(results[..k]).failure.None?
      && results[k].result.Failure?
      && Loop(results) == Run(Loop(results[..k]).entries + results[k].entries,
                              Loop(results[..k]).docs,
                              Some(results[k].result.error))
    decreases |results|
  {
    var n := |results| - 1;
    var before := results[..n];
    if Loop(before).failure.Some? {
      AbortAtFirstFailure(before);
      var k :| && 0 <= k < |before|
               && Loop(before[..k]).failure.None?
               && before[k].result.Failure?
               && Loop(before) == Run(Loop(before[..k]).entries + before[k].entries,
                                      Loop(before[..k]).docs,
                                      Some(before[k].result.error));
      assert before[..k] == results[..k] && before[k] == results[k];
    }
  }

  /** Every entry a document contributes lies under that document's id, never at `manifest.json`. */
  lemma DocEntriesUnderId(projectId: string, docId: string, c: Collaborators)
    ensures forall e :: e in RewindDocSpec(projectId, docId, c).entries ==>
      !e.path.ManifestPath? && e.path.id == docId
  {
    var run := RewindDocSpec(projectId, docId, c);
    forall e | e in run.entries
      ensures !e.path.ManifestPath? && e.path.id == docId
    {
      var k :| 0 <= k < |run.entries| && run.entries[k] == e;
      if run.result.Success? {
        var doc := c.getDocument(projectId, docId).value;
        var updates := c.getOpsByVersionRange(projectId, docId, -1, doc.version).value;
        assert run.entries == DocEntries(docId, doc, updates, c.rewindUpdate);
        DocEntriesShape(docId, doc, updates, c.rewindUpdate);
        if 0 < k < 1 + |updates| {
          assert e == AuditEntry(docId, updates[k - 1]);
        }
      }
    }
  }

  /**
   * The export succeeds exactly when compaction, the listing and every listed
   * document's rewind succeed.
   */
  lemma ExportSucceedsIff(projectId: string, c: Collaborators)
    ensures GenerateZipSpec(projectId, c).failure.None? <==>
      && c.processUncompressedUpdates(projectId)
      && c.findAllDocsInProject(projectId).Some?
      && var docIds := c.findAllDocsInProject(projectId).value;
         forall i :: 0 <= i < |docIds| ==> RewindDocSpec(projectId, docIds[i], c).result.Success?
  {
    if c.processUncompressedUpdates(projectId) && c.findAllDocsInProject(projectId).Some? {
      var docIds := c.findAllDocsInProject(projectId).value;
      var results := Results(projectId, docIds, c);
      LoopSucceedsIffEveryDocDoes(results);
      assert forall i :: 0 <= i < |docIds| ==> results[i] == RewindDocSpec(projectId, docIds[i], c);
    }
  }

  /**
   * `manifest.json` is written exactly when the export succeeds, and then
   * once, as the last entry, listing every document's metadata in
   * enumeration order after all the documents' entries, document after document.
   */
  lemma ManifestWrittenLastOnSuccess(projectId: string, c: Collaborators)
    ensures var run := GenerateZipSpec(projectId, c);
      run.failure.Some? ==> forall e :: e in run.entries ==> !e.path.ManifestPath?
    ensures var run := GenerateZipSpec(projectId, c);
      run.failure.None? ==>
        && c.findAllDocsInProject(projectId).Some?
        && var docIds := c.findAllDocsInProject(projectId).value;
        && run.entries == Concat(EntriesOf(Results(projectId, docIds, c))) + [ManifestEntry(Manifest(projectId, run.docs))]
        && |run.docs| == |docIds|
        && (forall i :: 0 <= i < |docIds| ==> RewindDocSpec(projectId, docIds[i], c).result == Success(run.docs[i]))
        && (forall i :: 0 <= i < |run.entries| - 1 ==> !run.entries[i].path.ManifestPath?)
  {
    if c.processUncompressedUpdates(projectId) && c.findAllDocsInProject(projectId).Some? {
      var docIds := c.findAllDocsInProject(projectId).value;
      var results := Results(projectId, docIds, c);
      forall i, e | 0 <= i < |results| && e in results[i].entries
        ensures !e.path.ManifestPath?
      {
        DocEntriesUnderId(projectId, docIds[i], c);
      }
      LoopHasNoManifest(results);
      var run := GenerateZipSpec(projectId, c);
      if run.failure.None? {
        LoopInOrder(results);
        assert forall i :: 0 <= i < |run.entries| - 1 ==> run.entries[i] in Loop(results).entries;
      }
    }
  }

  lemma AppendAssoc(a: seq<Entry>, b: seq<Entry>, d: seq<Entry>)
    ensures (a + b) + d == a + (b + d)
  {
  }

  /** One more listed document adds its own result at the end. */
  lemma ResultsSnoc(projectId: string, docIds: seq<string>, i: int, c: Collaborators)
    requires 0 <= i < |docIds|
    ensures Results(projectId, docIds[..i + 1], c) ==
      Results(projectId, docIds[..i], c) + [RewindDocSpec(projectId, docIds[i], c)]
  {
  }

  /** A document rejecting aborts the export with what the loop had written and that error. */
  lemma ExportAborts(projectId: string, docIds: seq<string>, k: int, c: Collaborators)
    requires c.processUncompressedUpdates(projectId) && c.findAllDocsInProject(projectId) == Some(docIds)
    requires 0 <= k <= |docIds| && Loop(Results(projectId, docIds[..k], c)).failure.Some?
    ensures GenerateZipSpec(projectId, c) == Loop(Results(projectId, docIds[..k], c))
  {
    assert Results(projectId, docIds[..k], c) == Results(projectId, docIds, c)[..k];
    FailureIsFinal(Results(projectId, docIds, c), k);
  }

  /**
   * `generateZip(projectId, zipfile)`. The archive is ended, with
   * `manifest.json` as its last entry, exactly when every step succeeded.
   */
  method GenerateZip(projectId: string, zip: ZipFile, c: Collaborators) returns (outcome: Outcome<ExportError>)
    requires !zip.ended
    modifies zip
    ensures zip.entries == old(zip.entries) + GenerateZipSpec(projectId, c).entries
    ensures outcome.Pass? <==> GenerateZipSpec(projectId, c).failure.None?
    ensures outcome.Fail? ==> Some(outcome.error) == GenerateZipSpec(projectId, c).failure
    ensures zip.ended <==> outcome.Pass?
  {
    var compacted := c.processUncompressedUpdates(projectId);
    if !compacted {
      return Fail(CompactionFailed(projectId));
    }
    var listed := c.findAllDocsInProject(projectId);
    if listed.None? {
      return Fail(ListDocsFailed(projectId));
    }
    var docIds := listed.value;
    var docs: seq<DocMetadata> := [];
    var i := 0;
    while i < |docIds|
      invariant 0 <= i <= |docIds|
      invariant Loop(Results(projectId, docIds[..i], c)).failure.None?
      invariant zip.entries == old(zip.entries) + Loop(Results(projectId, docIds[..i], c)).entries
      invariant docs == Loop(Results(projectId, docIds[..i], c)).docs
      invariant !zip.ended
    {
      ghost var done := Loop(Results(projectId, docIds[..i], c));
      ghost var next := RewindDocSpec(projectId, docIds[i], c);
      var doc := RewindDoc(projectId, docIds[i], zip, c);
      ResultsSnoc(projectId, docIds, i, c);
      LoopExtend(Results(projectId, docIds[..i], c), next);
      AppendAssoc(old(zip.entries), done.entries, next.entries);
      match doc {
        case Failure(e) =>
          ExportAborts(projectId, docIds, i + 1, c);
          return Fail(e);
        case Success(md) =>
          docs := docs + [md];
      }
      i := i + 1;
    }
    assert docIds[..i] == docIds;
    ghost var done := Loop(Results(projectId, docIds, c));
    AppendAssoc(old(zip.entries), done.entries, [ManifestEntry(Manifest(projectId, docs))]);
    zip.AddBuffer(ManifestRecord(Manifest(projectId, docs)), ManifestPath, None);
    zip.End();
    return Pass;
  }
}
