/**
 * `rewindDoc`: walks a document's updates from its current content back
 * towards its earliest content, writing the end snapshot, one audit entry per
 * update and the start snapshot into the archive. A reverse step that throws
 * is logged and skipped: the accumulator stays as it was and the walk goes on.
 */
module Rewind {
  import opened Wrappers
  import opened History
  import opened Archive

  /** `DiffGenerator.rewindUpdate`; `None` stands for the call throwing. */
  type Rewinder = (string, Update) -> Option<string>

  /** The accumulator `(content, v)` that `rewindDoc` carries across the updates. */
  datatype RewindState = RewindState(content: string, version: int)

  /** One iteration's effect on the accumulator: the body of the `try`, or nothing when it throws. */
  function Step(s: RewindState, u: Update, rewind: Rewinder): (r: RewindState)
    ensures rewind(s.content, u).None? ==> r == s
    ensures r == s || (r.version == u.v && rewind(s.content, u) == Some(r.content))
  {
    match rewind(s.content, u)
    case Some(previous) => RewindState(previous, u.v)
    case None => s
  }

  /** The fault-tolerant left fold of `Step` over the updates, in the order given. */
  function Fold(s: RewindState, updates: seq<Update>, rewind: Rewinder): (r: RewindState)
    ensures updates == [] ==> r == s
    ensures r.version == s.version || exists i :: 0 <= i < |updates| && r.version == updates[i].v
    decreases |updates|
  {
    if updates == [] then s else Fold(Step(s, updates[0], rewind), updates[1..], rewind)
  }

  /**
   * The plain fold of `rewindUpdate` that gives up at the first failure:
   * the content a rewind reaches when every step must succeed.
   */
  function StrictFold(content: string, updates: seq<Update>, rewind: Rewinder): (r: Option<string>)
    ensures updates == [] ==> r == Some(content)
    ensures updates != [] && r.Some? ==> rewind(content, updates[0]).Some?
    decreases |updates|
  {
    if updates == [] then Some(content)
    else match rewind(content, updates[0])
      case None => None
      case Some(previous) => StrictFold(previous, updates[1..], rewind)
  }

  /** Whether the reverse step on `updates[i]` succeeds when the walk reaches it. */
  predicate Succeeds(s: RewindState, updates: seq<Update>, i: int, rewind: Rewinder)
    requires 0 <= i < |updates|
  {
    rewind(Fold(s, updates[..i], rewind).content, updates[i]).Some?
  }

  /** Adding one update at the end of the list adds one step at the end of the fold. */
  lemma {:induction false} FoldSnoc(s: RewindState, updates: seq<Update>, u: Update, rewind: Rewinder)
    ensures Fold(s, updates + [u], rewind) == Step(Fold(s, updates, rewind), u, rewind)
    decreases |updates|
  {
    if updates == [] {
      assert updates + [u] == [u];
    } else {
      assert (updates + [u])[1..] == updates[1..] + [u];
      FoldSnoc(Step(s, updates[0], rewind), updates[1..], u, rewind);
    }
  }

  /** The fold after the first `i + 1` updates is one more step after the first `i`. */
  lemma FoldPrefixStep(s: RewindState, updates: seq<Update>, i: int, rewind: Rewinder)
    requires 0 <= i < |updates|
    ensures Fold(s, updates[..i + 1], rewind) == Step(Fold(s, updates[..i], rewind), updates[i], rewind)
  {
    assert updates[..i + 1] == updates[..i] + [updates[i]];
    FoldSnoc(s, updates[..i], updates[i], rewind);
  }

  /** A failed reverse step leaves both content and version exactly as they were. */
  lemma NoOpOnFailure(s: RewindState, updates: seq<Update>, i: int, rewind: Rewinder)
    requires 0 <= i < |updates| && !Succeeds(s, updates, i, rewind)
    ensures Fold(s, updates[..i + 1], rewind) == Fold(s, updates[..i], rewind)
  {
    FoldPrefixStep(s, updates, i, rewind);
  }

  /** A successful reverse step moves the content back and takes the update's version. */
  lemma StepOnSuccess(s: RewindState, updates: seq<Update>, i: int, rewind: Rewinder)
    requires 0 <= i < |updates| && Succeeds(s, updates, i, rewind)
    ensures Fold(s, updates[..i + 1], rewind) ==
      RewindState(rewind(Fold(s, updates[..i], rewind).content, updates[i]).value, updates[i].v)
  {
    FoldPrefixStep(s, updates, i, rewind);
  }

  /** A run of failing updates, from `a` up to `b`, changes nothing. */
  lemma {:induction false} FoldSkipsFailures(s: RewindState, updates: seq<Update>, a: int, b: int, rewind: Rewinder)
    requires 0 <= a <= b <= |updates|
    requires forall j :: a <= j < b ==> !Succeeds(s, updates, j, rewind)
    ensures Fold(s, updates[..b], rewind) == Fold(s, updates[..a], rewind)
    decreases b - a
  {
    if a < b {
      NoOpOnFailure(s, updates, b - 1, rewind);
      FoldSkipsFailures(s, updates, a, b - 1, rewind);
    }
  }

  /** When no reverse step succeeds, the start snapshot is the end snapshot. */
  lemma FoldUnchangedWhenAllFail(s: RewindState, updates: seq<Update>, rewind: Rewinder)
    requires forall j :: 0 <= j < |updates| ==> !Succeeds(s, updates, j, rewind)
    ensures Fold(s, updates, rewind) == s
  {
    FoldSkipsFailures(s, updates, 0, |updates|, rewind);
    assert updates[..|updates|] == updates;
  }

  /** The start version and content come from the last update whose reverse step succeeded. */
  lemma FoldFromLastSuccess(s: RewindState, updates: seq<Update>, k: int, rewind: Rewinder)
    requires 0 <= k < |updates| && Succeeds(s, updates, k, rewind)
    requires forall j :: k < j < |updates| ==> !Succeeds(s, updates, j, rewind)
    ensures Fold(s, updates, rewind).version == updates[k].v
    ensures Fold(s, updates, rewind).content == rewind(Fold(s, updates[..k], rewind).content, updates[k]).value
  {
    FoldSkipsFailures(s, updates, k + 1, |updates|, rewind);
    StepOnSuccess(s, updates, k, rewind);
    assert updates[..|updates|] == updates;
  }

  /**
   * The start version is either the fetched version, when no reverse step
   * succeeded, or the `v` of the last update whose reverse step succeeded.
   */
  lemma {:induction false} StartVersionOrigin(s: RewindState, updates: seq<Update>, rewind: Rewinder)
    ensures
      || ((forall j :: 0 <= j < |updates| ==> !Succeeds(s, updates, j, rewind)) && Fold(s, updates, rewind) == s)
      || (exists k :: && 0 <= k < |updates| && Succeeds(s, updates, k, rewind)
                      && (forall j :: k < j < |updates| ==> !Succeeds(s, updates, j, rewind))
                      && Fold(s, updates, rewind).version == updates[k].v)
  {
    var n := |updates|;
    while n > 0 && !Succeeds(s, updates, n - 1, rewind)
      invariant 0 <= n <= |updates|
      invariant forall j :: n <= j < |updates| ==> !Succeeds(s, updates, j, rewind)
    {
      n := n - 1;
    }
    if n == 0 {
      FoldUnchangedWhenAllFail(s, updates, rewind);
    } else {
      FoldFromLastSuccess(s, updates, n - 1, rewind);
    }
  }

  /** Running the first step and then the fold of the rest sees the same successes. */
  lemma SucceedsShift(s: RewindState, updates: seq<Update>, i: int, rewind: Rewinder)
    requires 0 < i < |updates|
    ensures Succeeds(s, updates, i, rewind) ==
      Succeeds(Step(s, updates[0], rewind), updates[1..], i - 1, rewind)
  {
    assert updates[..i][1..] == updates[1..][..i - 1];
  }

  /**
   * Fold equivalence: every reverse step succeeds exactly when the strict
   * fold reaches a content, and then the fault-tolerant fold reaches that same
   * content, at the last update's version (or the fetched one when there are none).
   */
  lemma {:induction false} FoldEquivalence(s: RewindState, updates: seq<Update>, rewind: Rewinder)
    ensures StrictFold(s.content, updates, rewind).Some? <==>
      forall i :: 0 <= i < |updates| ==> Succeeds(s, updates, i, rewind)
    ensures StrictFold(s.content, updates, rewind).Some? ==>
      && Fold(s, updates, rewind).content == StrictFold(s.content, updates, rewind).value
      && Fold(s, updates, rewind).version == (if updates == [] then s.version else updates[|updates| - 1].v)
    decreases |updates|
  {
    if updates != [] {
      var next := Step(s, updates[0], rewind);
      var rest := updates[1..];
      assert updates[..0] == [];
      FoldEquivalence(next, rest, rewind);
      forall i | 0 < i < |updates|
        ensures Succeeds(s, updates, i, rewind) == Succeeds(next, rest, i - 1, rewind)
      {
        SucceedsShift(s, updates, i, rewind);
      }
      if rewind(s.content, updates[0]).Some? {
        assert forall i :: 0 <= i < |rest| ==> Succeeds(s, updates, i + 1, rewind) == Succeeds(next, rest, i, rewind);
        if rest != [] {
          assert rest[|rest| - 1] == updates[|updates| - 1];
        }
      } else {
        assert !Succeeds(s, updates, 0, rewind);
      }
    }
  }

  // ----- Two worked histories -----

  /** A reverse step that removes the last character, and throws on the update at version `failing`. */
  function RemoveLast(failing: int): Rewinder
  {
    (content: string, u: Update) =>
      if u.v == failing || content == [] then None else Some(content[..|content| - 1])
  }

  /** Three updates at versions 5, 4 and 3, most recent first. */
  function ThreeUpdates(): seq<Update>
  {
    [Update(5, "removeLast", 50), Update(4, "removeLast", 40), Update(3, "removeLast", 30)]
  }

  /** Every step succeeds: "ABCDE" at version 5 rewinds to "AB" at version 3. */
  lemma AllStepsSucceedExample()
    ensures Fold(RewindState("ABCDE", 5), ThreeUpdates(), RemoveLast(-1)) == RewindState("AB", 3)
  {
    var r := RemoveLast(-1);
    var us := ThreeUpdates();
    assert Step(RewindState("ABCDE", 5), us[0], r) == RewindState("ABCD", 5);
    assert Step(RewindState("ABCD", 5), us[1], r) == RewindState("ABC", 4);
    assert Step(RewindState("ABC", 4), us[2], r) == RewindState("AB", 3);
    assert us[1..][1..][1..] == [];
  }

  /**
   * The middle step throws: it is skipped and the walk goes on, so the last
   * update still rewinds and the start snapshot is "ABC" at version 3.
   */
  lemma MiddleStepFailsExample()
    ensures Fold(RewindState("ABCDE", 5), ThreeUpdates(), RemoveLast(4)) == RewindState("ABC", 3)
  {
    var r := RemoveLast(4);
    var us := ThreeUpdates();
    assert Step(RewindState("ABCDE", 5), us[0], r) == RewindState("ABCD", 5);
    assert Step(RewindState("ABCD", 5), us[1], r) == RewindState("ABCD", 5);
    assert Step(RewindState("ABCD", 5), us[2], r) == RewindState("ABC", 3);
    assert us[1..][1..][1..] == [];
  }

  // ----- What one document contributes to the archive and the manifest -----

  /** The fetched document as the accumulator's starting point. */
  function Initial(doc: Document): RewindState
  {
    RewindState(doc.content, doc.version)
  }

  /** The entry for the document's current content, at `<id>/content/end/<version>`. */
  function EndEntry(id: string, doc: Document): Entry
  {
    Entry(EndPath(id, doc.version), Text(doc.content), None)
  }

  /** The audit entry for one update, at `<id>/updates/<u.v>`, dated `u.meta.start_ts`. */
  function AuditEntry(id: string, u: Update): Entry
  {
    Entry(UpdatePath(id, u.v), UpdateRecord(u), Some(u.startTs))
  }

  /** The entry for the earliest content reached, at `<id>/content/start/<v>`. */
  function StartEntry(id: string, s: RewindState): Entry
  {
    Entry(StartPath(id, s.version), Text(s.content), None)
  }

  /** The element of `metadata.updates` for one update. */
  function Summary(id: string, u: Update): UpdateSummary
  {
    UpdateSummary(UpdatePath(id, u.v), u.v, u.startTs)
  }

  /** The entries `rewindDoc` writes for a document whose fetches succeeded. */
  function DocEntries(id: string, doc: Document, updates: seq<Update>, rewind: Rewinder): (es: seq<Entry>)
    ensures |es| == 2 + |updates|
    ensures es[0].path == EndPath(id, doc.version) && es[|es| - 1].path.StartPath?
  {
    [EndEntry(id, doc)]
    + seq(|updates|, i requires 0 <= i < |updates| => AuditEntry(id, updates[i]))
    + [StartEntry(id, Fold(Initial(doc), updates, rewind))]
  }

  /** The metadata `rewindDoc` returns for a document whose fetches succeeded. */
  function DocMetadataOf(id: string, doc: Document, updates: seq<Update>, rewind: Rewinder): (md: DocMetadata)
    ensures md.id == id && md.version == doc.version && |md.updates| == |updates|
  {
    var reached := Fold(Initial(doc), updates, rewind);
    DocMetadata(
      id, doc.version,
      Snapshot(EndPath(id, doc.version), doc.version),
      Snapshot(StartPath(id, reached.version), reached.version),
      seq(|updates|, i requires 0 <= i < |updates| => Summary(id, updates[i])))
  }

  /**
   * Exactly two more entries than updates: the end snapshot, one audit entry
   * per update in the order given, whatever becomes of its reverse step, and
   * the start snapshot the fold reached. With no updates, the start snapshot
   * holds the end snapshot's content.
   */
  lemma DocEntriesShape(id: string, doc: Document, updates: seq<Update>, rewind: Rewinder)
    ensures var es := DocEntries(id, doc, updates, rewind);
      && |es| == 2 + |updates|
      && es[0] == Entry(EndPath(id, doc.version), Text(doc.content), None)
      && (forall i :: 0 <= i < |updates| ==>
            es[1 + i] == Entry(UpdatePath(id, updates[i].v), UpdateRecord(updates[i]), Some(updates[i].startTs)))
      && es[1 + |updates|] == StartEntry(id, Fold(Initial(doc), updates, rewind))
      && (updates == [] ==> es[1 + |updates|] == Entry(StartPath(id, doc.version), Text(doc.content), None))
  {
  }

  /**
   * The end snapshot is at the fetched version, the start snapshot at the
   * version the fold reached, and `updates` has one `{path, version, ts}`
   * per update, in the order given. With no updates, start and end versions
   * both equal the fetched version.
   */
  lemma DocMetadataShape(id: string, doc: Document, updates: seq<Update>, rewind: Rewinder)
    ensures var md := DocMetadataOf(id, doc, updates, rewind);
      && md.id == id && md.version == doc.version
      && md.contentEnd == Snapshot(EndPath(id, doc.version), doc.version)
      && md.contentStart.version == Fold(Initial(doc), updates, rewind).version
      && md.contentStart.path == StartPath(id, md.contentStart.version)
      && |md.updates| == |updates|
      && (forall i :: 0 <= i < |updates| ==>
            md.updates[i] == UpdateSummary(UpdatePath(id, updates[i].v), updates[i].v, updates[i].startTs))
      && (updates == [] ==> md.contentStart.version == md.contentEnd.version == doc.version)
  {
  }

  /**
   * The audit entries and the update summaries are the same whichever reverse
   * steps succeed: only the start snapshot depends on `rewindUpdate`.
   */
  lemma AuditIndependentOfRewind(id: string, doc: Document, updates: seq<Update>, r1: Rewinder, r2: Rewinder)
    ensures DocEntries(id, doc, updates, r1)[..1 + |updates|] == DocEntries(id, doc, updates, r2)[..1 + |updates|]
    ensures DocMetadataOf(id, doc, updates, r1).updates == DocMetadataOf(id, doc, updates, r2).updates
  {
  }

  /** What `rewindDoc` leaves behind: the entries it added and what it resolved or rejected with. */
  datatype DocResult = DocResult(entries: seq<Entry>, result: Result<DocMetadata, ExportError>)

  /**
   * `rewindDoc` as a value. Fetching the document fails before anything is
   * written; fetching its updates fails after the end snapshot was written.
   * Either failure rejects; a failing reverse step never does.
   */
  function RewindDocSpec(projectId: string, docId: string, c: Collaborators): (run: DocResult)
    ensures run.result.Success? <==>
      && c.getDocument(projectId, docId).Some?
      && c.getOpsByVersionRange(projectId, docId, -1, c.getDocument(projectId, docId).value.version).Some?
    ensures run.result.Failure? ==> |run.entries| <= 1
    ensures c.getDocument(projectId, docId).None? ==> run == DocResult([], Failure(GetDocumentFailed(docId)))
    ensures c.getDocument(projectId, docId).Some? ==>
      var doc := c.getDocument(projectId, docId).value;
      c.getOpsByVersionRange(projectId, docId, -1, doc.version).None? ==>
        run == DocResult([Entry(EndPath(docId, doc.version), Text(doc.content), None)], Failure(GetUpdatesFailed(docId)))
    ensures run.result.Success? ==>
      var doc := c.getDocument(projectId, docId).value;
      var updates := c.getOpsByVersionRange(projectId, docId, -1, doc.version).value;
      && |run.entries| == 2 + |updates|
      && run.result.value.id == docId
      && |run.result.value.updates| == |updates|
      && run.entries == DocEntries(docId, doc, updates, c.rewindUpdate)
      && run.result.value == DocMetadataOf(docId, doc, updates, c.rewindUpdate)
  {
    match c.getDocument(projectId, docId)
    case None => DocResult([], Failure(GetDocumentFailed(docId)))
    case Some(doc) =>
      match c.getOpsByVersionRange(projectId, docId, -1, doc.version)
      case None => DocResult([EndEntry(docId, doc)], Failure(GetUpdatesFailed(docId)))
      case Some(updates) =>
        DocResult(DocEntries(docId, doc, updates, c.rewindUpdate),
                  Success(DocMetadataOf(docId, doc, updates, c.rewindUpdate)))
  }

  /**
   * `rewindDoc(projectId, docId, zipfile)`: fetches the document and its
   * updates, writes the end snapshot, walks the updates writing one audit
   * entry each and reverse-applying it when it can, writes the start snapshot
   * and resolves with the document's metadata.
   */
  method RewindDoc(projectId: string, docId: string, zip: ZipFile, c: Collaborators)
    returns (r: Result<DocMetadata, ExportError>)
    requires !zip.ended
    modifies zip
    ensures !zip.ended
    ensures zip.entries == old(zip.entries) + RewindDocSpec(projectId, docId, c).entries
    ensures r == RewindDocSpec(projectId, docId, c).result
  {
    var fetched := c.getDocument(projectId, docId);
    if fetched.None? {
      return Failure(GetDocumentFailed(docId));
    }
    var finalContent, version := fetched.value.content, fetched.value.version;
    var id := docId;

    var contentEndPath := EndPath(id, version);
    zip.AddBuffer(Text(finalContent), contentEndPath, None);

    var ops := c.getOpsByVersionRange(projectId, docId, -1, version);
    if ops.None? {
      return Failure(GetUpdatesFailed(docId));
    }
    var updates := ops.value;

    var content, v := finalContent, version;
    var summaries: seq<UpdateSummary> := [];
    ghost var base := zip.entries;
    var i := 0;
    while i < |updates|
      invariant 0 <= i <= |updates|
      invariant RewindState(content, v) == Fold(Initial(fetched.value), updates[..i], c.rewindUpdate)
      invariant |summaries| == i
      invariant forall j :: 0 <= j < i ==> summaries[j] == Summary(id, updates[j])
      invariant |zip.entries| == |base| + i && zip.entries[..|base|] == base
      invariant forall j :: 0 <= j < i ==> zip.entries[|base| + j] == AuditEntry(id, updates[j])
      invariant !zip.ended
    {
      var update := updates[i];
      var updatePath := UpdatePath(id, update.v);
      zip.AddBuffer(UpdateRecord(update), updatePath, Some(update.startTs));
      match c.rewindUpdate(content, update) {
        case Some(previous) =>
          content, v := previous, update.v;
        case None =>
          // the failure is logged; content and v stay as they were
      }
      summaries := summaries + [UpdateSummary(updatePath, update.v, update.startTs)];
      FoldPrefixStep(Initial(fetched.value), updates, i, c.rewindUpdate);
      i := i + 1;
    }
    assert updates[..i] == updates;

    var contentStartPath := StartPath(id, v);
    zip.AddBuffer(Text(content), contentStartPath, None);

    r := Success(DocMetadata(id, version, Snapshot(contentEndPath, version), Snapshot(contentStartPath, v), summaries));
    DocMetadataShape(id, fetched.value, updates, c.rewindUpdate);
    DocEntriesShape(id, fetched.value, updates, c.rewindUpdate);
    assert summaries == DocMetadataOf(id, fetched.value, updates, c.rewindUpdate).updates;
    assert zip.entries == old(zip.entries) + DocEntries(id, fetched.value, updates, c.rewindUpdate);
  }
}
