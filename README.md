# Project history export: rewind-and-archive model

This Dafny project models the core of `ZipManager.js` in the track-changes
service. That code exports every document of a project, with its full history,
into one zip archive.

For each document, `rewindDoc` first writes the current content to
`<id>/content/end/<version>`. It then walks the document's updates, most
recent first. Each update is written to `<id>/updates/<v>` as an audit entry,
and the walk then tries to reverse-apply it. A reverse step that throws is
logged and skipped. The earliest content reached is written to
`<id>/content/start/<v>`. `rewindDoc` resolves with a metadata record
describing these paths.

`generateZip` works in these steps:

1. It compacts the project's pending updates.
2. It lists the project's documents.
3. It rewinds the documents one after another into the same archive.
4. It writes `manifest.json`, listing every document's metadata.
5. It ends the archive.

Modules:

- `Wrappers` (`wrappers.dfy`): `Option`, `Result` and `Outcome`.
- `History` (`history.dfy`): documents, updates, archive paths (kept structured), entries, metadata, the manifest, export errors. It also defines the external calls, as the function-typed fields of `Collaborators`.
- `Paths` (`paths.dfy`): the text form of paths, as the template strings build them. It includes proofs that the rendering does not merge distinct paths.
- `Archive` (`archive.dfy`): the zip builder, as a class with an `entries` sequence and an `ended` flag.
- `Rewind` (`rewind.dfy`): the fault-tolerant fold that specifies the walk, its lemmas, and the imperative `RewindDoc` that is proved against it.
- `Export` (`export.dfy`): the imperative `GenerateZip`, its specification `GenerateZipSpec`, and the ordering and abort lemmas.

Conventions:

- A collaborator that rejects or throws is `None` (or `false` for compaction).
- The start snapshot's version is the `v` of the last update whose reverse step succeeded. When no reverse step succeeded, it is the fetched version.

## Behaviour worth noting

- **A failing update does not stop the walk.** Take a failing update in the middle of the list. The later updates are still reverse-applied, and the start snapshot carries the version of the last update that succeeded. It does not keep the version reached just before the failure. `Rewind.MiddleStepFailsExample` proves this on a three-update history: `"ABCDE"` at version 5 with a failing middle step ends at `"ABC"`, version 3.
- **Empty update list.** With no updates, the start and end snapshots have the same content and version. Their paths still differ (`content/start/…` versus `content/end/…`), so the two snapshots are not literally equal.
- **Path uniqueness is not enforced.** The code does not check that archive paths are unique, so two updates with the same `v` get the same audit path. The rendering itself never merges two distinct paths, even when a document id contains `/`: `Paths.RenderInjective` proves that distinct paths render as distinct strings.

## Model

| member | source | states |
|---|---|---|
| `Archive.ZipFile.constructor` | app/js/ZipManager.js:97 | A new archive has no entries and has not ended. |
| `Archive.ZipFile.AddBuffer` | app/js/ZipManager.js:48-50 | Appends exactly one entry with the given path, payload and mtime, after all earlier entries. The archive stays open. |
| `Archive.ZipFile.End` | app/js/ZipManager.js:89 | Marks the archive ended and leaves its entries unchanged. |
| `Paths.NatToString` | app/js/ZipManager.js:19 | The decimal rendering of a version is a non-empty string of digits. It has two or more digits exactly when the number is at least 10. |
| `Paths.NatToStringInjective` | app/js/ZipManager.js:19 | Different natural numbers render as different decimal strings. |
| `Paths.IntToString` | app/js/ZipManager.js:19 | How `${version}` renders an integer: a non-empty string of digits, with a leading `-` exactly when the number is negative. |
| `Paths.IntToStringInjective` | app/js/ZipManager.js:46 | Different integer versions render as different strings, negative numbers included. |
| `Paths.Render` | app/js/ZipManager.js:19-87 | The path string passed to `addBuffer`: `<id>/content/end/<v>`, `<id>/updates/<v>`, `<id>/content/start/<v>`, or `manifest.json`. A document path starts with its id followed by `/`. |
| `Paths.RenderInjective` | app/js/ZipManager.js:19-87 | Distinct archive paths render as distinct strings, whatever characters the ids contain. This holds across kinds, versions and documents. In particular, no document path renders as `manifest.json`. |
| `Rewind.Step` | app/js/ZipManager.js:51-57 | One iteration's effect on `(content, v)`. If `rewindUpdate` throws, nothing changes. Otherwise the content becomes the step's result and `v` becomes `update.v`. |
| `Rewind.Fold` | app/js/ZipManager.js:42-64 | The walk over the updates in list order, skipping failed steps. With no updates it returns the fetched state. The version it reaches is the fetched version or the `v` of one of the updates. |
| `Rewind.StrictFold` | app/js/ZipManager.js:42-53 | The reference fold that gives up at the first failed step. With no updates it returns the content unchanged, and it succeeds only if the first step succeeds. |
| `Rewind.FoldSnoc` | app/js/ZipManager.js:45-57 | Walking one more update at the end of the list adds exactly one reverse step after the walk so far. The walk is a left fold in list order. |
| `Rewind.NoOpOnFailure` | app/js/ZipManager.js:51-57 | If the reverse step for update `i` throws, the accumulator `(content, v)` after `i` equals the one before `i`. |
| `Rewind.StepOnSuccess` | app/js/ZipManager.js:51-53 | If the reverse step for update `i` succeeds, the accumulator becomes its result content, together with `updates[i].v`. |
| `Rewind.FoldSkipsFailures` | app/js/ZipManager.js:45-57 | A run of consecutive failing updates leaves the accumulator unchanged, and the walk continues past it. |
| `Rewind.FoldUnchangedWhenAllFail` | app/js/ZipManager.js:42-72 | When every reverse step fails, the start snapshot is the fetched content at the fetched version. |
| `Rewind.FoldFromLastSuccess` | app/js/ZipManager.js:42-72 | The start version is the `v` of the last update whose reverse step succeeded. The start content is that step's result. |
| `Rewind.StartVersionOrigin` | app/js/ZipManager.js:42-72 | The start version comes from one of two sources: the fetched version when no step succeeded, or the `v` of the last update whose step succeeded. |
| `Rewind.FoldEquivalence` | app/js/ZipManager.js:42-53 | The plain fold of `rewindUpdate` (the one that stops at the first failure) reaches a content exactly when every step succeeds. In that case the fault-tolerant walk reaches the same content, at the last update's `v`, or at the fetched version if there are no updates. |
| `Rewind.AllStepsSucceedExample` | app/js/ZipManager.js:42-57 | `"ABCDE"` at version 5, rewound through updates 5, 4 and 3, each removing the last character, reaches `"AB"` at version 3. |
| `Rewind.MiddleStepFailsExample` | app/js/ZipManager.js:51-57 | In the same history with the middle step throwing, that step is skipped and the last one still applies: the walk reaches `"ABC"` at version 3. |
| `Rewind.DocEntries` | app/js/ZipManager.js:19-67 | The entries a resolving `rewindDoc` writes: two more than there are updates, the end snapshot at the fetched version first and a start snapshot last. |
| `Rewind.DocMetadataOf` | app/js/ZipManager.js:22-72 | The metadata a resolving `rewindDoc` returns: the document's id and fetched version, with one summary per update. |
| `Rewind.DocEntriesShape` | app/js/ZipManager.js:19-67 | A document whose fetches succeed gets exactly two more entries than it has updates. They come in this order: the end snapshot, one audit entry per update in list order (dated `meta.start_ts`, whatever became of its reverse step), then the start snapshot of the fold. With no updates, the start and end snapshots have the same content. |
| `Rewind.DocMetadataShape` | app/js/ZipManager.js:22-72 | The metadata holds the id and the fetched version. The end snapshot is at the fetched version and the start snapshot at the version the fold reached. `updates` has the same length and order as the update list, and element `i` is `{<id>/updates/<v>, v, start_ts}` of `updates[i]`. With no updates, the start and end versions both equal the fetched version. |
| `Rewind.AuditIndependentOfRewind` | app/js/ZipManager.js:46-57 | The audit entries and the update summaries are the same whichever reverse steps succeed. Only the start snapshot depends on `rewindUpdate`. |
| `Rewind.RewindDocSpec` | app/js/ZipManager.js:11-75 | `rewindDoc` resolves exactly when both the document fetch and the update fetch succeed. If the document fetch fails, nothing is written and the error is `GetDocumentFailed`. If the update fetch fails, only the end snapshot `<id>/content/end/<version>` with the fetched content is written and the error is `GetUpdatesFailed`. A resolution writes exactly `DocEntries` (two more entries than there are updates) and returns `DocMetadataOf` for this id, with one summary per update. |
| `Rewind.RewindDoc` | app/js/ZipManager.js:11-75 | The imperative walk. It appends exactly the entries of `RewindDocSpec` after the existing ones, returns its result and leaves the archive open. Its loop keeps the accumulator equal to the fold over the updates seen so far. |
| `Export.GenerateZipSpec` | app/js/ZipManager.js:77-90 | A failed compaction or listing writes nothing and aborts with that error. A project with no documents gets only `manifest.json`, with `docs: []`. On success the last entry is `manifest.json` with the collected metadata. |
| `Export.Loop` | app/js/ZipManager.js:81-84 | The `for` loop over the documents' results, stopping at the first rejection. It never collects more metadata records than there are documents, and exactly one per document when it completes. With no documents it writes nothing. |
| `Export.FailureIsFinal` | app/js/ZipManager.js:81-84 | Once one document's rewind rejects, the documents after it contribute nothing. |
| `Export.LoopSucceedsIffEveryDocDoes` | app/js/ZipManager.js:81-84 | The loop over documents completes exactly when every document's rewind resolves. |
| `Export.LoopInOrder` | app/js/ZipManager.js:80-84 | A completed loop collects one metadata record per document, in order, and record `i` is what document `i` resolved with. The archive holds each document's entries, one document after another, in that order. |
| `Export.LoopHasNoManifest` | app/js/ZipManager.js:81-84 | If no document writes `manifest.json`, the loop over documents does not either. |
| `Export.AbortAtFirstFailure` | app/js/ZipManager.js:81-84 | A rejected document aborts the loop. The entries are those of the documents before it, then whatever the failing document wrote before its fetch failed, and nothing after. The loop stops with that document's error. |
| `Export.ExportAborts` | app/js/ZipManager.js:81-84 | When the loop stops at a rejected document, the whole export ends there. Its entries and error are those of the loop so far, so no `manifest.json` is added. |
| `Export.DocEntriesUnderId` | app/js/ZipManager.js:19-67 | Every entry a document contributes, whether it resolves or rejects, lies under that document's id and is never `manifest.json`. |
| `Export.ExportSucceedsIff` | app/js/ZipManager.js:77-84 | The export succeeds exactly when compaction, the listing and every listed document's rewind succeed. |
| `Export.ManifestWrittenLastOnSuccess` | app/js/ZipManager.js:80-89 | A failed export has no `manifest.json` entry. A successful one has all the documents' entries in listing order, followed by exactly one `manifest.json` entry as the last entry, whose docs match the listed ids one to one. |
| `Export.GenerateZip` | app/js/ZipManager.js:77-90 | The imperative export. It appends exactly the entries of `GenerateZipSpec` and passes exactly when that succeeds, failing with its error otherwise. It ends the archive exactly when it passes. |

## Left out

- `exportProject` (app/js/ZipManager.js:92-117) is not modelled. It allocates a temporary file, pipes the zip stream into it and reports through a callback. That is file I/O plus a producer/consumer pipe, and its cleanup timing and possible double callback cannot be expressed in a sequential model. `GenerateZip`'s outcome and the `ended` flag stand in for what it observes.
- The zip encoding, `Buffer.from`, `JSON.stringify` and `new Date(...)` are not modelled. An entry holds a structured payload (a content text, the update record or the manifest) and an integer mtime, not bytes.
- `DiffGenerator.rewindUpdate` and the fetch, listing and compaction calls are given as total functions (`Collaborators`). Their internals are not part of this model. Their asynchrony is not modelled either, since every call is awaited in sequence.
- The error a rejected collaborator call carries is replaced by a tag naming the call (`ExportError`).
- Logging (`logger.log`, `logger.error`) and the `attempted_update` tag put on a caught error have no effect on results and are left out.
- `docId.toString()`: document ids are strings in this model, so the conversion is the identity.
- Versions and timestamps are unbounded integers. Non-integer JavaScript numbers are not modelled.
- `Archive.ZipFile.AddBuffer`: requires that the archive has not ended. The zip library throws in that case, and no call in the modelled code adds an entry after `end()`.
- The order of the fetched updates (most recent first) and the uniqueness of update versions are neither checked nor enforced by the code, so the model assumes neither.
