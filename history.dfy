/**
 * The values ZipManager.js works on: documents, updates, archive paths and
 * entries, per-document metadata and the project manifest.
 */
module History {
  import opened Wrappers

  /** A document as the document updater returns it: its current text and version. */
  datatype Document = Document(content: string, version: int)

  /**
   * One recorded edit of a document. `op` stands for the rest of the stored
   * record (its operations and metadata), which the core never looks into;
   * `startTs` is `meta.start_ts`.
   */
  datatype Update = Update(v: int, op: string, startTs: int)

  /**
   * A path inside the archive, kept structured:
   * `<id>/content/end/<v>`, `<id>/content/start/<v>`, `<id>/updates/<v>`
   * and `manifest.json`. Their text form is `Paths.Render`.
   */
  datatype Path =
    | EndPath(id: string, v: int)
    | StartPath(id: string, v: int)
    | UpdatePath(id: string, v: int)
    | ManifestPath

  /** Where one snapshot of a document's content was written, and its version. */
  datatype Snapshot = Snapshot(path: Path, version: int)

  /** One element of `metadata.updates`: `{path, version, ts}`. */
  datatype UpdateSummary = UpdateSummary(path: Path, version: int, ts: int)

  /** The metadata `rewindDoc` returns for one document. */
  datatype DocMetadata = DocMetadata(
    id: string,
    version: int,
    contentEnd: Snapshot,
    contentStart: Snapshot,
    updates: seq<UpdateSummary>)

  /** The project manifest written as `manifest.json`. */
  datatype Manifest = Manifest(projectId: string, docs: seq<DocMetadata>)

  /**
   * What an entry's bytes serialise: a content snapshot, one update record
   * (its JSON), or the manifest (its pretty-printed JSON).
   */
  datatype Payload =
    | Text(content: string)
    | UpdateRecord(update: Update)
    | ManifestRecord(manifest: Manifest)

  /** One archive entry; `mtime` is the optional modification time. */
  datatype Entry = Entry(path: Path, payload: Payload, mtime: Option<int>)

  /** The error an export is aborted with, tagged by the collaborator call that failed. */
  datatype ExportError =
    | CompactionFailed(projectId: string)
    | ListDocsFailed(projectId: string)
    | GetDocumentFailed(docId: string)
    | GetUpdatesFailed(docId: string)

  /**
   * The external calls ZipManager.js makes, as total functions; `false` or
   * `None` stands for a call that rejected or threw.
   */
  datatype Collaborators = Collaborators(
    /** UpdatesManager.processUncompressedUpdatesForProject(projectId) */
    processUncompressedUpdates: string -> bool,
    /** PackManager.findAllDocsInProject(projectId) */
    findAllDocsInProject: string -> Option<seq<string>>,
    /** DocumentUpdaterManager.getDocument(projectId, docId) */
    getDocument: (string, string) -> Option<Document>,
    /** PackManager.getOpsByVersionRange(projectId, docId, fromVersion, toVersion) */
    getOpsByVersionRange: (string, string, int, int) -> Option<seq<Update>>,
    /** DiffGenerator.rewindUpdate(content, update) */
    rewindUpdate: (string, Update) -> Option<string>)
}
