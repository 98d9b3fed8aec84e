/**
 * The archive builder the export writes into (a yazl ZipFile): entries are
 * appended one at a time, in call order, until `End` closes the archive.
 */
module Archive {
  import opened Wrappers
  import opened History

  class ZipFile {
    /** The entries added so far, oldest first. */
    var entries: seq<Entry>
    /** Set once `end()` has been called. */
    var ended: bool

    constructor ()
      ensures entries == [] && !ended
    {
      entries := [];
      ended := false;
    }

    /**
     * `addBuffer(buffer, path, options)`: appends one entry. The builder
     * refuses entries once it has ended, so callers add before `End`.
     */
    method AddBuffer(payload: Payload, path: Path, mtime: Option<int>)
      requires !ended
      modifies this
      ensures entries == old(entries) + [Entry(path, payload, mtime)]
      ensures !ended
    {
      entries := entries + [Entry(path, payload, mtime)];
    }

    /** `end()`: no more entries; the entries added so far are the archive. */
    method End()
      modifies this
      ensures ended
      ensures entries == old(entries)
    {
      ended := true;
    }
  }
}
