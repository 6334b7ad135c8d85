/**
 * The ZIP archive the route fills with the converted images (lines 163-181).
 * Compression, the stream events and the base64 encoding belong to the
 * archiving library; what the route decides is which entries are appended,
 * under which path and in which order, and that is what is kept here.
 */
module Archive {
  /** One appended entry: its path inside the archive and its content. */
  datatype ZipEntry = ZipEntry(name: string, data: seq<bv8>)

  /** An archive being written: the entries appended so far, in order. */
  class ZipArchive {
    var entries: seq<ZipEntry>

    constructor ()
      ensures entries == []
    {
      entries := [];
    }

    /** `archive.append(data, { name })`: adds one entry after the others. */
    method Append(data: seq<bv8>, name: string)
      modifies this
      ensures entries == old(entries) + [ZipEntry(name, data)]
    {
      entries := entries + [ZipEntry(name, data)];
    }
  }
}
