/** The in-memory view of a ZIP archive: the ordered list of its entries.
    The byte format (headers, compression, central directory) is not modelled. */
module Archive {
  import opened Wrappers

  newtype byte = x: int | 0 <= x < 256

  type Bytes = seq<byte>

  /** What one entry holds: the bytes copied into it, or (in the outer
      archive) a whole nested archive. */
  datatype Content = Raw(data: Bytes) | Nested(entries: seq<Entry>)

  datatype Entry = Entry(name: string, content: Content)

  /** The errors the archiving code can meet, with the path they concern. */
  datatype Fault =
    | ListFailed(dir: seq<string>)
    | OpenFailed(file: seq<string>)
    | ReadFailed(file: seq<string>)
    | FlushFailed

  /** A zip.Writer over some sink. Writes are buffered, so a sink that rejects
      writes is reported when the writer is closed. */
  class ZipWriter {
    var entries: seq<Entry>
    var closed: bool
    const sinkOk: bool

    constructor (sinkOk: bool)
      ensures entries == [] && !closed && this.sinkOk == sinkOk
    {
      entries := [];
      closed := false;
      this.sinkOk := sinkOk;
    }

    /** w.Create(name) followed by copying `content` into the new entry.
        Duplicate names are not detected: each call adds one more entry. */
    method Add(name: string, content: Content)
      requires !closed
      modifies this
      ensures !closed
      ensures entries == old(entries) + [Entry(name, content)]
    {
      entries := entries + [Entry(name, content)];
    }

    /** w.Close(): flushes everything to the sink; the entries stay as they are. */
    method Close() returns (err: Option<Fault>)
      requires !closed
      modifies this
      ensures closed && entries == old(entries)
      ensures err.Some? <==> !sinkOk
      ensures err.Some? ==> err.value == FlushFailed
    {
      closed := true;
      if sinkOk {
        err := None;
      } else {
        err := Some(FlushFailed);
      }
    }
  }
}
