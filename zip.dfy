/** A `.mrpack` file as `ZipInputStream` presents it: the entries in stream
    order, each with its name and decompressed bytes. */
module Zip {
  import opened Wrappers
  import opened Text

  datatype Entry = Entry(name: string, data: seq<byte>)

  /** `ZipEntry.isDirectory`: the name ends with a slash. */
  predicate IsDirectoryEntry(e: Entry)
  {
    EndsWith(e.name, "/")
  }

  /** The entries `getNextEntry` yields in order. When `truncated` holds, the
      call after the last listed entry throws a ZIP format error instead of
      returning null. A file that is not a ZIP archive at all yields no
      entries: `Archive([], false)`. */
  datatype Archive = Archive(entries: seq<Entry>, truncated: bool)

  const TruncatedMessage := "invalid zip stream"

  /** One `read(buffer)` of an entry's data from position `pos`: at most
      `size` bytes, none at the end of the entry. */
  function ReadChunk(data: seq<byte>, pos: nat, size: nat): (chunk: seq<byte>)
    requires pos <= |data|
    ensures |chunk| == if pos + size <= |data| then size else |data| - pos
    ensures chunk == data[pos..pos + |chunk|]
  {
    if pos + size <= |data| then data[pos..pos + size] else data[pos..]
  }
}
