/** The local filesystem as a table from absolute paths to nodes, and the
    `java.nio.file.Files` / `FileOutputStream` primitives the repository uses,
    each an atomic update of that table. */
module Fs {
  import opened Wrappers
  import opened Text

  /** An absolute path as its components below the filesystem root; `[]` is
      the root, which always exists as a directory and is never a key. */
  type Path = seq<string>

  datatype Node = Dir | File(data: seq<byte>)

  type Nodes = map<Path, Node>

  /** The message of the exception raised when the null parent of the root
      reaches a filesystem call. */
  const NullPathMessage := "path is null"

  /** `Path.getParent()`: null only for the root. */
  function Parent(p: Path): (r: Option<Path>)
    ensures r.None? <==> p == []
    ensures r.Some? ==> r.value + [p[|p| - 1]] == p
  {
    if p == [] then None else Some(p[..|p| - 1])
  }

  /** The components of a path string: the pieces between slashes, empty
      pieces dropped, as `Path.of` parses a Unix path. */
  function Split(s: string): seq<string>
  {
    SplitFrom(s, "")
  }

  function SplitFrom(s: string, current: string): seq<string>
    decreases |s|
  {
    if s == [] then
      (if current == "" then [] else [current])
    else if s[0] == '/' then
      (if current == "" then [] else [current]) + SplitFrom(s[1..], "")
    else
      SplitFrom(s[1..], current + [s[0]])
  }

  /** A name without slashes is a single component. */
  lemma {:induction false} SplitFromPlain(s: string, current: string)
    requires forall i :: 0 <= i < |s| ==> s[i] != '/'
    requires current + s != ""
    ensures SplitFrom(s, current) == [current + s]
  {
    if s == [] {
      assert current + s == current;
    } else {
      assert s[0] != '/';
      assert current + s == (current + [s[0]]) + s[1..];
      assert forall i :: 0 <= i < |s[1..]| ==> s[1..][i] == s[i + 1];
      SplitFromPlain(s[1..], current + [s[0]]);
    }
  }

  lemma SplitPlain(name: string)
    requires name != "" && forall i :: 0 <= i < |name| ==> name[i] != '/'
    ensures Split(name) == [name]
  {
    SplitFromPlain(name, "");
    assert "" + name == name;
  }

  /** `base.resolve(name)`: an absolute name replaces the base. Like
      `Path.resolve`, it does not normalise: a `.` or `..` component stays in
      the path, where the operating system would follow it when the file is
      opened. The table below therefore says the right thing only of plain
      paths. */
  function Resolve(base: Path, name: string): Path
  {
    if StartsWith(name, "/") then Split(name) else base + Split(name)
  }

  function Join(p: Path): string
  {
    if p == [] then "" else if |p| == 1 then p[0] else p[0] + "/" + Join(p[1..])
  }

  /** `Path.toString()` of an absolute path. */
  function Render(p: Path): string
  {
    "/" + Join(p)
  }

  /** No component is `.` or `..`, so the path is the file its components
      spell. */
  predicate Plain(p: Path)
  {
    forall k :: 0 <= k < |p| ==> p[k] != "." && p[k] != ".."
  }

  predicate IsPrefix(q: Path, p: Path)
  {
    |q| <= |p| && p[..|q|] == q
  }

  /** `Files.exists`. */
  predicate Exists(nodes: Nodes, p: Path)
  {
    p == [] || p in nodes
  }

  /** `Files.isDirectory`. */
  predicate IsDirectory(nodes: Nodes, p: Path)
  {
    p == [] || (p in nodes && nodes[p].Dir?)
  }

  /** `Files.isRegularFile`. */
  predicate IsRegularFile(nodes: Nodes, p: Path)
  {
    p in nodes && nodes[p].File?
  }

  /** Every proper ancestor of an entry is a directory entry. */
  ghost predicate WellFormed(nodes: Nodes)
  {
    && [] !in nodes
    && forall p, k :: p in nodes && 0 < k < |p| ==> p[..k] in nodes && nodes[p[..k]].Dir?
  }

  /** The non-root ancestors of p and p itself. */
  function Prefixes(p: Path): set<Path>
  {
    set k | 1 <= k <= |p| :: p[..k]
  }

  /** Some ancestor of p, or p itself, is a regular file. */
  predicate BlockedByFile(nodes: Nodes, p: Path)
  {
    exists k | 1 <= k <= |p| :: p[..k] in nodes && nodes[p[..k]].File?
  }

  /** `Files.createDirectories`: creates p and its missing ancestors, and
      throws when p or an ancestor is a regular file. */
  function CreateDirectoriesSpec(nodes: Nodes, p: Path): (Outcome, Nodes)
  {
    if BlockedByFile(nodes, p) then (Fail(Render(p)), nodes)
    else (Pass, nodes + map q | q in Prefixes(p) :: Dir)
  }

  /** Some entry lies below p. */
  predicate HasChild(nodes: Nodes, p: Path)
  {
    exists q | q in nodes :: |q| > |p| && q[..|p|] == p
  }

  /** `Files.deleteIfExists`: false for an absent path; throws for the root,
      for a path the system refuses to delete and for a non-empty directory;
      otherwise removes the entry and returns true. */
  function DeleteIfExistsSpec(nodes: Nodes, locked: set<Path>, p: Path): (Result<bool>, Nodes)
  {
    if p == [] then (Err(Render(p)), nodes)
    else if p !in nodes then (Ok(false), nodes)
    else if p in locked then (Err(Render(p)), nodes)
    else if HasChild(nodes, p) then (Err(Render(p)), nodes)
    else (Ok(true), nodes - {p})
  }

  /** `FileOutputStream(path)`: throws for a directory and for a path whose
      parent is not a directory; otherwise creates or truncates the file. */
  function OpenForWriteSpec(nodes: Nodes, p: Path): (Outcome, Nodes)
  {
    if IsDirectory(nodes, p) then (Fail(Render(p)), nodes)
    else if !IsDirectory(nodes, p[..|p| - 1]) then (Fail(Render(p)), nodes)
    else (Pass, nodes[p := File([])])
  }

  /** `Files.newInputStream(path)` read to the end: the bytes of a regular
      file; a failure for anything else. */
  function ReadSpec(nodes: Nodes, p: Path): Result<seq<byte>>
  {
    if IsRegularFile(nodes, p) then Ok(nodes[p].data) else Err(Render(p))
  }

  /** The machine's filesystem. `locked` holds the paths the operating system
      refuses to delete (a file held open elsewhere, a read-only directory). */
  class FileSystem {
    var nodes: Nodes
    var locked: set<Path>

    constructor (nodes0: Nodes, locked0: set<Path>)
      ensures nodes == nodes0 && locked == locked0
    {
      nodes := nodes0;
      locked := locked0;
    }

    method CreateDirectories(p: Path) returns (o: Outcome)
      modifies this`nodes
      ensures (o, nodes) == CreateDirectoriesSpec(old(nodes), p)
    {
      var r := CreateDirectoriesSpec(nodes, p);
      o, nodes := r.0, r.1;
    }

    method DeleteIfExists(p: Path) returns (r: Result<bool>)
      modifies this`nodes
      ensures (r, nodes) == DeleteIfExistsSpec(old(nodes), locked, p)
    {
      var s := DeleteIfExistsSpec(nodes, locked, p);
      r, nodes := s.0, s.1;
    }

    method OpenForWrite(p: Path) returns (o: Outcome)
      modifies this`nodes
      ensures (o, nodes) == OpenForWriteSpec(old(nodes), p)
    {
      var r := OpenForWriteSpec(nodes, p);
      o, nodes := r.0, r.1;
    }

    /** `OutputStream.write` on an open file: appends the bytes. */
    method Append(p: Path, chunk: seq<byte>)
      requires IsRegularFile(nodes, p)
      modifies this`nodes
      ensures nodes == old(nodes)[p := File(old(nodes)[p].data + chunk)]
    {
      nodes := nodes[p := File(nodes[p].data + chunk)];
    }

    method OpenForRead(p: Path) returns (r: Result<seq<byte>>)
      ensures r == ReadSpec(nodes, p)
    {
      r := ReadSpec(nodes, p);
    }
  }

  /** After a successful `createDirectories`, p and all its ancestors are
      directories; a failure changes nothing. */
  lemma CreateDirectoriesMakesDirectories(nodes: Nodes, p: Path)
    ensures var (o, after) := CreateDirectoriesSpec(nodes, p);
      && (o.Pass? <==> !BlockedByFile(nodes, p))
      && (o.Pass? ==> forall k :: 0 <= k <= |p| ==> IsDirectory(after, p[..k]))
      && (o.Fail? ==> after == nodes)
  {
    var (o, after) := CreateDirectoriesSpec(nodes, p);
    if o.Pass? {
      forall k | 0 <= k <= |p| ensures IsDirectory(after, p[..k]) {
        if k > 0 { assert p[..k] in Prefixes(p); }
      }
    }
  }

  lemma CreateDirectoriesKeepsWellFormed(nodes: Nodes, p: Path)
    requires WellFormed(nodes)
    ensures WellFormed(CreateDirectoriesSpec(nodes, p).1)
  {
    var (o, after) := CreateDirectoriesSpec(nodes, p);
    if o.Pass? {
      forall q, k | q in after && 0 < k < |q| ensures q[..k] in after && after[q[..k]].Dir? {
        if q in Prefixes(p) {
          var j :| 1 <= j <= |p| && q == p[..j];
          assert q[..k] == p[..k];
          assert q[..k] in Prefixes(p);
        } else {
          assert q in nodes;
          if q[..k] !in Prefixes(p) {
            assert q[..k] in nodes && nodes[q[..k]].Dir?;
          }
        }
      }
    }
  }

  lemma DeleteKeepsWellFormed(nodes: Nodes, locked: set<Path>, p: Path)
    requires WellFormed(nodes)
    ensures WellFormed(DeleteIfExistsSpec(nodes, locked, p).1)
  {
    var (r, after) := DeleteIfExistsSpec(nodes, locked, p);
    if r == Ok(true) {
      forall q, k | q in after && 0 < k < |q| ensures q[..k] in after && after[q[..k]].Dir? {
        assert q in nodes;
      }
    }
  }

  lemma OpenForWriteKeepsWellFormed(nodes: Nodes, p: Path)
    requires WellFormed(nodes)
    ensures WellFormed(OpenForWriteSpec(nodes, p).1)
  {
    var (o, after) := OpenForWriteSpec(nodes, p);
    if o.Pass? {
      var parent := p[..|p| - 1];
      forall q, k | q in after && 0 < k < |q| ensures q[..k] in after && after[q[..k]].Dir? {
        if q == p {
          assert q[..k] == parent[..k];
          if k < |parent| {
            assert nodes[parent[..k]].Dir?;
            assert parent[..k] != p;
          }
        } else {
          assert q[..k] in nodes && nodes[q[..k]].Dir?;
          assert q[..k] != p;
        }
      }
    }
  }

  lemma AppendKeepsWellFormed(nodes: Nodes, p: Path, chunk: seq<byte>)
    requires WellFormed(nodes) && IsRegularFile(nodes, p)
    ensures WellFormed(nodes[p := File(nodes[p].data + chunk)])
  {
    var after := nodes[p := File(nodes[p].data + chunk)];
    forall q, k | q in after && 0 < k < |q| ensures q[..k] in after && after[q[..k]].Dir? {
      assert q in nodes;
      assert q[..k] != p;
    }
  }

  /** In a well-formed table a regular file has nothing below it. */
  lemma FileHasNoChild(nodes: Nodes, p: Path)
    requires WellFormed(nodes) && IsRegularFile(nodes, p)
    ensures !HasChild(nodes, p)
  {
  }

  /** Every directory of `before` is still a directory in `after`. */
  predicate KeepsDirectories(before: Nodes, after: Nodes)
  {
    forall p :: p in before && before[p].Dir? ==> p in after && after[p].Dir?
  }

  lemma KeepsDirectoriesTrans(a: Nodes, b: Nodes, c: Nodes)
    requires KeepsDirectories(a, b) && KeepsDirectories(b, c)
    ensures KeepsDirectories(a, c)
  {
  }
}
