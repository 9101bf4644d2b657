/** `FileService`: emptying the mods folder of its `.jar` files and creating
    the folders a Minecraft installation needs. */
module FileService {
  import opened Wrappers
  import opened Text
  import opened Fs
  import opened FileUtils

  const ModsName := "mods"
  const JarSuffix := ".jar"

  /** The folders `ensureMinecraftDirectoryStructure` makes sure of, in order. */
  const RequiredDirs: seq<string> := ["mods", "config", "resourcepacks", "shaderpacks"]

  function ModsFolder(mc: Path): Path
  {
    mc + [ModsName]
  }

  /** The entries directly inside `dir`. */
  predicate IsChild(p: Path, dir: Path)
  {
    |p| == |dir| + 1 && p[..|dir|] == dir
  }

  /** The entries the walk of depth one over the mods folder selects: regular
      files directly inside it whose name ends with ".jar" in any case. The
      walk also yields the folder itself, whose name "mods" never qualifies. */
  function JarCandidates(nodes: Nodes, mods: Path): set<Path>
  {
    set p | p in nodes && IsChild(p, mods) && nodes[p].File? && EndsWithIgnoreCase(p[|p| - 1], JarSuffix)
  }

  /** Among `among`, the entries `deleteIfExists` removes: present, not held
      by the system, without entries below them. */
  function Deletable(nodes: Nodes, locked: set<Path>, among: set<Path>): set<Path>
  {
    set p | p in among && p in nodes && p !in locked && !HasChild(nodes, p)
  }

  /** `cleanModsFolder`: a missing mods folder is created (which fails when an
      ancestor is a regular file); otherwise every deletable candidate is
      removed, a candidate that cannot be deleted is kept, and the result is a
      success either way. */
  function CleanModsFolderSpec(nodes: Nodes, locked: set<Path>, mc: Path): (Outcome, Nodes)
  {
    var mods := ModsFolder(mc);
    if !Exists(nodes, mods) then CreateDirectoriesSpec(nodes, mods)
    else (Pass, nodes - Deletable(nodes, locked, JarCandidates(nodes, mods)))
  }

  /** Deleting a sibling does not change whether a candidate has entries below
      it. */
  lemma HasChildAfterSiblingsGo(nodes: Nodes, gone: set<Path>, p: Path, mods: Path)
    requires IsChild(p, mods)
    requires forall q :: q in gone ==> IsChild(q, mods)
    ensures HasChild(nodes - gone, p) == HasChild(nodes, p)
  {
    if HasChild(nodes, p) {
      var q :| q in nodes && |q| > |p| && q[..|p|] == p;
      assert q !in gone;
    }
  }

  /** One turn of the cleaning loop: deleting the next candidate from what
      is left after the earlier ones extends the set of deleted candidates by
      it when it is deletable, and changes nothing otherwise. */
  lemma DeleteCandidateStep(n0: Nodes, locked: set<Path>, mods: Path, candidates: set<Path>, pending: set<Path>, file: Path)
    requires candidates == JarCandidates(n0, mods)
    requires pending <= candidates && file in pending
    ensures DeleteIfExistsSpec(n0 - Deletable(n0, locked, candidates - pending), locked, file).1
      == n0 - Deletable(n0, locked, candidates - (pending - {file}))
  {
    var gone := Deletable(n0, locked, candidates - pending);
    HasChildAfterSiblingsGo(n0, gone, file, mods);
    assert Deletable(n0, locked, candidates - (pending - {file})) == gone + Deletable(n0, locked, {file});
    if file in n0 && file !in locked && !HasChild(n0, file) {
      assert Deletable(n0, locked, {file}) == {file};
    } else {
      assert Deletable(n0, locked, {file}) == {};
    }
  }

  /** `cleanModsFolder`. The walk's order is not fixed, so the loop picks any
      remaining candidate; the outcome does not depend on the choice. */
  method CleanModsFolder(fs: FileSystem, mc: Path) returns (o: Outcome)
    modifies fs`nodes
    ensures (o, fs.nodes) == CleanModsFolderSpec(old(fs.nodes), fs.locked, mc)
  {
    var mods := ModsFolder(mc);
    if !Exists(fs.nodes, mods) {
      o := fs.CreateDirectories(mods);
      return;
    }
    ghost var n0 := fs.nodes;
    var candidates := JarCandidates(fs.nodes, mods);
    var pending := candidates;
    while pending != {}
      invariant pending <= candidates
      invariant fs.nodes == n0 - Deletable(n0, fs.locked, candidates - pending)
      decreases |pending|
    {
      var file :| file in pending;
      DeleteCandidateStep(n0, fs.locked, mods, candidates, pending, file);
      var deleted := DeleteFileSafely(fs, file);
      pending := pending - {file};
    }
    assert candidates - pending == candidates;
    o := Pass;
  }

  /** After cleaning an existing mods folder, every `.jar` file left directly
      inside it is one the system holds; every other entry is untouched; and
      the operation succeeds even when deletions fail. */
  lemma CleanModsFolderEffect(nodes: Nodes, locked: set<Path>, mc: Path)
    requires WellFormed(nodes)
    requires Exists(nodes, ModsFolder(mc))
    ensures var (o, after) := CleanModsFolderSpec(nodes, locked, mc);
      && o.Pass?
      && (forall p :: p in after && IsChild(p, ModsFolder(mc)) && after[p].File? && EndsWithIgnoreCase(p[|p| - 1], JarSuffix) ==> p in locked)
      && (forall p :: p in nodes && p !in JarCandidates(nodes, ModsFolder(mc)) ==> p in after && after[p] == nodes[p])
      && (forall p :: p in nodes && p in locked ==> p in after)
      && (forall p :: p in after ==> p in nodes && after[p] == nodes[p])
  {
    var mods := ModsFolder(mc);
    var (o, after) := CleanModsFolderSpec(nodes, locked, mc);
    forall p | p in after && IsChild(p, mods) && after[p].File? && EndsWithIgnoreCase(p[|p| - 1], JarSuffix)
      ensures p in locked
    {
      assert p in JarCandidates(nodes, mods);
    }
  }

  /** Cleaning with the mods folder missing creates it, and nothing else
      changes but the folders on the way to it. */
  lemma CleanModsFolderCreatesMissingFolder(nodes: Nodes, locked: set<Path>, mc: Path)
    requires !Exists(nodes, ModsFolder(mc)) && !BlockedByFile(nodes, ModsFolder(mc))
    ensures var (o, after) := CleanModsFolderSpec(nodes, locked, mc);
      o.Pass? && IsDirectory(after, ModsFolder(mc)) && forall p :: p in nodes ==> p in after && after[p] == nodes[p]
  {
    CreateDirectoriesMakesDirectories(nodes, ModsFolder(mc));
    EnsureDirectoryExistsEffect(nodes, ModsFolder(mc));
    assert ModsFolder(mc)[..|ModsFolder(mc)|] == ModsFolder(mc);
  }

  /** The required folders from position i on, stopping at the first one that
      cannot be created. */
  function EnsureFrom(nodes: Nodes, mc: Path, i: nat): (Outcome, Nodes)
    requires i <= |RequiredDirs|
    decreases |RequiredDirs| - i
  {
    if i == |RequiredDirs| then (Pass, nodes)
    else
      var (o, n) := EnsureDirectoryExistsSpec(nodes, mc + [RequiredDirs[i]]);
      if o.Fail? then (o, n) else EnsureFrom(n, mc, i + 1)
  }

  /** `ensureMinecraftDirectoryStructure`. */
  method EnsureMinecraftDirectoryStructure(fs: FileSystem, mc: Path) returns (o: Outcome)
    modifies fs`nodes
    ensures (o, fs.nodes) == EnsureFrom(old(fs.nodes), mc, 0)
  {
    var i := 0;
    while i < |RequiredDirs|
      invariant 0 <= i <= |RequiredDirs|
      invariant EnsureFrom(fs.nodes, mc, i) == EnsureFrom(old(fs.nodes), mc, 0)
    {
      o := EnsureDirectoryExists(fs, mc + [RequiredDirs[i]]);
      if o.Fail? {
        return;
      }
      i := i + 1;
    }
    o := Pass;
  }

  /** From position i on: on success every remaining required folder exists;
      existing entries are never changed and new entries are directories on
      the way to a required folder; a path that already satisfied the
      requirement stays. */
  lemma {:induction false} EnsureFromEffect(nodes: Nodes, mc: Path, i: nat)
    requires i <= |RequiredDirs|
    ensures var (o, after) := EnsureFrom(nodes, mc, i);
      && (o.Pass? ==> forall k :: i <= k < |RequiredDirs| ==> Exists(after, mc + [RequiredDirs[k]]))
      && (forall q :: q in nodes ==> q in after && after[q] == nodes[q])
      && (forall q :: q in after && q !in nodes ==> after[q] == Dir && exists k :: i <= k < |RequiredDirs| && q in Prefixes(mc + [RequiredDirs[k]]))
    decreases |RequiredDirs| - i
  {
    if i < |RequiredDirs| {
      var dir := mc + [RequiredDirs[i]];
      EnsureDirectoryExistsEffect(nodes, dir);
      var (o1, n1) := EnsureDirectoryExistsSpec(nodes, dir);
      if o1.Pass? {
        EnsureFromEffect(n1, mc, i + 1);
        var (o, after) := EnsureFrom(n1, mc, i + 1);
        assert (o, after) == EnsureFrom(nodes, mc, i);
        if o.Pass? {
          assert Exists(after, dir);
        }
      }
    }
  }

  /** After `ensureMinecraftDirectoryStructure` succeeds the four folders
      exist; nothing that existed changes; a second call does nothing. */
  lemma EnsureStructureEffect(nodes: Nodes, mc: Path)
    ensures var (o, after) := EnsureFrom(nodes, mc, 0);
      && (o.Pass? ==> forall k :: 0 <= k < |RequiredDirs| ==> Exists(after, mc + [RequiredDirs[k]]))
      && (forall q :: q in nodes ==> q in after && after[q] == nodes[q])
      && (o.Pass? ==> EnsureFrom(after, mc, 0) == (Pass, after))
  {
    EnsureFromEffect(nodes, mc, 0);
    var (o, after) := EnsureFrom(nodes, mc, 0);
    if o.Pass? {
      AllExistIsNoop(after, mc, 0);
    }
  }

  /** When every remaining folder exists, the rest of the walk changes
      nothing. */
  lemma {:induction false} AllExistIsNoop(nodes: Nodes, mc: Path, i: nat)
    requires i <= |RequiredDirs|
    requires forall k :: i <= k < |RequiredDirs| ==> Exists(nodes, mc + [RequiredDirs[k]])
    ensures EnsureFrom(nodes, mc, i) == (Pass, nodes)
    decreases |RequiredDirs| - i
  {
    if i < |RequiredDirs| {
      AllExistIsNoop(nodes, mc, i + 1);
    }
  }

  /** When none of the four folders is a regular file, a successful call
      leaves each of them a directory. */
  lemma EnsureStructureMakesDirectories(nodes: Nodes, mc: Path)
    requires forall k :: 0 <= k < |RequiredDirs| ==> !IsRegularFile(nodes, mc + [RequiredDirs[k]])
    ensures var (o, after) := EnsureFrom(nodes, mc, 0);
      o.Pass? ==> forall k :: 0 <= k < |RequiredDirs| ==> IsDirectory(after, mc + [RequiredDirs[k]])
  {
    EnsureFromEffect(nodes, mc, 0);
    var (o, after) := EnsureFrom(nodes, mc, 0);
    if o.Pass? {
      forall k | 0 <= k < |RequiredDirs| ensures IsDirectory(after, mc + [RequiredDirs[k]]) {
        var dir := mc + [RequiredDirs[k]];
        assert Exists(after, dir);
      }
    }
  }

  /** Cleaning deletes only regular files, so every directory stays. */
  lemma CleanModsFolderKeepsDirectories(nodes: Nodes, locked: set<Path>, mc: Path)
    ensures KeepsDirectories(nodes, CleanModsFolderSpec(nodes, locked, mc).1)
  {
  }
}
