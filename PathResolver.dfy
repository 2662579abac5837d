/**
 * The path layer of the Rust dependency resolver: where a `mod` declaration
 * or a flattened `use` path points on disk, and whether that file may be
 * followed (it must exist and lie under the project root).
 */
module PathResolver {
  import opened Wrappers
  import opened Seqs
  import opened RustSyntax

  /** An absolute path as its segments; `[]` is the filesystem root `/`. */
  type Path = seq<string>

  /**
   * The filesystem as the resolver sees it: the canonical paths that exist,
   * what `Path.resolve()` makes of a path (symlinks and `..` resolved), and
   * the syntax tree of every file that can be read and decoded as UTF-8.
   */
  datatype FileSystem = FileSystem(entries: set<Path>, canonical: Path -> Path, parsed: map<Path, Node>)

  /** `path.parent`: the filesystem root is its own parent. */
  function Parent(p: Path): (r: Path)
    ensures p == [] ==> r == []
    ensures p != [] ==> |r| == |p| - 1 && p == r + [p[|p| - 1]]
  {
    if p == [] then [] else p[..|p| - 1]
  }

  /** `p.relative_to(root)` succeeds: `root` is a leading part of `p`. */
  predicate Inside(root: Path, p: Path) {
    |root| <= |p| && p[..|root|] == root
  }

  /** The three path tokens a `use` path may start with. */
  predicate IsNavigation(token: string) {
    token == "crate" || token == "self" || token == "super"
  }

  /**
   * The base directory after one leading token: `crate` jumps to the project
   * root, `self` back to the current file's directory, `super` one level up
   * unless the base already is the filesystem root.
   */
  function NavigationStep(token: string, base: Path, currentFile: Path, root: Path): Path
  {
    if token == "crate" then root
    else if token == "self" then Parent(currentFile)
    else
      var potential := Parent(base);
      if potential != base then potential else base
  }

  /** Consumes the navigation tokens from index `i` on, starting from `base`. */
  function ConsumeNavigation(segments: seq<string>, i: nat, base: Path, currentFile: Path, root: Path): (r: (Path, seq<string>))
    requires i <= |segments|
    decreases |segments| - i
  {
    if i < |segments| && IsNavigation(segments[i]) then
      ConsumeNavigation(segments, i + 1, NavigationStep(segments[i], base, currentFile, root), currentFile, root)
    else (base, segments[i..])
  }

  /** What is left after the navigation prefix is the rest of the path from its first plain identifier on. */
  lemma {:induction false} ConsumeNavigationRest(segments: seq<string>, i: nat, base: Path, currentFile: Path, root: Path)
    requires i <= |segments|
    ensures var r := ConsumeNavigation(segments, i, base, currentFile, root);
      i + |r.1| <= |segments| && r.1 == segments[|segments| - |r.1|..]
      && (forall k :: i <= k < |segments| - |r.1| ==> IsNavigation(segments[k]))
      && (r.1 != [] ==> !IsNavigation(r.1[0]))
    decreases |segments| - i
  {
    if i < |segments| && IsNavigation(segments[i]) {
      ConsumeNavigationRest(segments, i + 1, NavigationStep(segments[i], base, currentFile, root), currentFile, root);
    }
  }

  /**
   * `_derive_use_base_directory`: the directory a `use` path is resolved
   * from and the segments still to resolve, which are exactly the path from
   * its first plain identifier on.
   */
  function DeriveBase(segments: seq<string>, currentFile: Path, root: Path): (r: (Path, seq<string>))
    ensures |r.1| <= |segments| && r.1 == segments[|segments| - |r.1|..]
    ensures forall k :: 0 <= k < |segments| - |r.1| ==> IsNavigation(segments[k])
    ensures r.1 != [] ==> !IsNavigation(r.1[0])
    ensures segments == [] ==> r == (Parent(currentFile), [])
  {
    if segments == [] then (Parent(currentFile), [])
    else
      ConsumeNavigationRest(segments, 0, Parent(currentFile), currentFile, root);
      ConsumeNavigation(segments, 0, Parent(currentFile), currentFile, root)
  }

  /** The loop of `_derive_use_base_directory`, which advances an index and a base directory together. */
  method DeriveUseBaseDirectory(segments: seq<string>, currentFile: Path, root: Path) returns (baseDir: Path, remaining: seq<string>)
    ensures (baseDir, remaining) == DeriveBase(segments, currentFile, root)
  {
    if segments == [] {
      return Parent(currentFile), [];
    }
    baseDir := Parent(currentFile);
    var idx := 0;
    while idx < |segments|
      invariant 0 <= idx <= |segments|
      invariant ConsumeNavigation(segments, idx, baseDir, currentFile, root) == DeriveBase(segments, currentFile, root)
    {
      var token := segments[idx];
      if token == "crate" {
        baseDir := root;
      } else if token == "self" {
        baseDir := Parent(currentFile);
      } else if token == "super" {
        var potential := Parent(baseDir);
        if potential != baseDir {
          baseDir := potential;
        }
      } else {
        break;
      }
      idx := idx + 1;
    }
    remaining := segments[idx..];
  }

  /** `p` with its last `k` segments dropped (all of them when it has fewer). */
  function Ancestor(p: Path, k: nat): (r: Path)
    ensures Inside(r, p)
    ensures |r| == if k <= |p| then |p| - k else 0
  {
    p[..if k <= |p| then |p| - k else 0]
  }

  /** `k` copies of the token `super`. */
  function Supers(k: nat): (r: seq<string>)
    ensures |r| == k && forall j :: 0 <= j < k ==> r[j] == "super"
  {
    if k == 0 then [] else ["super"] + Supers(k - 1)
  }

  /** A `super` token moves the base to its parent. */
  lemma SuperStep(segments: seq<string>, i: nat, base: Path, currentFile: Path, root: Path)
    requires i < |segments| && segments[i] == "super"
    ensures ConsumeNavigation(segments, i, base, currentFile, root)
      == ConsumeNavigation(segments, i + 1, Parent(base), currentFile, root)
  {
  }

  /** A plain identifier ends the navigation prefix, with the base climbed no further. */
  lemma StopStep(segments: seq<string>, i: nat, base: Path, currentFile: Path, root: Path)
    requires i < |segments| && !IsNavigation(segments[i])
    ensures ConsumeNavigation(segments, i, base, currentFile, root) == (Ancestor(base, 0), segments[i..])
  {
    assert Ancestor(base, 0) == base;
  }

  /** A `super` in front of a climb of `k - 1` levels from the parent is a climb of `k` levels. */
  lemma ClimbOneMore(segments: seq<string>, i: nat, k: nat, base: Path, currentFile: Path, root: Path)
    requires 0 < k && i + k < |segments| && segments[i] == "super"
    requires ConsumeNavigation(segments, i + 1, Parent(base), currentFile, root) == (Ancestor(Parent(base), k - 1), segments[i + k..])
    ensures ConsumeNavigation(segments, i, base, currentFile, root) == (Ancestor(base, k), segments[i + k..])
  {
    SuperStep(segments, i, base, currentFile, root);
    AncestorOfParent(base, k - 1);
  }

  /** Climbing `k` levels from a parent is climbing `k + 1` levels. */
  lemma AncestorOfParent(p: Path, k: nat)
    ensures Ancestor(Parent(p), k) == Ancestor(p, k + 1)
  {
  }

  /**
   * A run of `k` `super` tokens climbs exactly `k` directories from the base,
   * stopping only at the filesystem root (not at the project root).
   */
  lemma {:induction false} SupersClimb(segments: seq<string>, i: nat, k: nat, base: Path, currentFile: Path, root: Path)
    requires i + k < |segments|
    requires forall j :: i <= j < i + k ==> segments[j] == "super"
    requires !IsNavigation(segments[i + k])
    ensures ConsumeNavigation(segments, i, base, currentFile, root) == (Ancestor(base, k), segments[i + k..])
    decreases k
  {
    if k == 0 {
      StopStep(segments, i, base, currentFile, root);
    } else {
      SupersClimb(segments, i + 1, k - 1, Parent(base), currentFile, root);
      ClimbOneMore(segments, i, k, base, currentFile, root);
    }
  }

  /** `use super::...::super::x` (k times) resolves `x` from the k-th ancestor of the file's directory. */
  lemma LeadingSupers(k: nat, rest: seq<string>, currentFile: Path, root: Path)
    requires rest != [] && !IsNavigation(rest[0])
    ensures DeriveBase(Supers(k) + rest, currentFile, root) == (Ancestor(Parent(currentFile), k), rest)
  {
    var segments := Supers(k) + rest;
    SupersClimb(segments, 0, k, Parent(currentFile), currentFile, root);
    assert segments[k..] == rest;
  }

  /** `use crate::super::...::x` (k times `super`) resolves `x` from the k-th ancestor of the project root. */
  lemma CrateThenSupers(k: nat, rest: seq<string>, currentFile: Path, root: Path)
    requires rest != [] && !IsNavigation(rest[0])
    ensures DeriveBase(["crate"] + Supers(k) + rest, currentFile, root) == (Ancestor(root, k), rest)
  {
    var segments := ["crate"] + Supers(k) + rest;
    SupersClimb(segments, 1, k, root, currentFile, root);
    assert segments[1 + k..] == rest;
  }

  /** `use self::x` resolves `x` from the current file's directory, whatever came before `self`. */
  lemma SelfResets(leading: seq<string>, rest: seq<string>, currentFile: Path, root: Path)
    requires forall j :: 0 <= j < |leading| ==> IsNavigation(leading[j])
    requires rest != [] && !IsNavigation(rest[0])
    ensures DeriveBase(leading + ["self"] + rest, currentFile, root) == (Parent(currentFile), rest)
  {
    var segments := leading + ["self"] + rest;
    var i := 0;
    var base := Parent(currentFile);
    while i < |leading|
      invariant 0 <= i <= |leading|
      invariant ConsumeNavigation(segments, i, base, currentFile, root) == DeriveBase(segments, currentFile, root)
    {
      base := NavigationStep(segments[i], base, currentFile, root);
      i := i + 1;
    }
    assert segments[|leading|] == "self";
    assert segments[|leading| + 1..] == rest;
    SupersClimb(segments, |leading| + 1, 0, Parent(currentFile), currentFile, root);
  }

  // ---------------------------------------------------------------------
  // Candidate files
  // ---------------------------------------------------------------------

  /** `_candidate_paths`: `<dir>/<name>.rs`, then `<dir>/<name>/mod.rs`. */
  function CandidatePaths(moduleName: string, parentDir: Path): (r: seq<Path>)
    ensures |r| == 2 && |r[0]| == |parentDir| + 1 && |r[1]| == |parentDir| + 2
    ensures Parent(r[0]) == parentDir && r[0][|r[0]| - 1] == moduleName + ".rs"
    ensures Parent(Parent(r[1])) == parentDir && r[1][|r[1]| - 2..] == [moduleName, "mod.rs"]
  {
    [parentDir + [moduleName + ".rs"], parentDir + [moduleName, "mod.rs"]]
  }

  /** The two files `_resolve_segments_to_path` tries: `<base>/<a/b/c>.rs`, then `<base>/<a/b/c>/mod.rs`. */
  function SegmentCandidates(baseDir: Path, segments: seq<string>): (r: seq<Path>)
    requires segments != []
    ensures |r| == 2 && |r[0]| == |baseDir| + |segments| && |r[1]| == |baseDir| + |segments| + 1
    ensures Inside(baseDir, r[0]) && Inside(baseDir, r[1])
    ensures Parent(r[0]) == baseDir + segments[..|segments| - 1] && r[0][|r[0]| - 1] == segments[|segments| - 1] + ".rs"
    ensures Parent(r[1]) == baseDir + segments && r[1][|r[1]| - 1] == "mod.rs"
  {
    var last := |segments| - 1;
    [baseDir + segments[..last] + [segments[last] + ".rs"], baseDir + segments + ["mod.rs"]]
  }

  /** A module name is resolved exactly like a one-segment path. */
  lemma ModuleCandidatesAreSegmentCandidates(moduleName: string, parentDir: Path)
    ensures CandidatePaths(moduleName, parentDir) == SegmentCandidates(parentDir, [moduleName])
  {
    assert [moduleName][..0] == [];
    assert parentDir + [moduleName][..0] == parentDir;
    assert parentDir + [moduleName] + ["mod.rs"] == parentDir + [moduleName, "mod.rs"];
  }

  /** The canonical form of the first candidate that exists, if any does. */
  function FirstExisting(fs: FileSystem, candidates: seq<Path>): (r: Option<Path>)
    ensures r.Some? ==> r.value in fs.entries
    ensures r.Some? ==> exists i :: (0 <= i < |candidates| && r.value == fs.canonical(candidates[i])
      && forall j :: 0 <= j < i ==> fs.canonical(candidates[j]) !in fs.entries)
    ensures r.None? <==> forall i :: 0 <= i < |candidates| ==> fs.canonical(candidates[i]) !in fs.entries
  {
    if candidates == [] then None
    else
      var resolved := fs.canonical(candidates[0]);
      if resolved in fs.entries then
        Some(resolved)
      else
        var r := FirstExisting(fs, candidates[1..]);
        if r.Some? then
          var i :| 0 <= i < |candidates[1..]| && r.value == fs.canonical(candidates[1..][i])
            && forall j :: 0 <= j < i ==> fs.canonical(candidates[1..][j]) !in fs.entries;
          assert r.value == fs.canonical(candidates[i + 1]);
          r
        else r
  }

  /** `_resolve_module_path`: the flat file `<name>.rs` first, then `<name>/mod.rs`. */
  function ResolveModulePath(fs: FileSystem, moduleName: string, parentDir: Path): (r: Option<Path>)
    ensures r.Some? ==> r.value in fs.entries
  {
    FirstExisting(fs, CandidatePaths(moduleName, parentDir))
  }

  /** When the flat file exists it wins over `mod.rs`, whether or not `mod.rs` exists too. */
  lemma FlatFileWins(fs: FileSystem, moduleName: string, parentDir: Path)
    requires fs.canonical(parentDir + [moduleName + ".rs"]) in fs.entries
    ensures ResolveModulePath(fs, moduleName, parentDir) == Some(fs.canonical(parentDir + [moduleName + ".rs"]))
  {
  }

  /** Without a flat file, the module resolves to its `mod.rs` when that exists, and to nothing otherwise. */
  lemma ModFileFallback(fs: FileSystem, moduleName: string, parentDir: Path)
    requires fs.canonical(parentDir + [moduleName + ".rs"]) !in fs.entries
    ensures ResolveModulePath(fs, moduleName, parentDir)
      == if fs.canonical(parentDir + [moduleName, "mod.rs"]) in fs.entries
         then Some(fs.canonical(parentDir + [moduleName, "mod.rs"])) else None
  {
    var cs := CandidatePaths(moduleName, parentDir);
    var m := parentDir + [moduleName, "mod.rs"];
    assert cs[1..] == [m];
    assert [m][1..] == [];
    assert FirstExisting(fs, cs) == FirstExisting(fs, [m]);
  }

  /** `_resolve_segments_to_path`: nothing for no segments, else the first of the two candidate files that exists. */
  function ResolveSegmentsToPath(fs: FileSystem, baseDir: Path, segments: seq<string>): (r: Option<Path>)
    ensures r.Some? ==> r.value in fs.entries && segments != []
  {
    if segments == [] then None else FirstExisting(fs, SegmentCandidates(baseDir, segments))
  }

  /** `_candidate_segment_lists`: the path itself, then (only for a non-glob path of two or more segments) its parent module. */
  function CandidateSegmentLists(segments: seq<string>, isGlob: bool): (r: seq<seq<string>>)
    ensures segments == [] ==> r == []
    ensures segments != [] ==> 1 <= |r| <= 2 && r[0] == segments
    ensures |r| == 2 <==> !isGlob && |segments| > 1
    ensures |r| == 2 ==> r[1] == segments[..|segments| - 1]
  {
    if segments == [] then []
    else if !isGlob && |segments| > 1 then [segments, segments[..|segments| - 1]]
    else [segments]
  }

  /**
   * Tries the candidate segment lists in order and returns the first that
   * resolves to a file under the root; a list that resolves outside the
   * root is skipped and the next one is tried.
   */
  function FirstInsideRoot(fs: FileSystem, baseDir: Path, lists: seq<seq<string>>, root: Path): (r: Option<Path>)
    ensures r.Some? ==> r.value in fs.entries && Inside(root, r.value)
  {
    if lists == [] then None
    else
      var resolved := ResolveSegmentsToPath(fs, baseDir, lists[0]);
      if resolved.Some? && Inside(root, resolved.value) then resolved
      else FirstInsideRoot(fs, baseDir, lists[1..], root)
  }

  /** Trying one list: its file if that lies under the root, otherwise nothing. */
  lemma FirstInsideRootOne(fs: FileSystem, baseDir: Path, segments: seq<string>, root: Path)
    ensures var p := ResolveSegmentsToPath(fs, baseDir, segments);
      FirstInsideRoot(fs, baseDir, [segments], root) == if p.Some? && Inside(root, p.value) then p else None
  {
    assert [segments][1..] == [];
  }

  /** Trying two lists: the first's file if it lies under the root, otherwise the outcome of trying the second. */
  lemma FirstInsideRootTwo(fs: FileSystem, baseDir: Path, first: seq<string>, second: seq<string>, root: Path)
    ensures var p := ResolveSegmentsToPath(fs, baseDir, first);
      FirstInsideRoot(fs, baseDir, [first, second], root)
        == if p.Some? && Inside(root, p.value) then p else FirstInsideRoot(fs, baseDir, [second], root)
  {
    assert [first, second][1..] == [second];
  }

  /** `_resolve_use_entry`: a `use` path's file, if it has one under the project root. */
  function ResolveUseEntry(fs: FileSystem, entry: UseEntry, currentFile: Path, root: Path): (r: Option<Path>)
    ensures r.Some? ==> r.value in fs.entries && Inside(root, r.value)
    ensures DeriveBase(entry.segments, currentFile, root).1 == [] ==> r.None?
  {
    var derived := DeriveBase(entry.segments, currentFile, root);
    if derived.1 == [] then None
    else FirstInsideRoot(fs, derived.0, CandidateSegmentLists(derived.1, entry.isGlob), root)
  }

  /** A path that resolves inside the root as written is taken as it is; its parent module is never tried. */
  lemma FullPathFirst(fs: FileSystem, entry: UseEntry, currentFile: Path, root: Path)
    requires var d := DeriveBase(entry.segments, currentFile, root);
      var p := ResolveSegmentsToPath(fs, d.0, d.1);
      p.Some? && Inside(root, p.value)
    ensures var d := DeriveBase(entry.segments, currentFile, root);
      ResolveUseEntry(fs, entry, currentFile, root) == ResolveSegmentsToPath(fs, d.0, d.1)
  {
  }

  /** A glob import only tries its own path: there is no parent-module fallback. */
  lemma GlobHasNoFallback(fs: FileSystem, entry: UseEntry, currentFile: Path, root: Path)
    requires entry.isGlob
    ensures var d := DeriveBase(entry.segments, currentFile, root);
      var p := ResolveSegmentsToPath(fs, d.0, d.1);
      ResolveUseEntry(fs, entry, currentFile, root) == if p.Some? && Inside(root, p.value) then p else None
  {
    var d := DeriveBase(entry.segments, currentFile, root);
    if d.1 != [] {
      FirstInsideRootOne(fs, d.0, d.1, root);
    }
  }

  /**
   * A non-glob path of two or more segments whose own file is missing or
   * outside the root falls back to its parent module's file.
   */
  lemma ParentModuleFallback(fs: FileSystem, entry: UseEntry, currentFile: Path, root: Path)
    requires !entry.isGlob
    requires var d := DeriveBase(entry.segments, currentFile, root);
      var p := ResolveSegmentsToPath(fs, d.0, d.1);
      |d.1| > 1 && !(p.Some? && Inside(root, p.value))
    ensures var d := DeriveBase(entry.segments, currentFile, root);
      var q := ResolveSegmentsToPath(fs, d.0, d.1[..|d.1| - 1]);
      ResolveUseEntry(fs, entry, currentFile, root) == if q.Some? && Inside(root, q.value) then q else None
  {
    var d := DeriveBase(entry.segments, currentFile, root);
    FirstInsideRootTwo(fs, d.0, d.1, d.1[..|d.1| - 1], root);
    FirstInsideRootOne(fs, d.0, d.1[..|d.1| - 1], root);
  }

  /** A path of one segment that does not resolve inside the root gives nothing. */
  lemma SingleSegmentNoFallback(fs: FileSystem, entry: UseEntry, currentFile: Path, root: Path)
    requires var d := DeriveBase(entry.segments, currentFile, root);
      var p := ResolveSegmentsToPath(fs, d.0, d.1);
      |d.1| == 1 && !(p.Some? && Inside(root, p.value))
    ensures ResolveUseEntry(fs, entry, currentFile, root) == None
  {
    var d := DeriveBase(entry.segments, currentFile, root);
    FirstInsideRootOne(fs, d.0, d.1, root);
  }

  // ---------------------------------------------------------------------
  // Per-file dependency lists
  // ---------------------------------------------------------------------

  /** The module a declared name resolves to, when it exists and lies under the root. */
  function DeclaredModuleFile(fs: FileSystem, moduleName: string, currentFile: Path, root: Path): (r: Option<Path>)
    ensures r.Some? ==> r.value in fs.entries && Inside(root, r.value)
  {
    var resolved := ResolveModulePath(fs, moduleName, Parent(currentFile));
    if resolved.Some? && Inside(root, resolved.value) then resolved else None
  }

  /** `_resolve_declared_modules`: the files of the declared modules, in declaration order. */
  function DeclaredModules(fs: FileSystem, moduleNames: seq<string>, currentFile: Path, root: Path): (r: seq<Path>)
    ensures |r| <= |moduleNames|
    ensures forall p :: p in r ==> p in fs.entries && Inside(root, p)
  {
    if moduleNames == [] then []
    else
      var init := DeclaredModules(fs, moduleNames[..|moduleNames| - 1], currentFile, root);
      match DeclaredModuleFile(fs, moduleNames[|moduleNames| - 1], currentFile, root)
      case Some(p) => init + [p]
      case None => init
  }

  /**
   * A declared module whose flat file exists outside the root is dropped,
   * even when its `mod.rs` exists under the root: the outside file is not
   * passed over for the next candidate.
   */
  lemma OutsideModuleDropped(fs: FileSystem, moduleName: string, currentFile: Path, root: Path)
    requires fs.canonical(Parent(currentFile) + [moduleName + ".rs"]) in fs.entries
    requires !Inside(root, fs.canonical(Parent(currentFile) + [moduleName + ".rs"]))
    ensures DeclaredModules(fs, [moduleName], currentFile, root) == []
  {
    FlatFileWins(fs, moduleName, Parent(currentFile));
  }

  /** `_resolve_declared_modules` as the loop it is. */
  method ResolveDeclaredModules(fs: FileSystem, moduleNames: seq<string>, currentFile: Path, root: Path) returns (dependencies: seq<Path>)
    ensures dependencies == DeclaredModules(fs, moduleNames, currentFile, root)
  {
    dependencies := [];
    for i := 0 to |moduleNames|
      invariant dependencies == DeclaredModules(fs, moduleNames[..i], currentFile, root)
    {
      assert moduleNames[..i + 1][..i] == moduleNames[..i];
      var resolved := ResolveModulePath(fs, moduleNames[i], Parent(currentFile));
      if resolved.None? {
        continue;
      }
      if !Inside(root, resolved.value) {
        continue;
      }
      dependencies := dependencies + [resolved.value];
    }
    assert moduleNames[..|moduleNames|] == moduleNames;
  }

  /** The files the `use` entries resolve to, in order, repetitions included. */
  function ResolvedUses(fs: FileSystem, entries: seq<UseEntry>, currentFile: Path, root: Path): (r: seq<Path>)
    ensures |r| <= |entries|
    ensures forall p :: p in r ==> p in fs.entries && Inside(root, p)
  {
    if entries == [] then []
    else
      var init := ResolvedUses(fs, entries[..|entries| - 1], currentFile, root);
      match ResolveUseEntry(fs, entries[|entries| - 1], currentFile, root)
      case Some(p) => init + [p]
      case None => init
  }

  /** `_resolve_use_dependencies`: the files of the `use` entries, each once, in first-reference order. */
  function UseDependencies(fs: FileSystem, entries: seq<UseEntry>, currentFile: Path, root: Path): (r: seq<Path>)
    ensures NoDup(r)
    ensures forall p :: p in r <==> p in ResolvedUses(fs, entries, currentFile, root)
    ensures forall p :: p in r ==> p in fs.entries && Inside(root, p)
  {
    DedupSpec(ResolvedUses(fs, entries, currentFile, root));
    Dedup(ResolvedUses(fs, entries, currentFile, root))
  }

  /** One more `use` entry adds its file, when it has one, to the resolved sequence. */
  lemma ResolvedUsesStep(fs: FileSystem, entries: seq<UseEntry>, i: nat, currentFile: Path, root: Path)
    requires i < |entries|
    ensures var r := ResolveUseEntry(fs, entries[i], currentFile, root);
      var before := ResolvedUses(fs, entries[..i], currentFile, root);
      ResolvedUses(fs, entries[..i + 1], currentFile, root) == if r.Some? then before + [r.value] else before
  {
    assert entries[..i + 1][..i] == entries[..i];
  }

  /** `_resolve_use_dependencies` as the loop it is, with its `seen` set. */
  method ResolveUseDependencies(fs: FileSystem, entries: seq<UseEntry>, currentFile: Path, root: Path) returns (dependencies: seq<Path>)
    ensures dependencies == UseDependencies(fs, entries, currentFile, root)
  {
    dependencies := [];
    var seen: set<Path> := {};
    for i := 0 to |entries|
      invariant dependencies == Dedup(ResolvedUses(fs, entries[..i], currentFile, root))
      invariant forall p :: p in seen <==> p in ResolvedUses(fs, entries[..i], currentFile, root)
    {
      ghost var before := ResolvedUses(fs, entries[..i], currentFile, root);
      ResolvedUsesStep(fs, entries, i, currentFile, root);
      var resolved := ResolveUseEntry(fs, entries[i], currentFile, root);
      if resolved.None? {
        continue;
      }
      DedupSnoc(before, resolved.value);
      if resolved.value in seen {
        continue;
      }
      seen := seen + {resolved.value};
      dependencies := dependencies + [resolved.value];
    }
    assert entries[..|entries|] == entries;
  }

  /** `_format_relative_path`: the path relative to the root, or the absolute path when it is not under the root. */
  function Display(p: Path, root: Path): (r: string)
    ensures Inside(root, p) && |p| == |root| ==> r == "."
    ensures !Inside(root, p) ==> |r| >= 1 && r[0] == '/'
  {
    if Inside(root, p) then
      (if |p| == |root| then "." else Join(p[|root|..], "/"))
    else "/" + Join(p, "/")
  }
}
