/**
 * The breadth-first traversal of `include_dependencies`: from a list of
 * seed files, follow `mod` declarations and `use` paths to the project's
 * own `.rs` files, up to a depth limit, and list seeds and dependencies as
 * strings, each string once.
 */
module DependencyTraversal {
  import opened Wrappers
  import opened Seqs
  import opened RustSyntax
  import opened PathResolver

  // ---------------------------------------------------------------------
  // Dependencies of one file
  // ---------------------------------------------------------------------

  /**
   * `_find_local_module_files`: no dependencies for a file that cannot be
   * read or decoded; otherwise the declared modules' files in declaration
   * order, then the `use` targets, each once, in first-reference order.
   */
  function Deps(fs: FileSystem, currentFile: Path, root: Path): (r: seq<Path>)
    ensures currentFile !in fs.parsed ==> r == []
    ensures forall p :: p in r ==> p in fs.entries && Inside(root, p)
  {
    if currentFile !in fs.parsed then []
    else
      var tree := fs.parsed[currentFile];
      DeclaredModules(fs, ModulesOf(tree), currentFile, root) + UseDependencies(fs, UsesOf(tree), currentFile, root)
  }

  /** The modules come first, then the `use` targets, which are free of repetitions. */
  lemma DepsModulesFirst(fs: FileSystem, currentFile: Path, root: Path)
    requires currentFile in fs.parsed
    ensures var tree := fs.parsed[currentFile];
      var modules := DeclaredModules(fs, ModulesOf(tree), currentFile, root);
      var deps := Deps(fs, currentFile, root);
      |modules| <= |deps| && deps[..|modules|] == modules && NoDup(deps[|modules|..])
  {
    var tree := fs.parsed[currentFile];
    var modules := DeclaredModules(fs, ModulesOf(tree), currentFile, root);
    var uses := UseDependencies(fs, UsesOf(tree), currentFile, root);
    assert (modules + uses)[..|modules|] == modules;
    assert (modules + uses)[|modules|..] == uses;
  }

  /** `_find_local_module_files`: extract, then resolve modules and `use` paths. */
  method FindLocalModuleFiles(fs: FileSystem, currentFile: Path, root: Path) returns (dependencies: seq<Path>)
    ensures dependencies == Deps(fs, currentFile, root)
  {
    if currentFile !in fs.parsed {
      return [];
    }
    var tree := fs.parsed[currentFile];
    var declaredModules := ExtractModuleNames(tree);
    var useEntries := ExtractUseEntries(tree);
    var modules := ResolveDeclaredModules(fs, declaredModules, currentFile, root);
    var uses := ResolveUseDependencies(fs, useEntries, currentFile, root);
    dependencies := [];
    dependencies := dependencies + modules;
    assert dependencies == modules;
    dependencies := dependencies + uses;
  }

  // ---------------------------------------------------------------------
  // Seed paths
  // ---------------------------------------------------------------------

  /** Python's `s.split(sep)`: the pieces between separators, at least one. */
  function Split(s: string, sep: char): (r: seq<string>)
    ensures |r| >= 1
    ensures forall i :: 0 <= i < |r| ==> sep !in r[i]
  {
    if s == [] then [""]
    else
      var rest := Split(s[1..], sep);
      if s[0] == sep then [""] + rest
      else [[s[0]] + rest[0]] + rest[1..]
  }

  /** Splitting and joining again with the same separator gives back the string. */
  lemma {:induction false} SplitJoin(s: string, sep: char)
    ensures Join(Split(s, sep), [sep]) == s
  {
    if s != [] {
      var rest := Split(s[1..], sep);
      SplitJoin(s[1..], sep);
      if s[0] == sep {
        assert ([""] + rest)[1..] == rest;
      } else {
        var r := [[s[0]] + rest[0]] + rest[1..];
        assert r[1..] == rest[1..];
        if |rest| == 1 {
          assert rest[0] == s[1..];
        } else {
          assert rest[1..] != [];
          assert Join(rest, [sep]) == rest[0] + [sep] + Join(rest[1..], [sep]);
          assert s == [s[0]] + s[1..];
        }
      }
    }
  }

  /** The path segments pure path joining keeps from a relative or absolute entry: empty and `.` parts vanish. */
  function Segments(parts: seq<string>): (r: seq<string>)
    ensures forall i :: 0 <= i < |r| ==> r[i] in parts && r[i] != "" && r[i] != "."
  {
    if parts == [] then []
    else
      var init := Segments(parts[..|parts| - 1]);
      var last := parts[|parts| - 1];
      if last == "" || last == "." then init else init + [last]
  }

  /** `target_root / entry`: an absolute entry replaces the root, a relative one extends it. */
  function JoinEntry(root: Path, entry: string): (r: Path)
    ensures forall i :: 0 <= i < |r| ==> '/' !in r[i] || (i < |root| && r[i] == root[i])
  {
    var parts := Segments(Split(entry, '/'));
    if |entry| > 0 && entry[0] == '/' then parts else root + parts
  }

  /** A piece without the separator splits to itself. */
  lemma {:induction false} SplitPlain(a: string, sep: char)
    requires sep !in a
    ensures Split(a, sep) == [a]
  {
    if a != [] {
      SplitPlain(a[1..], sep);
      assert [a[0]] + a[1..] == a;
    }
  }

  /** A piece without the separator, followed by the separator, splits off as the first piece. */
  lemma {:induction false} SplitAfter(a: string, sep: char, t: string)
    requires sep !in a
    ensures Split(a + [sep] + t, sep) == [a] + Split(t, sep)
  {
    var s := a + [sep] + t;
    if a == [] {
      assert s[1..] == t;
    } else {
      assert s[1..] == a[1..] + [sep] + t;
      SplitAfter(a[1..], sep, t);
      assert [a[0]] + a[1..] == a;
    }
  }

  /** Joining pieces without the separator and splitting again gives the pieces back. */
  lemma {:induction false} SplitOfJoin(parts: seq<string>, sep: char)
    requires parts != [] && forall i :: 0 <= i < |parts| ==> sep !in parts[i]
    ensures Split(Join(parts, [sep]), sep) == parts
  {
    if |parts| == 1 {
      SplitPlain(parts[0], sep);
    } else {
      SplitOfJoin(parts[1..], sep);
      SplitAfter(parts[0], sep, Join(parts[1..], [sep]));
      assert [parts[0]] + parts[1..] == parts;
    }
  }

  /** Plain names pass through `Segments` unchanged. */
  lemma {:induction false} SegmentsKeep(parts: seq<string>)
    requires forall i :: 0 <= i < |parts| ==> parts[i] != "" && parts[i] != "."
    ensures Segments(parts) == parts
  {
    if parts != [] {
      SegmentsKeep(parts[..|parts| - 1]);
    }
  }

  /** The empty piece an absolute entry starts with vanishes. */
  lemma {:induction false} SegmentsSkipEmpty(parts: seq<string>)
    ensures Segments([""] + parts) == Segments(parts)
  {
    if parts != [] {
      var init := parts[..|parts| - 1];
      SegmentsSkipEmpty(init);
      assert ([""] + parts)[..|parts|] == [""] + init;
    } else {
      assert [""][..0] == [];
    }
  }

  /** Plain names joined with `/` extend the root when joined onto it. */
  lemma JoinRelative(root: Path, rest: seq<string>)
    requires rest != [] && forall i :: 0 <= i < |rest| ==> rest[i] != "" && rest[i] != "." && '/' !in rest[i]
    ensures JoinEntry(root, Join(rest, "/")) == root + rest
  {
    assert "/" == ['/'];
    SplitOfJoin(rest, '/');
    SegmentsKeep(rest);
    JoinHead(rest, "/");
    assert Join(rest, "/")[0] == rest[0][0];
  }

  /** Plain names joined with `/` after a leading `/` replace the root when joined onto it. */
  lemma JoinAbsolute(root: Path, p: seq<string>)
    requires forall i :: 0 <= i < |p| ==> p[i] != "" && p[i] != "." && '/' !in p[i]
    ensures JoinEntry(root, "/" + Join(p, "/")) == p
  {
    var d := "/" + Join(p, "/");
    assert d[1..] == Join(p, "/");
    if p == [] {
      assert Split(d, '/') == [""] + Split("", '/');
      assert Segments(["", ""]) == Segments([""] + [""]);
      SegmentsSkipEmpty([""]);
    } else {
      assert "/" == ['/'];
      SplitOfJoin(p, '/');
      SegmentsKeep(p);
      SegmentsSkipEmpty(p);
    }
  }

  /**
   * A dependency's display string joined back onto the root, as the seed
   * loop joins a seed string, names the same path again when its segments
   * are plain names: a relative display extends the root, `.` is the root
   * itself, and an absolute display replaces the root.
   */
  lemma DisplayRoundTrip(p: Path, root: Path)
    requires forall i :: 0 <= i < |p| ==> p[i] != "" && p[i] != "." && '/' !in p[i]
    ensures JoinEntry(root, Display(p, root)) == p
  {
    if Inside(root, p) {
      if |p| == |root| {
        SplitPlain(".", '/');
        assert Segments(["."]) == Segments([]);
        assert p == root;
      } else {
        var rest := p[|root|..];
        forall i | 0 <= i < |rest| ensures rest[i] != "" && rest[i] != "." && '/' !in rest[i] {
          assert rest[i] == p[|root| + i];
        }
        JoinRelative(root, rest);
        assert p == root + rest;
      }
    } else {
      JoinAbsolute(root, p);
    }
  }

  /** `(target_root / entry).resolve()`. */
  function SeedPath(fs: FileSystem, root: Path, entry: string): Path
  {
    fs.canonical(JoinEntry(root, entry))
  }

  // ---------------------------------------------------------------------
  // Reachability
  // ---------------------------------------------------------------------

  /** The seeds that exist, as canonical paths. */
  function ExistingSeeds(fs: FileSystem, seeds: seq<string>, root: Path): (r: set<Path>)
    ensures r <= fs.entries
  {
    set s | s in seeds && SeedPath(fs, root, s) in fs.entries :: SeedPath(fs, root, s)
  }

  /** The existing seeds' canonical paths in the order the seed loop queues them: input order, each once. */
  function SeedOrder(fs: FileSystem, seeds: seq<string>, root: Path): (r: seq<Path>)
    ensures NoDup(r)
    ensures forall p :: p in r <==> p in ExistingSeeds(fs, seeds, root)
  {
    if seeds == [] then []
    else
      var earlier := SeedOrder(fs, seeds[..|seeds| - 1], root);
      var p := SeedPath(fs, root, seeds[|seeds| - 1]);
      assert seeds[..|seeds|] == seeds;
      ExistingSeedsStep(fs, seeds, root, |seeds| - 1);
      if p in fs.entries && p !in earlier then earlier + [p] else earlier
  }

  /** Which files each file depends on. */
  type Graph = Path -> seq<Path>

  /** The dependencies `_find_local_module_files` finds, as a graph over paths. */
  function DepGraph(fs: FileSystem, root: Path): Graph
  {
    p => Deps(fs, p, root)
  }

  /** The files reachable from `start` in at most `d` steps. */
  function Reach(start: set<Path>, graph: Graph, d: nat): set<Path>
  {
    if d == 0 then start
    else
      var before := Reach(start, graph, d - 1);
      before + set f, p | f in before && p in graph(f) :: p
  }

  /** Reachable files exist, and those past the existing seeds lie under the root. */
  lemma {:induction false} ReachExists(fs: FileSystem, seeds: seq<string>, root: Path, d: nat)
    ensures Reach(ExistingSeeds(fs, seeds, root), DepGraph(fs, root), d) <= fs.entries
    ensures forall p :: p in Reach(ExistingSeeds(fs, seeds, root), DepGraph(fs, root), d) ==>
      p in ExistingSeeds(fs, seeds, root) || Inside(root, p)
  {
    if d > 0 {
      ReachExists(fs, seeds, root, d - 1);
    }
  }

  /** More steps reach at least as much. */
  lemma {:induction false} ReachGrows(start: set<Path>, graph: Graph, d: nat, e: nat)
    requires d <= e
    ensures Reach(start, graph, d) <= Reach(start, graph, e)
    decreases e - d
  {
    if d < e {
      ReachGrows(start, graph, d + 1, e);
    }
  }

  /** A dependency of a file reached in `d` steps is reached in `d + 1`. */
  lemma ReachStep(start: set<Path>, graph: Graph, d: nat, f: Path, p: Path)
    requires f in Reach(start, graph, d) && p in graph(f)
    ensures p in Reach(start, graph, d + 1)
  {
  }

  /** The files a traversal with limit `limit` expands: none when the limit is 0. */
  function Expanded(start: set<Path>, graph: Graph, limit: nat): set<Path>
  {
    if limit == 0 then {} else Reach(start, graph, limit - 1)
  }

  /** The strings of the dependencies of a set of files. */
  function DisplaysOf(files: set<Path>, graph: Graph, root: Path): set<string>
  {
    set f, p | f in files && p in graph(f) :: Display(p, root)
  }

  /** The depth limit after `include_dependencies` clamps a limit below 1 to 0. */
  function Limit(maxDepth: int): (r: nat)
    ensures maxDepth < 1 ==> r == 0
    ensures maxDepth >= 1 ==> r == maxDepth
  {
    if maxDepth < 1 then 0 else maxDepth
  }

  // ---------------------------------------------------------------------
  // The strings the traversal lists
  // ---------------------------------------------------------------------

  /** `_format_relative_path` of each path, in order. */
  function Displays(paths: seq<Path>, root: Path): (r: seq<string>)
    ensures |r| == |paths| && forall i :: 0 <= i < |paths| ==> r[i] == Display(paths[i], root)
  {
    if paths == [] then [] else Displays(paths[..|paths| - 1], root) + [Display(paths[|paths| - 1], root)]
  }

  /** The strings offered, in order, while expanding the items of `items` that are below the limit. */
  function Offered(graph: Graph, root: Path, limit: nat, items: seq<(Path, nat)>): seq<string>
  {
    if items == [] then []
    else
      var last := items[|items| - 1];
      Offered(graph, root, limit, items[..|items| - 1])
        + if last.1 < limit then Displays(graph(last.0), root) else []
  }

  /** The paths of the items below the limit. */
  function BelowLimit(limit: nat, items: seq<(Path, nat)>): set<Path>
  {
    set i | 0 <= i < |items| && items[i].1 < limit :: items[i].0
  }

  /** One more item adds its path to the paths below the limit exactly when its depth is below the limit. */
  lemma BelowLimitSnoc(limit: nat, items: seq<(Path, nat)>)
    requires items != []
    ensures var last := items[|items| - 1];
      BelowLimit(limit, items) == BelowLimit(limit, items[..|items| - 1]) + (if last.1 < limit then {last.0} else {})
  {
    var init := items[..|items| - 1];
    var last := items[|items| - 1];
    var below := BelowLimit(limit, items);
    forall f | f in below ensures f in BelowLimit(limit, init) || (last.1 < limit && f == last.0) {
      var i :| 0 <= i < |items| && items[i].1 < limit && items[i].0 == f;
      if i < |init| {
        assert init[i] == items[i];
      }
    }
    forall f | f in BelowLimit(limit, init) ensures f in below {
      var i :| 0 <= i < |init| && init[i].1 < limit && init[i].0 == f;
      assert items[i] == init[i];
    }
  }

  /** The strings of the dependencies of one more file are those of its dependency list. */
  lemma DisplaysOfAdd(files: set<Path>, f: Path, graph: Graph, root: Path)
    ensures forall s ::
      (s in DisplaysOf(files + {f}, graph, root)) == (s in DisplaysOf(files, graph, root) || s in Displays(graph(f), root))
  {
    forall s | s in DisplaysOf(files + {f}, graph, root) ensures s in DisplaysOf(files, graph, root) || s in Displays(graph(f), root) {
      var g, p :| g in files + {f} && p in graph(g) && s == Display(p, root);
      if g !in files {
        var j :| 0 <= j < |graph(f)| && graph(f)[j] == p;
        assert Displays(graph(f), root)[j] == s;
      }
    }
    forall s | s in Displays(graph(f), root) ensures s in DisplaysOf(files + {f}, graph, root) {
      var j :| 0 <= j < |graph(f)| && Displays(graph(f), root)[j] == s;
      assert graph(f)[j] in graph(f);
    }
  }

  /** The strings offered are exactly those of the dependencies of the items below the limit. */
  lemma {:induction false} OfferedMembers(graph: Graph, root: Path, limit: nat, items: seq<(Path, nat)>)
    ensures forall s :: s in Offered(graph, root, limit, items) <==> s in DisplaysOf(BelowLimit(limit, items), graph, root)
  {
    if items != [] {
      var init := items[..|items| - 1];
      var last := items[|items| - 1];
      OfferedMembers(graph, root, limit, init);
      BelowLimitSnoc(limit, items);
      if last.1 < limit {
        DisplaysOfAdd(BelowLimit(limit, init), last.0, graph, root);
      } else {
        assert Offered(graph, root, limit, items) == Offered(graph, root, limit, init) + [];
      }
    }
  }

  /** With limit 0 nothing is expanded, so nothing is offered. */
  lemma {:induction false} NothingOffered(graph: Graph, root: Path, items: seq<(Path, nat)>)
    ensures Offered(graph, root, 0, items) == []
  {
    if items != [] {
      NothingOffered(graph, root, items[..|items| - 1]);
    }
  }

  /** Expanding an item without dependencies offers nothing. */
  lemma OfferNothing(graph: Graph, root: Path, limit: nat, log: seq<(Path, nat)>, h: nat)
    requires h < |log| && graph(log[h].0) == []
    ensures Offered(graph, root, limit, log[..h + 1]) == Offered(graph, root, limit, log[..h])
  {
    assert log[..h + 1][..h] == log[..h];
    assert Displays([], root) == [];
  }

  // ---------------------------------------------------------------------
  // The traversal's invariants
  // ---------------------------------------------------------------------

  /**
   * The record of every `(path, depth)` ever queued: each path once, with
   * the depth `depthOf` holds for it, each path in `depthOf` queued, every
   * path existing and no depth past the limit.
   */
  ghost predicate Queued(entries: set<Path>, limit: nat, log: seq<(Path, nat)>, depthOf: map<Path, nat>)
  {
    (forall i, j :: 0 <= i < j < |log| ==> log[i].0 != log[j].0)
    && (forall i :: 0 <= i < |log| ==> log[i].0 in depthOf && depthOf[log[i].0] == log[i].1)
    && (forall p :: p in depthOf ==> exists i :: 0 <= i < |log| && log[i].0 == p)
    && depthOf.Keys <= entries
    && (forall p :: p in depthOf ==> depthOf[p] <= limit)
  }

  /** Every path queued at depth `d` is reachable in `d` steps. */
  ghost predicate Sound(start: set<Path>, graph: Graph, depthOf: map<Path, nat>)
  {
    forall p :: p in depthOf ==> p in Reach(start, graph, depthOf[p])
  }

  /**
   * First in, first out: the queued items have depths in nondecreasing
   * order, none past `level + 1`, and those still waiting (from `h` on)
   * none below `level`; no path has been given a depth past `level + 1`.
   */
  ghost predicate Fifo(log: seq<(Path, nat)>, h: nat, depthOf: map<Path, nat>, level: nat)
  {
    h <= |log|
    && (forall i :: h <= i < |log| ==> level <= log[i].1)
    && (forall i :: 0 <= i < |log| ==> log[i].1 <= level + 1)
    && (forall i, j :: 0 <= i < j < |log| ==> log[i].1 <= log[j].1)
    && (forall p :: p in depthOf ==> depthOf[p] <= level + 1)
  }

  /** The first `done` queued items are finished: when below the limit, their dependencies are all queued, at most one level deeper. */
  ghost predicate Closed(graph: Graph, limit: nat, log: seq<(Path, nat)>, done: nat, depthOf: map<Path, nat>)
  {
    done <= |log|
    && forall i :: 0 <= i < done && log[i].1 < limit ==>
         forall p :: p in graph(log[i].0) ==> p in depthOf && depthOf[p] <= log[i].1 + 1
  }

  /** Every path of `start` is queued at depth 0. */
  ghost predicate StartQueued(start: set<Path>, depthOf: map<Path, nat>)
  {
    forall p :: p in start ==> p in depthOf && depthOf[p] == 0
  }

  /** All the invariants of the queued record at once, while the item `log[h - 1]` or the queue from `h` on is being worked on. */
  ghost predicate Frontier(entries: set<Path>, start: set<Path>, graph: Graph, limit: nat,
                           log: seq<(Path, nat)>, h: nat, done: nat, depthOf: map<Path, nat>, level: nat)
  {
    Queued(entries, limit, log, depthOf) && Sound(start, graph, depthOf) && Fifo(log, h, depthOf, level)
    && Closed(graph, limit, log, done, depthOf) && StartQueued(start, depthOf)
  }

  /** `log'` and `depthOf'` only add to `log` and `depthOf`. */
  ghost predicate Extends(log: seq<(Path, nat)>, depthOf: map<Path, nat>, log': seq<(Path, nat)>, depthOf': map<Path, nat>)
  {
    |log| <= |log'| && log'[..|log|] == log
    && forall p :: p in depthOf ==> p in depthOf' && depthOf'[p] == depthOf[p]
  }

  /** With every item finished, every file reachable in `d <= limit` steps is queued at depth `d` or less. */
  lemma {:induction false} ReachQueued(entries: set<Path>, start: set<Path>, graph: Graph, limit: nat, log: seq<(Path, nat)>, depthOf: map<Path, nat>, d: nat)
    requires Queued(entries, limit, log, depthOf) && Closed(graph, limit, log, |log|, depthOf)
    requires StartQueued(start, depthOf)
    requires d <= limit
    ensures forall p :: p in Reach(start, graph, d) ==> p in depthOf && depthOf[p] <= d
  {
    if d > 0 {
      ReachQueued(entries, start, graph, limit, log, depthOf, d - 1);
      var before := Reach(start, graph, d - 1);
      forall p | p in Reach(start, graph, d) ensures p in depthOf && depthOf[p] <= d {
        if p !in before {
          var f :| f in before && p in graph(f);
          var i :| 0 <= i < |log| && log[i].0 == f;
          assert log[i].1 < limit;
        }
      }
    }
  }

  /** At the end of the traversal the queued paths are exactly the files reachable within the limit. */
  lemma QueuedIsReach(entries: set<Path>, start: set<Path>, graph: Graph, limit: nat, log: seq<(Path, nat)>, depthOf: map<Path, nat>)
    requires Queued(entries, limit, log, depthOf) && Sound(start, graph, depthOf)
    requires Closed(graph, limit, log, |log|, depthOf) && StartQueued(start, depthOf)
    ensures depthOf.Keys == Reach(start, graph, limit)
  {
    ReachQueued(entries, start, graph, limit, log, depthOf, limit);
    forall p | p in depthOf ensures p in Reach(start, graph, limit) {
      ReachGrows(start, graph, depthOf[p], limit);
    }
  }

  /** Every item expanded is reachable in fewer steps than the limit. */
  lemma BelowLimitReached(entries: set<Path>, start: set<Path>, graph: Graph, limit: nat, log: seq<(Path, nat)>, depthOf: map<Path, nat>)
    requires Queued(entries, limit, log, depthOf) && Sound(start, graph, depthOf)
    ensures BelowLimit(limit, log) <= Expanded(start, graph, limit)
  {
    forall f | f in BelowLimit(limit, log) ensures f in Expanded(start, graph, limit) {
      var i :| 0 <= i < |log| && log[i].1 < limit && log[i].0 == f;
      ReachGrows(start, graph, depthOf[f], limit - 1);
    }
  }

  /** At the end of the traversal the items expanded are exactly the files reachable in fewer steps than the limit. */
  lemma BelowLimitIsExpanded(entries: set<Path>, start: set<Path>, graph: Graph, limit: nat, log: seq<(Path, nat)>, depthOf: map<Path, nat>)
    requires Queued(entries, limit, log, depthOf) && Sound(start, graph, depthOf)
    requires Closed(graph, limit, log, |log|, depthOf) && StartQueued(start, depthOf)
    ensures BelowLimit(limit, log) == Expanded(start, graph, limit)
  {
    BelowLimitReached(entries, start, graph, limit, log, depthOf);
    ExpandedBelowLimit(entries, start, graph, limit, log, depthOf);
  }

  /** With every item finished, every file reachable in fewer steps than the limit was expanded. */
  lemma ExpandedBelowLimit(entries: set<Path>, start: set<Path>, graph: Graph, limit: nat, log: seq<(Path, nat)>, depthOf: map<Path, nat>)
    requires Queued(entries, limit, log, depthOf)
    requires Closed(graph, limit, log, |log|, depthOf) && StartQueued(start, depthOf)
    ensures Expanded(start, graph, limit) <= BelowLimit(limit, log)
  {
    if limit > 0 {
      ReachQueued(entries, start, graph, limit, log, depthOf, limit - 1);
      forall f | f in Reach(start, graph, limit - 1) ensures f in BelowLimit(limit, log) {
        assert f in depthOf && depthOf[f] < limit;
        var i :| 0 <= i < |log| && log[i].0 == f;
        assert log[i].1 < limit;
      }
    }
  }

  // ---------------------------------------------------------------------
  // One step of the traversal at a time
  // ---------------------------------------------------------------------

  /** One more seed entry adds its canonical path when that exists. */
  lemma ExistingSeedsStep(fs: FileSystem, seeds: seq<string>, root: Path, i: nat)
    requires i < |seeds|
    ensures var p := SeedPath(fs, root, seeds[i]);
      ExistingSeeds(fs, seeds[..i + 1], root)
        == ExistingSeeds(fs, seeds[..i], root) + if p in fs.entries then {p} else {}
  {
    assert seeds[..i + 1] == seeds[..i] + [seeds[i]];
  }

  /** Queuing a path not queued before keeps the record of queued items consistent. */
  lemma QueueKeepsRecord(entries: set<Path>, limit: nat, log: seq<(Path, nat)>, depthOf: map<Path, nat>, dep: Path, depth: nat)
    requires Queued(entries, limit, log, depthOf)
    requires dep in entries && dep !in depthOf && depth <= limit
    ensures Queued(entries, limit, log + [(dep, depth)], depthOf[dep := depth])
  {
    var log' := log + [(dep, depth)];
    var depthOf' := depthOf[dep := depth];
    forall p | p in depthOf' ensures exists i :: 0 <= i < |log'| && log'[i].0 == p {
      if p == dep {
        assert log'[|log|].0 == p;
      } else {
        var i :| 0 <= i < |log| && log[i].0 == p;
        assert log'[i].0 == p;
      }
    }
    forall i | 0 <= i < |log'| ensures log'[i].0 in depthOf' && depthOf'[log'[i].0] == log'[i].1 {
      if i < |log| {
        assert log'[i] == log[i];
      }
    }
  }

  /** A new dependency of a file reached in `depth` steps is reached in `depth + 1`. */
  lemma QueueKeepsSound(start: set<Path>, graph: Graph, depthOf: map<Path, nat>, depth: nat, current: Path, dep: Path)
    requires Sound(start, graph, depthOf) && StartQueued(start, depthOf)
    requires current in depthOf && depthOf[current] == depth
    requires dep in graph(current) && dep !in depthOf
    ensures Sound(start, graph, depthOf[dep := depth + 1])
    ensures StartQueued(start, depthOf[dep := depth + 1])
  {
    ReachStep(start, graph, depth, current, dep);
  }

  /** Queuing at one level past the current one keeps the queue in first-in, first-out order. */
  lemma QueueKeepsFifo(log: seq<(Path, nat)>, h: nat, depthOf: map<Path, nat>, level: nat, dep: Path)
    requires Fifo(log, h, depthOf, level)
    ensures Fifo(log + [(dep, level + 1)], h, depthOf[dep := level + 1], level)
  {
    var log' := log + [(dep, level + 1)];
    forall i | 0 <= i < |log'| ensures log'[i].1 <= level + 1 && (h <= i ==> level <= log'[i].1) {
      if i < |log| {
        assert log'[i] == log[i];
      }
    }
    forall i, j | 0 <= i < j < |log'| ensures log'[i].1 <= log'[j].1 {
      assert log'[i] == log[i];
      if j < |log| {
        assert log'[j] == log[j];
      }
    }
  }

  /** Taking the next item from the queue moves the current level up to that item's depth. */
  lemma FifoAdvance(log: seq<(Path, nat)>, h: nat, depthOf: map<Path, nat>, level: nat)
    requires Fifo(log, h, depthOf, level) && h < |log|
    ensures level <= log[h].1 <= level + 1
    ensures Fifo(log, h + 1, depthOf, log[h].1)
  {
  }

  /** A longer log with the same depths for the old paths keeps a finished prefix finished. */
  lemma ClosedLonger(graph: Graph, limit: nat, log: seq<(Path, nat)>, log': seq<(Path, nat)>,
                     depthOf: map<Path, nat>, depthOf': map<Path, nat>, done: nat)
    requires Closed(graph, limit, log, done, depthOf)
    requires |log| <= |log'| && log'[..|log|] == log
    requires forall p :: p in depthOf ==> p in depthOf' && depthOf'[p] == depthOf[p]
    ensures Closed(graph, limit, log', done, depthOf')
  {
    forall i | 0 <= i < done && log'[i].1 < limit
      ensures forall p :: p in graph(log'[i].0) ==> p in depthOf' && depthOf'[p] <= log'[i].1 + 1
    {
      assert log'[i] == log[i];
    }
  }

  /** Queuing a new dependency of the item being expanded keeps every invariant of the queued record. */
  lemma QueueKeepsInvariants(entries: set<Path>, start: set<Path>, graph: Graph, limit: nat,
                             log: seq<(Path, nat)>, depthOf: map<Path, nat>, h: nat,
                             current: Path, depth: nat, dep: Path)
    requires 0 < h <= |log| && log[h - 1] == (current, depth) && depth < limit
    requires dep in graph(current) && dep in entries && dep !in depthOf
    requires Frontier(entries, start, graph, limit, log, h, h - 1, depthOf, depth)
    ensures Frontier(entries, start, graph, limit, log + [(dep, depth + 1)], h, h - 1, depthOf[dep := depth + 1], depth)
    ensures Extends(log, depthOf, log + [(dep, depth + 1)], depthOf[dep := depth + 1])
  {
    QueueKeepsSound(start, graph, depthOf, depth, current, dep);
    QueueKeepsRecord(entries, limit, log, depthOf, dep, depth + 1);
    ClosedLonger(graph, limit, log, log + [(dep, depth + 1)], depthOf, depthOf[dep := depth + 1], h - 1);
    QueueKeepsFifo(log, h, depthOf, depth, dep);
  }


  /** Taking an item at the limit or past it finishes that item and offers nothing. */
  lemma SkipItem(graph: Graph, root: Path, limit: nat, log: seq<(Path, nat)>, depthOf: map<Path, nat>, h: nat)
    requires h < |log| && log[h].1 >= limit
    requires Closed(graph, limit, log, h, depthOf)
    ensures Closed(graph, limit, log, h + 1, depthOf)
    ensures Offered(graph, root, limit, log[..h + 1]) == Offered(graph, root, limit, log[..h])
  {
    assert log[..h + 1][..h] == log[..h];
  }

  /** Once all of an item's dependencies are queued, the item is finished. */
  lemma FinishItem(graph: Graph, limit: nat, log: seq<(Path, nat)>, depthOf: map<Path, nat>, h: nat)
    requires h < |log| && Closed(graph, limit, log, h, depthOf)
    requires QueuedWithin(graph(log[h].0), depthOf, log[h].1 + 1)
    ensures Closed(graph, limit, log, h + 1, depthOf)
  {
    var deps := graph(log[h].0);
    forall p | p in deps ensures p in depthOf && depthOf[p] <= log[h].1 + 1 {
      var j :| 0 <= j < |deps| && deps[j] == p;
    }
  }

  /** Expanding an item below the limit offers the strings of its dependencies, in order. */
  lemma OfferItem(graph: Graph, root: Path, limit: nat, log: seq<(Path, nat)>, h: nat)
    requires h < |log| && log[h].1 < limit
    ensures Offered(graph, root, limit, log[..h + 1])
      == Offered(graph, root, limit, log[..h]) + Displays(graph(log[h].0), root)
  {
    assert log[..h + 1][..h] == log[..h];
  }

  // ---------------------------------------------------------------------
  // The traversal
  // ---------------------------------------------------------------------

  /**
   * `_add_file_string`: append a string unless it is already listed. The
   * list stays the deduplication of every string offered so far.
   */
  method AddFileString(orderedFiles: seq<string>, seenStrings: set<string>, pathStr: string, ghost offered: seq<string>)
    returns (orderedFiles': seq<string>, seenStrings': set<string>)
    requires orderedFiles == Dedup(offered)
    requires forall s :: s in seenStrings <==> s in orderedFiles
    ensures orderedFiles' == Dedup(offered + [pathStr])
    ensures forall s :: s in seenStrings' <==> s in orderedFiles'
  {
    DedupSpec(offered);
    DedupSnoc(offered, pathStr);
    orderedFiles', seenStrings' := orderedFiles, seenStrings;
    if pathStr !in seenStrings {
      orderedFiles' := orderedFiles + [pathStr];
      seenStrings' := seenStrings + {pathStr};
    }
  }

  /** The rest of one turn of the seed loop: an existing seed path not queued yet is queued at depth 0. */
  method QueueSeed(fs: FileSystem, targetRoot: Path, depthLimit: nat, entry: string,
                   traversed: set<Path>, queue: seq<(Path, nat)>, ghost depthOf: map<Path, nat>, ghost log: seq<(Path, nat)>)
    returns (traversed': set<Path>, queue': seq<(Path, nat)>, ghost depthOf': map<Path, nat>, ghost log': seq<(Path, nat)>)
    requires traversed == depthOf.Keys && queue == log
    requires forall j :: 0 <= j < |log| ==> log[j].1 == 0
    requires Queued(fs.entries, depthLimit, log, depthOf)
    ensures var p := SeedPath(fs, targetRoot, entry);
      traversed' == depthOf'.Keys == traversed + if p in fs.entries then {p} else {}
    ensures var p := SeedPath(fs, targetRoot, entry);
      queue' == if p in fs.entries && p !in traversed then queue + [(p, 0)] else queue
    ensures queue' == log'
    ensures forall j :: 0 <= j < |log'| ==> log'[j].1 == 0
    ensures Queued(fs.entries, depthLimit, log', depthOf')
  {
    traversed', queue', depthOf', log' := traversed, queue, depthOf, log;
    var resolvedEntry := SeedPath(fs, targetRoot, entry);
    if resolvedEntry !in fs.entries {
      return;
    }
    if resolvedEntry in traversed {
      return;
    }
    QueueKeepsRecord(fs.entries, depthLimit, log, depthOf, resolvedEntry, 0);
    var item: (Path, nat) := (resolvedEntry, 0);
    traversed' := traversed + {resolvedEntry};
    depthOf' := depthOf[resolvedEntry := 0];
    queue' := queue + [item];
    log' := log + [item];
  }

  /** The queue after one more turn of the seed loop holds the seed order of one more entry. */
  lemma SeedQueueStep(fs: FileSystem, seeds: seq<string>, root: Path, i: nat, queue: seq<(Path, nat)>, queue': seq<(Path, nat)>)
    requires i < |seeds| && queue == Items(SeedOrder(fs, seeds[..i], root), 0)
    requires var p := SeedPath(fs, root, seeds[i]);
      queue' == if p in fs.entries && p !in ExistingSeeds(fs, seeds[..i], root) then queue + [(p, 0)] else queue
    ensures queue' == Items(SeedOrder(fs, seeds[..i + 1], root), 0)
  {
    SeedOrderStep(fs, seeds, root, i);
    ItemsSnoc(SeedOrder(fs, seeds[..i], root), SeedPath(fs, root, seeds[i]), 0);
  }

  /** One more seed entry queues its canonical path when that exists and is not queued yet. */
  lemma SeedOrderStep(fs: FileSystem, seeds: seq<string>, root: Path, i: nat)
    requires i < |seeds|
    ensures var p := SeedPath(fs, root, seeds[i]);
      var earlier := SeedOrder(fs, seeds[..i], root);
      SeedOrder(fs, seeds[..i + 1], root) == if p in fs.entries && p !in earlier then earlier + [p] else earlier
  {
    assert seeds[..i + 1][..i] == seeds[..i];
  }

  /**
   * The seed loop of `include_dependencies`: every seed string is listed
   * once, in order, and every existing seed's canonical path is queued
   * once at depth 0.
   */
  method QueueSeeds(fs: FileSystem, sourceFiles: seq<string>, targetRoot: Path, depthLimit: nat)
    returns (orderedFiles: seq<string>, seenStrings: set<string>, traversed: set<Path>, queue: seq<(Path, nat)>,
             ghost depthOf: map<Path, nat>, ghost log: seq<(Path, nat)>)
    ensures orderedFiles == Dedup(sourceFiles)
    ensures forall s :: s in seenStrings <==> s in orderedFiles
    ensures traversed == depthOf.Keys == ExistingSeeds(fs, sourceFiles, targetRoot)
    ensures queue == Items(SeedOrder(fs, sourceFiles, targetRoot), 0)
    ensures queue == log
    ensures forall j :: 0 <= j < |log| ==> log[j].1 == 0
    ensures Queued(fs.entries, depthLimit, log, depthOf)
  {
    orderedFiles, seenStrings, traversed, queue := [], {}, {}, [];
    depthOf, log := map[], [];
    for i := 0 to |sourceFiles|
      invariant orderedFiles == Dedup(sourceFiles[..i])
      invariant forall s :: s in seenStrings <==> s in orderedFiles
      invariant traversed == depthOf.Keys == ExistingSeeds(fs, sourceFiles[..i], targetRoot)
      invariant queue == Items(SeedOrder(fs, sourceFiles[..i], targetRoot), 0)
      invariant queue == log
      invariant forall j :: 0 <= j < |log| ==> log[j].1 == 0
      invariant Queued(fs.entries, depthLimit, log, depthOf)
    {
      orderedFiles, seenStrings := ListSeed(sourceFiles, i, orderedFiles, seenStrings);
      traversed, queue, depthOf, log := SeedTurn(fs, sourceFiles, i, targetRoot, depthLimit, traversed, queue, depthOf, log);
    }
    assert sourceFiles[..|sourceFiles|] == sourceFiles;
  }

  /** The seed loop lists `sourceFiles[i]` unless it is listed already. */
  method ListSeed(sourceFiles: seq<string>, i: nat, orderedFiles: seq<string>, seenStrings: set<string>)
    returns (orderedFiles': seq<string>, seenStrings': set<string>)
    requires i < |sourceFiles|
    requires orderedFiles == Dedup(sourceFiles[..i])
    requires forall s :: s in seenStrings <==> s in orderedFiles
    ensures orderedFiles' == Dedup(sourceFiles[..i + 1])
    ensures forall s :: s in seenStrings' <==> s in orderedFiles'
  {
    assert sourceFiles[..i + 1] == sourceFiles[..i] + [sourceFiles[i]];
    orderedFiles', seenStrings' := AddFileString(orderedFiles, seenStrings, sourceFiles[i], sourceFiles[..i]);
  }

  /** The seed loop queues the canonical path of `sourceFiles[i]` when it exists and is not queued yet. */
  method SeedTurn(fs: FileSystem, sourceFiles: seq<string>, i: nat, targetRoot: Path, depthLimit: nat,
                  traversed: set<Path>, queue: seq<(Path, nat)>, ghost depthOf: map<Path, nat>, ghost log: seq<(Path, nat)>)
    returns (traversed': set<Path>, queue': seq<(Path, nat)>, ghost depthOf': map<Path, nat>, ghost log': seq<(Path, nat)>)
    requires i < |sourceFiles|
    requires traversed == depthOf.Keys == ExistingSeeds(fs, sourceFiles[..i], targetRoot)
    requires queue == Items(SeedOrder(fs, sourceFiles[..i], targetRoot), 0)
    requires queue == log
    requires forall j :: 0 <= j < |log| ==> log[j].1 == 0
    requires Queued(fs.entries, depthLimit, log, depthOf)
    ensures traversed' == depthOf'.Keys == ExistingSeeds(fs, sourceFiles[..i + 1], targetRoot)
    ensures queue' == Items(SeedOrder(fs, sourceFiles[..i + 1], targetRoot), 0)
    ensures queue' == log'
    ensures forall j :: 0 <= j < |log'| ==> log'[j].1 == 0
    ensures Queued(fs.entries, depthLimit, log', depthOf')
  {
    var entry := sourceFiles[i];
    ExistingSeedsStep(fs, sourceFiles, targetRoot, i);
    traversed', queue', depthOf', log' := QueueSeed(fs, targetRoot, depthLimit, entry, traversed, queue, depthOf, log);
    SeedQueueStep(fs, sourceFiles, targetRoot, i, queue, queue');
  }

  /** Every path of `paths` is queued, at depth `bound` or less. */
  ghost predicate QueuedWithin(paths: seq<Path>, depthOf: map<Path, nat>, bound: nat)
  {
    forall j :: 0 <= j < |paths| ==> paths[j] in depthOf && depthOf[paths[j]] <= bound
  }

  /** Queuing `paths[k]` in an extended record queues one more path of `paths`. */
  lemma QueuedWithinStep(paths: seq<Path>, k: nat, depthOf: map<Path, nat>, depthOf': map<Path, nat>, bound: nat)
    requires k < |paths| && QueuedWithin(paths[..k], depthOf, bound)
    requires forall p :: p in depthOf ==> p in depthOf' && depthOf'[p] == depthOf[p]
    requires paths[k] in depthOf' && depthOf'[paths[k]] <= bound
    ensures QueuedWithin(paths[..k + 1], depthOf', bound)
  {
    var prefix := paths[..k + 1];
    forall j | 0 <= j < |prefix| ensures prefix[j] in depthOf' && depthOf'[prefix[j]] <= bound {
      if j < k {
        assert paths[..k][j] == prefix[j];
      }
    }
  }

  /** `Extends` is transitive. */
  lemma ExtendsTrans(log: seq<(Path, nat)>, depthOf: map<Path, nat>, log': seq<(Path, nat)>, depthOf': map<Path, nat>,
                     log'': seq<(Path, nat)>, depthOf'': map<Path, nat>)
    requires Extends(log, depthOf, log', depthOf') && Extends(log', depthOf', log'', depthOf'')
    ensures Extends(log, depthOf, log'', depthOf'')
  {
    assert log''[..|log|] == log''[..|log'|][..|log|];
  }

  // ---------------------------------------------------------------------
  // What expanding one item adds
  // ---------------------------------------------------------------------

  /** The paths of `paths` not in `queued`, each once, in order of first appearance. */
  function Fresh(paths: seq<Path>, queued: set<Path>): seq<Path>
  {
    if paths == [] then []
    else
      var earlier := Fresh(paths[..|paths| - 1], queued);
      var last := paths[|paths| - 1];
      if last in queued || last in earlier then earlier else earlier + [last]
  }

  /** `Fresh` keeps exactly the paths not queued, and none twice. */
  lemma {:induction false} FreshSpec(paths: seq<Path>, queued: set<Path>)
    ensures forall p :: p in Fresh(paths, queued) <==> p in paths && p !in queued
    ensures NoDup(Fresh(paths, queued))
  {
    if paths != [] {
      var init := paths[..|paths| - 1];
      FreshSpec(init, queued);
      assert paths == init + [paths[|paths| - 1]];
    }
  }

  /** Queuing the fresh paths among existing `paths` either queues nothing or leaves fewer existing paths unqueued. */
  lemma FreshLeavesLess(entries: set<Path>, paths: seq<Path>, traversed: set<Path>)
    requires forall p :: p in paths ==> p in entries
    ensures var added := Fresh(paths, traversed);
      var traversed' := traversed + set p | p in added;
      (added == [] ==> traversed' == traversed) && (added != [] ==> |entries - traversed'| < |entries - traversed|)
  {
    var added := Fresh(paths, traversed);
    FreshSpec(paths, traversed);
    if added != [] {
      assert added[0] in added;
      DiffShrinksAt(entries, traversed, traversed + (set p | p in added), added[0]);
    }
  }

  /** Extending `paths` by one path extends `Fresh` by it exactly when it is new. */
  lemma FreshStep(paths: seq<Path>, k: nat, queued: set<Path>)
    requires k < |paths|
    ensures var earlier := Fresh(paths[..k], queued);
      Fresh(paths[..k + 1], queued) == if paths[k] in queued || paths[k] in earlier then earlier else earlier + [paths[k]]
  {
    assert paths[..k + 1][..k] == paths[..k];
  }

  /** Queue items for `paths`, all at depth `d`. */
  function Items(paths: seq<Path>, d: nat): (r: seq<(Path, nat)>)
    ensures |r| == |paths| && forall i :: 0 <= i < |r| ==> r[i] == (paths[i], d)
  {
    if paths == [] then [] else Items(paths[..|paths| - 1], d) + [(paths[|paths| - 1], d)]
  }

  /** Items for one more path are one more item. */
  lemma ItemsSnoc(paths: seq<Path>, p: Path, d: nat)
    ensures Items(paths + [p], d) == Items(paths, d) + [(p, d)]
  {
    assert (paths + [p])[..|paths|] == paths;
  }

  /** The record `depthOf` with every path of `paths` given depth `d`. */
  function Assign(depthOf: map<Path, nat>, paths: seq<Path>, d: nat): map<Path, nat>
  {
    if paths == [] then depthOf else Assign(depthOf, paths[..|paths| - 1], d)[paths[|paths| - 1] := d]
  }

  /** `Assign` adds exactly the paths assigned. */
  lemma {:induction false} AssignKeys(depthOf: map<Path, nat>, paths: seq<Path>, d: nat)
    ensures Assign(depthOf, paths, d).Keys == depthOf.Keys + set p | p in paths
  {
    if paths != [] {
      var init := paths[..|paths| - 1];
      AssignKeys(depthOf, init, d);
      assert paths == init + [paths[|paths| - 1]];
    }
  }

  /**
   * After the first `k` dependencies of the item `log[h - 1]` (below the
   * limit), with `log'` and `depthOf'` the record grown from `log` and
   * `depthOf`: every invariant holds, and each of the `k` is queued at most
   * one level deeper.
   */
  ghost predicate ExpandedUpTo(entries: set<Path>, start: set<Path>, graph: Graph, limit: nat,
                               log: seq<(Path, nat)>, depthOf: map<Path, nat>, h: nat, current: Path, depth: nat, k: nat,
                               log': seq<(Path, nat)>, depthOf': map<Path, nat>)
    requires 0 < h && k <= |graph(current)|
  {
    Frontier(entries, start, graph, limit, log', h, h - 1, depthOf', depth)
    && Extends(log, depthOf, log', depthOf')
    && QueuedWithin(graph(current)[..k], depthOf', depth + 1)
  }

  /** Queuing one more new dependency keeps `ExpandedUpTo`. */
  lemma QueueNewDependency(entries: set<Path>, start: set<Path>, graph: Graph, limit: nat,
                           log: seq<(Path, nat)>, depthOf: map<Path, nat>, log1: seq<(Path, nat)>, depthOf1: map<Path, nat>,
                           h: nat, current: Path, depth: nat, k: nat)
    requires 0 < h <= |log| && log[h - 1] == (current, depth) && depth < limit
    requires k < |graph(current)| && graph(current)[k] in entries && graph(current)[k] !in depthOf1
    requires ExpandedUpTo(entries, start, graph, limit, log, depthOf, h, current, depth, k, log1, depthOf1)
    ensures var item: (Path, nat) := (graph(current)[k], depth + 1);
      ExpandedUpTo(entries, start, graph, limit, log, depthOf, h, current, depth, k + 1, log1 + [item], depthOf1[item.0 := item.1])
  {
    var dep := graph(current)[k];
    assert log1[h - 1] == log[h - 1] by { assert log1[..|log|][h - 1] == log[h - 1]; }
    QueueKeepsInvariants(entries, start, graph, limit, log1, depthOf1, h, current, depth, dep);
    ExtendsTrans(log, depthOf, log1, depthOf1, log1 + [(dep, depth + 1)], depthOf1[dep := depth + 1]);
    QueuedWithinStep(graph(current), k, depthOf1, depthOf1[dep := depth + 1], depth + 1);
  }

  /** How `Fresh`, `Items` and `Assign` grow with one more path. */
  lemma FreshGrowth(log: seq<(Path, nat)>, depthOf: map<Path, nat>, paths: seq<Path>, k: nat, d: nat)
    requires k < |paths|
    ensures var earlier := Fresh(paths[..k], depthOf.Keys);
      (paths[k] in Assign(depthOf, earlier, d) <==> paths[k] in depthOf || paths[k] in earlier)
      && (paths[k] in depthOf || paths[k] in earlier ==> Fresh(paths[..k + 1], depthOf.Keys) == earlier)
      && (paths[k] !in depthOf && paths[k] !in earlier ==>
            log + Items(Fresh(paths[..k + 1], depthOf.Keys), d) == log + Items(earlier, d) + [(paths[k], d)]
            && Assign(depthOf, Fresh(paths[..k + 1], depthOf.Keys), d) == Assign(depthOf, earlier, d)[paths[k] := d])
  {
    var earlier := Fresh(paths[..k], depthOf.Keys);
    FreshStep(paths, k, depthOf.Keys);
    AssignKeys(depthOf, earlier, d);
    var added := earlier + [paths[k]];
    assert added[..|added| - 1] == earlier;
    Regroup3(log, Items(earlier, d), [(paths[k], d)]);
  }

  /** Before any dependency is taken into account, nothing is added. */
  lemma ExpandNone(entries: set<Path>, start: set<Path>, graph: Graph, limit: nat,
                   log: seq<(Path, nat)>, depthOf: map<Path, nat>, h: nat, current: Path, depth: nat, k: nat)
    requires 0 < h <= |log| && Frontier(entries, start, graph, limit, log, h, h - 1, depthOf, depth)
    requires k == 0
    ensures var added := Fresh(graph(current)[..k], depthOf.Keys);
      ExpandedUpTo(entries, start, graph, limit, log, depthOf, h, current, depth, k,
                   log + Items(added, depth + 1), Assign(depthOf, added, depth + 1))
  {
    assert Fresh(graph(current)[..0], depthOf.Keys) == [] by { assert graph(current)[..0] == []; }
    assert log + Items([], depth + 1) == log;
    assert Assign(depthOf, [], depth + 1) == depthOf;
    assert log[..|log|] == log;
  }

  /** A dependency queued before, or earlier in the same list, adds nothing. */
  lemma ExpandQueued(entries: set<Path>, start: set<Path>, graph: Graph, limit: nat,
                     log: seq<(Path, nat)>, depthOf: map<Path, nat>, h: nat, current: Path, depth: nat, k: nat)
    requires 0 < h <= |log| && k < |graph(current)|
    requires var earlier := Fresh(graph(current)[..k], depthOf.Keys);
      ExpandedUpTo(entries, start, graph, limit, log, depthOf, h, current, depth, k,
                   log + Items(earlier, depth + 1), Assign(depthOf, earlier, depth + 1))
      && graph(current)[k] in Assign(depthOf, earlier, depth + 1)
    ensures var added := Fresh(graph(current)[..k + 1], depthOf.Keys);
      ExpandedUpTo(entries, start, graph, limit, log, depthOf, h, current, depth, k + 1,
                   log + Items(added, depth + 1), Assign(depthOf, added, depth + 1))
  {
    var deps := graph(current);
    var earlier := Fresh(deps[..k], depthOf.Keys);
    var log1 := log + Items(earlier, depth + 1);
    var depthOf1 := Assign(depthOf, earlier, depth + 1);
    FreshGrowth(log, depthOf, deps, k, depth + 1);
    assert Fifo(log1, h, depthOf1, depth);
    QueuedWithinStep(deps, k, depthOf1, depthOf1, depth + 1);
    assert Fresh(deps[..k + 1], depthOf.Keys) == earlier;
  }

  /** A dependency not queued before is queued one level deeper. */
  lemma ExpandNew(entries: set<Path>, start: set<Path>, graph: Graph, limit: nat,
                  log: seq<(Path, nat)>, depthOf: map<Path, nat>, h: nat, current: Path, depth: nat, k: nat)
    requires 0 < h <= |log| && log[h - 1] == (current, depth) && depth < limit
    requires k < |graph(current)| && graph(current)[k] in entries
    requires var earlier := Fresh(graph(current)[..k], depthOf.Keys);
      ExpandedUpTo(entries, start, graph, limit, log, depthOf, h, current, depth, k,
                   log + Items(earlier, depth + 1), Assign(depthOf, earlier, depth + 1))
      && graph(current)[k] !in Assign(depthOf, earlier, depth + 1)
    ensures var added := Fresh(graph(current)[..k + 1], depthOf.Keys);
      ExpandedUpTo(entries, start, graph, limit, log, depthOf, h, current, depth, k + 1,
                   log + Items(added, depth + 1), Assign(depthOf, added, depth + 1))
  {
    var deps := graph(current);
    var earlier := Fresh(deps[..k], depthOf.Keys);
    var log1 := log + Items(earlier, depth + 1);
    var depthOf1 := Assign(depthOf, earlier, depth + 1);
    FreshGrowth(log, depthOf, deps, k, depth + 1);
    QueueNewDependency(entries, start, graph, limit, log, depthOf, log1, depthOf1, h, current, depth, k);
    var item: (Path, nat) := (deps[k], depth + 1);
    var added := Fresh(deps[..k + 1], depthOf.Keys);
    assert log + Items(added, depth + 1) == log1 + [item];
    assert Assign(depthOf, added, depth + 1) == depthOf1[item.0 := item.1];
  }

  /** Expanding an item below the limit over its first `k` dependencies keeps every invariant. */
  lemma {:induction false} ExpandPrefix(entries: set<Path>, start: set<Path>, graph: Graph, limit: nat,
                                        log: seq<(Path, nat)>, depthOf: map<Path, nat>, h: nat,
                                        current: Path, depth: nat, k: nat)
    requires 0 < h <= |log| && log[h - 1] == (current, depth) && depth < limit
    requires k <= |graph(current)| && forall p :: p in graph(current) ==> p in entries
    requires Frontier(entries, start, graph, limit, log, h, h - 1, depthOf, depth)
    ensures var added := Fresh(graph(current)[..k], depthOf.Keys);
      ExpandedUpTo(entries, start, graph, limit, log, depthOf, h, current, depth, k,
                   log + Items(added, depth + 1), Assign(depthOf, added, depth + 1))
    decreases k, 1
  {
    if k == 0 {
      ExpandNone(entries, start, graph, limit, log, depthOf, h, current, depth, k);
    } else {
      ExpandOne(entries, start, graph, limit, log, depthOf, h, current, depth, k);
    }
  }

  /** Taking dependency `k - 1` into account after the ones before it, whether queued before or new, keeps every invariant. */
  lemma {:induction false} ExpandOne(entries: set<Path>, start: set<Path>, graph: Graph, limit: nat,
                                     log: seq<(Path, nat)>, depthOf: map<Path, nat>, h: nat, current: Path, depth: nat, k: nat)
    requires 0 < h <= |log| && log[h - 1] == (current, depth) && depth < limit
    requires 0 < k <= |graph(current)| && forall p :: p in graph(current) ==> p in entries
    requires Frontier(entries, start, graph, limit, log, h, h - 1, depthOf, depth)
    ensures var added := Fresh(graph(current)[..k], depthOf.Keys);
      ExpandedUpTo(entries, start, graph, limit, log, depthOf, h, current, depth, k,
                   log + Items(added, depth + 1), Assign(depthOf, added, depth + 1))
    decreases k, 0
  {
    var j := k - 1;
    ExpandPrefix(entries, start, graph, limit, log, depthOf, h, current, depth, j);
    var earlier := Fresh(graph(current)[..j], depthOf.Keys);
    if graph(current)[j] in Assign(depthOf, earlier, depth + 1) {
      ExpandQueued(entries, start, graph, limit, log, depthOf, h, current, depth, j);
    } else {
      assert graph(current)[j] in graph(current);
      ExpandNew(entries, start, graph, limit, log, depthOf, h, current, depth, j);
    }
  }

  /** How the queue and the set of traversed paths grow with one more dependency. */
  lemma QueueGrowth(queue: seq<(Path, nat)>, traversed: set<Path>, paths: seq<Path>, k: nat, d: nat)
    requires k < |paths|
    ensures var earlier := Fresh(paths[..k], traversed);
      (paths[k] in traversed || paths[k] in earlier ==> Fresh(paths[..k + 1], traversed) == earlier)
      && (paths[k] !in traversed && paths[k] !in earlier ==>
            Fresh(paths[..k + 1], traversed) == earlier + [paths[k]]
            && queue + Items(Fresh(paths[..k + 1], traversed), d) == queue + Items(earlier, d) + [(paths[k], d)])
  {
    var earlier := Fresh(paths[..k], traversed);
    FreshStep(paths, k, traversed);
    var added := earlier + [paths[k]];
    assert added[..|added| - 1] == earlier;
    Regroup3(queue, Items(earlier, d), [(paths[k], d)]);
  }

  /**
   * The inner loop of `include_dependencies` over the dependencies of an
   * item at depth `depth`: the string of every dependency is offered, in
   * order, and the dependencies not traversed before are queued one level
   * deeper, each once, in order of first appearance.
   */
  method QueueDependencies(targetRoot: Path, depth: nat, dependencies: seq<Path>,
                           orderedFiles: seq<string>, seenStrings: set<string>, traversed: set<Path>, queue: seq<(Path, nat)>,
                           ghost offered: seq<string>)
    returns (orderedFiles': seq<string>, seenStrings': set<string>, traversed': set<Path>, queue': seq<(Path, nat)>)
    requires orderedFiles == Dedup(offered)
    requires forall s :: s in seenStrings <==> s in orderedFiles
    ensures traversed' == traversed + set p | p in Fresh(dependencies, traversed)
    ensures queue' == queue + Items(Fresh(dependencies, traversed), depth + 1)
    ensures orderedFiles' == Dedup(offered + Displays(dependencies, targetRoot))
    ensures forall s :: s in seenStrings' <==> s in orderedFiles'
  {
    orderedFiles', seenStrings', traversed', queue' := orderedFiles, seenStrings, traversed, queue;
    assert dependencies[..0] == [];
    assert offered + Displays([], targetRoot) == offered;
    assert queue + Items([], depth + 1) == queue;
    for k := 0 to |dependencies|
      invariant traversed' == traversed + set p | p in Fresh(dependencies[..k], traversed)
      invariant queue' == queue + Items(Fresh(dependencies[..k], traversed), depth + 1)
      invariant orderedFiles' == Dedup(offered + Displays(dependencies[..k], targetRoot))
      invariant forall s :: s in seenStrings' <==> s in orderedFiles'
    {
      var depPath := dependencies[k];
      var depDisplay := Display(depPath, targetRoot);
      assert dependencies[..k + 1][..k] == dependencies[..k];
      Regroup3(offered, Displays(dependencies[..k], targetRoot), [depDisplay]);
      orderedFiles', seenStrings' :=
        AddFileString(orderedFiles', seenStrings', depDisplay, offered + Displays(dependencies[..k], targetRoot));
      QueueGrowth(queue, traversed, dependencies, k, depth + 1);
      if depPath in traversed' {
        continue;
      }
      var item: (Path, nat) := (depPath, depth + 1);
      traversed' := traversed' + {depPath};
      queue' := queue' + [item];
    }
    assert dependencies[..|dependencies|] == dependencies;
  }

  /** Right after the seeds are queued, every invariant holds with nothing finished. */
  lemma SeedsFrontier(entries: set<Path>, start: set<Path>, graph: Graph, limit: nat,
                      log: seq<(Path, nat)>, depthOf: map<Path, nat>)
    requires Queued(entries, limit, log, depthOf) && depthOf.Keys == start
    requires forall j :: 0 <= j < |log| ==> log[j].1 == 0
    ensures Frontier(entries, start, graph, limit, log, 0, 0, depthOf, 0)
  {
    forall p | p in depthOf ensures depthOf[p] == 0 {
      var i :| 0 <= i < |log| && log[i].0 == p;
    }
  }

  /** Appending to the log keeps its first `h + 1` items, and the queue from `h + 1` on grows by the same items. */
  lemma AppendToLog(log: seq<(Path, nat)>, items: seq<(Path, nat)>, h: nat)
    requires h < |log|
    ensures (log + items)[h] == log[h] && (log + items)[..h] == log[..h]
    ensures (log + items)[h + 1..] == log[h + 1..] + items
  {
  }

  /** Taking the first item of the queue `log[h..]` leaves `log[h + 1..]`. */
  lemma PopFront(log: seq<(Path, nat)>, h: nat, queue: seq<(Path, nat)>)
    requires h < |log| && queue == log[h..]
    ensures queue[0] == log[h] && queue[1..] == log[h + 1..]
  {
  }

  /**
   * Expanding the item `log[h]` (below the limit) queues the paths among
   * its dependencies not queued before and finishes it, keeping every
   * invariant.
   */
  lemma ExpandItem(entries: set<Path>, start: set<Path>, graph: Graph, limit: nat,
                   log: seq<(Path, nat)>, depthOf: map<Path, nat>, h: nat, current: Path, depth: nat)
    requires h < |log| && log[h] == (current, depth) && depth < limit
    requires forall p :: p in graph(current) ==> p in entries
    requires Frontier(entries, start, graph, limit, log, h + 1, h, depthOf, depth)
    ensures var added := Fresh(graph(current), depthOf.Keys);
      Frontier(entries, start, graph, limit, log + Items(added, depth + 1), h + 1, h + 1, Assign(depthOf, added, depth + 1), depth)
  {
    var deps := graph(current);
    var added := Fresh(deps, depthOf.Keys);
    var log' := log + Items(added, depth + 1);
    var depthOf' := Assign(depthOf, added, depth + 1);
    ExpandPrefix(entries, start, graph, limit, log, depthOf, h + 1, current, depth, |deps|);
    assert deps[..|deps|] == deps;
    AppendToLog(log, Items(added, depth + 1), h);
    FinishItem(graph, limit, log', depthOf', h);
  }


  /**
   * The item `log[h]`, below the depth limit, is expanded: its
   * dependencies are looked up; without any it is only finished, otherwise
   * their strings are offered and the new ones queued.
   */
  method ExpandNext(fs: FileSystem, ghost start: set<Path>, ghost graph: Graph, targetRoot: Path, depthLimit: nat,
                    current: Path, depth: nat,
                    orderedFiles: seq<string>, seenStrings: set<string>, traversed: set<Path>, queue: seq<(Path, nat)>,
                    ghost log: seq<(Path, nat)>, ghost depthOf: map<Path, nat>, ghost h: nat, ghost seeds: seq<string>)
    returns (orderedFiles': seq<string>, seenStrings': set<string>, traversed': set<Path>, queue': seq<(Path, nat)>,
             ghost log': seq<(Path, nat)>, ghost depthOf': map<Path, nat>)
    requires graph == DepGraph(fs, targetRoot)
    requires h < |log| && log[h] == (current, depth) && depth < depthLimit
    requires queue == log[h + 1..] && traversed == depthOf.Keys
    requires Frontier(fs.entries, start, graph, depthLimit, log, h + 1, h, depthOf, depth)
    requires orderedFiles == Dedup(seeds + Offered(graph, targetRoot, depthLimit, log[..h]))
    requires forall s :: s in seenStrings <==> s in orderedFiles
    ensures h + 1 <= |log'| && queue' == log'[h + 1..] && traversed' == depthOf'.Keys
    ensures Frontier(fs.entries, start, graph, depthLimit, log', h + 1, h + 1, depthOf', depth)
    ensures orderedFiles' == Dedup(seeds + Offered(graph, targetRoot, depthLimit, log'[..h + 1]))
    ensures forall s :: s in seenStrings' <==> s in orderedFiles'
    ensures traversed <= traversed' && (traversed' == traversed ==> queue' == queue)
    ensures log' == log + Items(Fresh(graph(current), traversed), depth + 1)
    ensures traversed' == traversed + set p | p in Fresh(graph(current), traversed)
  {
    var dependencies := FindLocalModuleFiles(fs, current, targetRoot);
    assert dependencies == graph(current);
    if dependencies == [] {
      orderedFiles', seenStrings', traversed', queue' := orderedFiles, seenStrings, traversed, queue;
      log', depthOf' := log, depthOf;
      FinishItem(graph, depthLimit, log, depthOf, h);
      OfferNothing(graph, targetRoot, depthLimit, log, h);
      assert log + Items([], depth + 1) == log;
      assert traversed + (set p: Path | p in []) == traversed;
      return;
    }
    orderedFiles', seenStrings', traversed', queue', log', depthOf' :=
      ExpandWith(fs, start, graph, targetRoot, depthLimit, current, depth, dependencies,
                 orderedFiles, seenStrings, traversed, queue, log, depthOf, h, seeds);
  }

  /** Expanding the item `log[h]` with its dependencies found: their strings are offered and the new ones queued. */
  method ExpandWith(fs: FileSystem, ghost start: set<Path>, ghost graph: Graph, targetRoot: Path, depthLimit: nat,
                    current: Path, depth: nat, dependencies: seq<Path>,
                    orderedFiles: seq<string>, seenStrings: set<string>, traversed: set<Path>, queue: seq<(Path, nat)>,
                    ghost log: seq<(Path, nat)>, ghost depthOf: map<Path, nat>, ghost h: nat, ghost seeds: seq<string>)
    returns (orderedFiles': seq<string>, seenStrings': set<string>, traversed': set<Path>, queue': seq<(Path, nat)>,
             ghost log': seq<(Path, nat)>, ghost depthOf': map<Path, nat>)
    requires graph == DepGraph(fs, targetRoot) && dependencies == graph(current)
    requires h < |log| && log[h] == (current, depth) && depth < depthLimit
    requires queue == log[h + 1..] && traversed == depthOf.Keys
    requires Frontier(fs.entries, start, graph, depthLimit, log, h + 1, h, depthOf, depth)
    requires orderedFiles == Dedup(seeds + Offered(graph, targetRoot, depthLimit, log[..h]))
    requires forall s :: s in seenStrings <==> s in orderedFiles
    ensures h + 1 <= |log'| && queue' == log'[h + 1..] && traversed' == depthOf'.Keys
    ensures Frontier(fs.entries, start, graph, depthLimit, log', h + 1, h + 1, depthOf', depth)
    ensures orderedFiles' == Dedup(seeds + Offered(graph, targetRoot, depthLimit, log'[..h + 1]))
    ensures forall s :: s in seenStrings' <==> s in orderedFiles'
    ensures traversed <= traversed' && (traversed' == traversed ==> queue' == queue)
    ensures log' == log + Items(Fresh(graph(current), traversed), depth + 1)
    ensures traversed' == traversed + set p | p in Fresh(graph(current), traversed)
  {
    ghost var offered := seeds + Offered(graph, targetRoot, depthLimit, log[..h]);
    orderedFiles', seenStrings', traversed', queue' :=
      QueueDependencies(targetRoot, depth, dependencies, orderedFiles, seenStrings, traversed, queue, offered);
    ExpandItem(fs.entries, start, graph, depthLimit, log, depthOf, h, current, depth);
    ghost var added := Fresh(dependencies, depthOf.Keys);
    log' := log + Items(added, depth + 1);
    depthOf' := Assign(depthOf, added, depth + 1);
    AppendToLog(log, Items(added, depth + 1), h);
    AssignKeys(depthOf, added, depth + 1);
    OfferItem(graph, targetRoot, depthLimit, log', h);
    Regroup3(seeds, Offered(graph, targetRoot, depthLimit, log[..h]), Displays(dependencies, targetRoot));
    FreshSpec(dependencies, traversed);
    if added != [] {
      assert added[0] in traversed' - traversed;
    }
  }

  /**
   * One turn of the main loop of `include_dependencies`: take the next
   * item; past the depth limit it is only finished, otherwise expanded.
   */
  method VisitNext(fs: FileSystem, ghost start: set<Path>, ghost graph: Graph, targetRoot: Path, depthLimit: nat,
                   orderedFiles: seq<string>, seenStrings: set<string>, traversed: set<Path>, queue: seq<(Path, nat)>,
                   ghost log: seq<(Path, nat)>, ghost depthOf: map<Path, nat>, ghost h: nat, ghost level: nat, ghost seeds: seq<string>)
    returns (orderedFiles': seq<string>, seenStrings': set<string>, traversed': set<Path>, queue': seq<(Path, nat)>,
             ghost log': seq<(Path, nat)>, ghost depthOf': map<Path, nat>, ghost level': nat)
    requires graph == DepGraph(fs, targetRoot) && queue != []
    requires h <= |log| && queue == log[h..] && traversed == depthOf.Keys
    requires Frontier(fs.entries, start, graph, depthLimit, log, h, h, depthOf, level)
    requires orderedFiles == Dedup(seeds + Offered(graph, targetRoot, depthLimit, log[..h]))
    requires forall s :: s in seenStrings <==> s in orderedFiles
    ensures h + 1 <= |log'| && queue' == log'[h + 1..] && traversed' == depthOf'.Keys
    ensures Frontier(fs.entries, start, graph, depthLimit, log', h + 1, h + 1, depthOf', level')
    ensures orderedFiles' == Dedup(seeds + Offered(graph, targetRoot, depthLimit, log'[..h + 1]))
    ensures forall s :: s in seenStrings' <==> s in orderedFiles'
    ensures traversed' == traversed ==> |queue'| < |queue|
    ensures traversed' != traversed ==> |fs.entries - traversed'| < |fs.entries - traversed|
    ensures Trace(fs, targetRoot, depthLimit, log', traversed', h + 1) == Trace(fs, targetRoot, depthLimit, log, traversed, h)
  {
    PopFront(log, h, queue);
    var current := queue[0].0;
    var depth := queue[0].1;
    FifoAdvance(log, h, depthOf, level);
    level' := depth;
    if depth >= depthLimit {
      SkipItem(graph, targetRoot, depthLimit, log, depthOf, h);
      orderedFiles', seenStrings', traversed', queue' := orderedFiles, seenStrings, traversed, queue[1..];
      log', depthOf' := log, depthOf;
    } else {
      orderedFiles', seenStrings', traversed', queue', log', depthOf' :=
        ExpandNext(fs, start, graph, targetRoot, depthLimit, current, depth,
                   orderedFiles, seenStrings, traversed, queue[1..], log, depthOf, h, seeds);
      if traversed' != traversed {
        DiffShrinks(fs.entries, traversed, traversed');
      }
      assert graph(current) == Deps(fs, current, targetRoot);
    }
  }

  // ---------------------------------------------------------------------
  // What the whole traversal computes
  // ---------------------------------------------------------------------

  /**
   * The record the main loop ends with when it resumes at item `h` of
   * `log`, with `traversed` the paths queued so far: items are taken in
   * the order queued; one below `limit` queues, one level deeper, its
   * dependencies not queued before, in order of first appearance, and one
   * at the limit queues nothing.
   */
  ghost function Trace(fs: FileSystem, root: Path, limit: nat, log: seq<(Path, nat)>, traversed: set<Path>, h: nat): seq<(Path, nat)>
    requires h <= |log|
    decreases |fs.entries - traversed|, |log| - h
  {
    if h == |log| then log
    else if log[h].1 >= limit then Trace(fs, root, limit, log, traversed, h + 1)
    else
      var added := Fresh(Deps(fs, log[h].0, root), traversed);
      FreshLeavesLess(fs.entries, Deps(fs, log[h].0, root), traversed);
      Trace(fs, root, limit, log + Items(added, log[h].1 + 1), traversed + (set p | p in added), h + 1)
  }

  /**
   * The record of a breadth-first traversal from `start` up to `limit`:
   * every path once, in order of depth, each at its distance from `start`
   * (reachable in that many steps and in no fewer), and the paths recorded
   * are exactly those reachable within the limit.
   */
  ghost predicate BreadthFirst(start: set<Path>, graph: Graph, limit: nat, log: seq<(Path, nat)>)
  {
    (forall i, j :: 0 <= i < j < |log| ==> log[i].0 != log[j].0 && log[i].1 <= log[j].1)
    && (forall i :: 0 <= i < |log| ==> log[i].1 <= limit && log[i].0 in Reach(start, graph, log[i].1))
    && (forall i, d :: 0 <= i < |log| && d < log[i].1 ==> log[i].0 !in Reach(start, graph, d))
    && (set i | 0 <= i < |log| :: log[i].0) == Reach(start, graph, limit)
  }

  /** Once the queue is empty, the record is a breadth-first traversal and the items expanded are the files reachable in fewer steps than the limit. */
  lemma TraversalOutcome(entries: set<Path>, start: set<Path>, graph: Graph, limit: nat,
                         log: seq<(Path, nat)>, depthOf: map<Path, nat>, level: nat)
    requires Frontier(entries, start, graph, limit, log, |log|, |log|, depthOf, level)
    ensures BreadthFirst(start, graph, limit, log)
    ensures BelowLimit(limit, log) == Expanded(start, graph, limit)
  {
    QueuedIsReach(entries, start, graph, limit, log, depthOf);
    BelowLimitIsExpanded(entries, start, graph, limit, log, depthOf);
    forall i, d | 0 <= i < |log| && d < log[i].1 ensures log[i].0 !in Reach(start, graph, d) {
      ReachQueued(entries, start, graph, limit, log, depthOf, d);
    }
    var paths := set i | 0 <= i < |log| :: log[i].0;
    forall p | p in depthOf ensures p in paths {
      var i :| 0 <= i < |log| && log[i].0 == p;
    }
  }

  /**
   * The list built from the seed strings and the strings offered while
   * expanding the files reachable in fewer steps than the limit: no
   * duplicates, the seed strings first, and exactly the seed strings and
   * the strings of those files' dependencies; with limit 0 only the seeds.
   */
  lemma ListedFiles(filePaths: seq<string>, start: set<Path>, graph: Graph, root: Path, limit: nat, log: seq<(Path, nat)>)
    requires BelowLimit(limit, log) == Expanded(start, graph, limit)
    ensures var listed := Dedup(filePaths + Offered(graph, root, limit, log));
      && NoDup(listed)
      && |Dedup(filePaths)| <= |listed| && listed[..|Dedup(filePaths)|] == Dedup(filePaths)
      && (forall s :: s in listed <==> s in filePaths || s in DisplaysOf(Expanded(start, graph, limit), graph, root))
      && (limit == 0 ==> listed == Dedup(filePaths))
  {
    var offered := Offered(graph, root, limit, log);
    DedupSpec(filePaths + offered);
    DedupPrefix(filePaths, offered);
    OfferedMembers(graph, root, limit, log);
    if limit == 0 {
      NothingOffered(graph, root, log);
      assert filePaths + offered == filePaths;
    }
  }

  /**
   * The main loop of `include_dependencies`: visit queued items until the
   * queue is empty, so that every item queued is finished and every
   * string offered along the way is listed.
   */
  method DrainQueue(fs: FileSystem, ghost start: set<Path>, ghost graph: Graph, targetRoot: Path, depthLimit: nat,
                    orderedFiles: seq<string>, seenStrings: set<string>, traversed: set<Path>, queue: seq<(Path, nat)>,
                    ghost log: seq<(Path, nat)>, ghost depthOf: map<Path, nat>, ghost seeds: seq<string>)
    returns (orderedFiles': seq<string>, ghost log': seq<(Path, nat)>, ghost depthOf': map<Path, nat>, ghost level': nat)
    requires graph == DepGraph(fs, targetRoot)
    requires queue == log && traversed == depthOf.Keys
    requires Frontier(fs.entries, start, graph, depthLimit, log, 0, 0, depthOf, 0)
    requires orderedFiles == Dedup(seeds)
    requires forall s :: s in seenStrings <==> s in orderedFiles
    ensures Frontier(fs.entries, start, graph, depthLimit, log', |log'|, |log'|, depthOf', level')
    ensures orderedFiles' == Dedup(seeds + Offered(graph, targetRoot, depthLimit, log'))
    ensures log' == Trace(fs, targetRoot, depthLimit, log, traversed, 0)
  {
    orderedFiles', log', depthOf', level' := orderedFiles, log, depthOf, 0;
    var seenStrings', traversed', queue' := seenStrings, traversed, queue;
    ghost var h: nat := 0;
    ghost var final := Trace(fs, targetRoot, depthLimit, log, traversed, 0);
    assert seeds + Offered(graph, targetRoot, depthLimit, log[..0]) == seeds;
    while queue' != []
      invariant h <= |log'| && queue' == log'[h..] && traversed' == depthOf'.Keys
      invariant Frontier(fs.entries, start, graph, depthLimit, log', h, h, depthOf', level')
      invariant orderedFiles' == Dedup(seeds + Offered(graph, targetRoot, depthLimit, log'[..h]))
      invariant forall s :: s in seenStrings' <==> s in orderedFiles'
      invariant Trace(fs, targetRoot, depthLimit, log', traversed', h) == final
      decreases |fs.entries - traversed'|, |queue'|
    {
      orderedFiles', seenStrings', traversed', queue', log', depthOf', level' :=
        VisitNext(fs, start, graph, targetRoot, depthLimit, orderedFiles', seenStrings', traversed', queue',
                  log', depthOf', h, level', seeds);
      h := h + 1;
    }
    assert log'[..h] == log';
    TraceDone(fs, targetRoot, depthLimit, log', traversed', h);
  }

  /** With every item taken, the record is final. */
  lemma TraceDone(fs: FileSystem, root: Path, limit: nat, log: seq<(Path, nat)>, traversed: set<Path>, h: nat)
    requires h == |log|
    ensures Trace(fs, root, limit, log, traversed, h) == log
  {
  }

  /**
   * `include_dependencies`: the seed strings, then the strings of the
   * dependencies of every file expanded, each listed once. The files
   * expanded are those reachable from the existing seeds in fewer steps
   * than the clamped depth limit, visited breadth-first; the ghost `log`
   * is the order in which they were queued.
   */
  method IncludeDependencies(fs: FileSystem, filePaths: seq<string>, targetRoot: Path, maxDepth: int)
    returns (orderedFiles: seq<string>, ghost log: seq<(Path, nat)>)
    ensures orderedFiles == Dedup(filePaths + Offered(DepGraph(fs, targetRoot), targetRoot, Limit(maxDepth), log))
    ensures BreadthFirst(ExistingSeeds(fs, filePaths, targetRoot), DepGraph(fs, targetRoot), Limit(maxDepth), log)
    ensures log == Trace(fs, targetRoot, Limit(maxDepth), Items(SeedOrder(fs, filePaths, targetRoot), 0),
                         ExistingSeeds(fs, filePaths, targetRoot), 0)
    ensures NoDup(orderedFiles)
    ensures |Dedup(filePaths)| <= |orderedFiles| && orderedFiles[..|Dedup(filePaths)|] == Dedup(filePaths)
    ensures forall s :: s in orderedFiles <==>
      s in filePaths || s in DisplaysOf(Expanded(ExistingSeeds(fs, filePaths, targetRoot), DepGraph(fs, targetRoot), Limit(maxDepth)),
                                        DepGraph(fs, targetRoot), targetRoot)
    ensures maxDepth < 1 ==> orderedFiles == Dedup(filePaths)
  {
    var depthLimit: nat := if maxDepth < 1 then 0 else maxDepth;
    ghost var graph := DepGraph(fs, targetRoot);
    ghost var start := ExistingSeeds(fs, filePaths, targetRoot);
    var seenStrings, traversed, queue;
    ghost var depthOf, level;
    orderedFiles, seenStrings, traversed, queue, depthOf, log := QueueSeeds(fs, filePaths, targetRoot, depthLimit);
    SeedsFrontier(fs.entries, start, graph, depthLimit, log, depthOf);
    orderedFiles, log, depthOf, level :=
      DrainQueue(fs, start, graph, targetRoot, depthLimit, orderedFiles, seenStrings, traversed, queue, log, depthOf, filePaths);
    TraversalOutcome(fs.entries, start, graph, depthLimit, log, depthOf, level);
    ListedFiles(filePaths, start, graph, targetRoot, depthLimit, log);
  }
}
