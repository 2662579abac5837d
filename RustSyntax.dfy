/**
 * The syntax layer of the Rust dependency resolver: the Tree-sitter syntax
 * tree as an input datatype, and the two extractors that read `mod foo;`
 * declarations and flattened `use` paths off it.
 */
module RustSyntax {
  import opened Wrappers
  import Seqs

  /** The Tree-sitter node kinds the extractors look at; every other kind is `Other`. */
  datatype Kind =
    | ScopedIdentifier   // `a::b`
    | Identifier
    | CrateKw            // `crate`
    | SelfKw             // `self`
    | SuperKw            // `super`
    | UseList            // `{a, b::c}`
    | UseAsClause        // `a::b as c`
    | UseWildcard        // `a::*`
    | ScopedUseList      // `a::{...}`
    | UseDeclaration     // `use ...;`
    | ModItem            // `mod m;` or `mod m { ... }`
    | PathSep            // `::`
    | Comma
    | LBrace
    | RBrace
    | Star
    | AsKw
    | UseKw
    | Semicolon
    | Other

  /** The Tree-sitter field name under which a node hangs from its parent. */
  datatype Field = NoField | NameField | BodyField | OtherField

  /** A syntax tree node: its kind, its field in the parent, its source text and its children. */
  datatype Node = Node(kind: Kind, field: Field, text: string, children: seq<Node>)

  /** A flattened `use` path, with `isGlob` set for `path::*`. */
  datatype UseEntry = UseEntry(segments: seq<string>, isGlob: bool)

  /** The kinds whose text is a path segment. */
  predicate IsPathToken(k: Kind) {
    k == Identifier || k == CrateKw || k == SelfKw || k == SuperKw
  }

  /** The kinds that may stand for the path part of `path as alias`. */
  predicate IsAliasable(k: Kind) {
    IsPathToken(k) || k == ScopedIdentifier || k == ScopedUseList
  }

  /** `node.child_by_field_name(f)`: the first child hanging under field `f`. */
  function FieldChild(n: Node, f: Field): (r: Option<Node>)
    ensures r.Some? ==> r.value in n.children && r.value.field == f
    ensures r.Some? ==> exists i :: 0 <= i < |n.children| && n.children[i] == r.value
                          && forall j :: 0 <= j < i ==> n.children[j].field != f
    ensures r.None? ==> forall c :: c in n.children ==> c.field != f
  {
    FirstWithField(n.children, f)
  }

  function FirstWithField(cs: seq<Node>, f: Field): (r: Option<Node>)
    ensures r.Some? ==> r.value in cs && r.value.field == f
    ensures r.Some? ==> exists i :: 0 <= i < |cs| && cs[i] == r.value && forall j :: 0 <= j < i ==> cs[j].field != f
    ensures r.None? ==> forall c :: c in cs ==> c.field != f
  {
    if cs == [] then None
    else if cs[0].field == f then Some(cs[0])
    else FirstWithField(cs[1..], f)
  }

  /** The children whose kind is not in `drop`, in order. */
  function Without(cs: seq<Node>, drop: set<Kind>): seq<Node>
  {
    if cs == [] then []
    else if cs[0].kind in drop then Without(cs[1..], drop)
    else [cs[0]] + Without(cs[1..], drop)
  }

  /** Filtering keeps exactly the nodes whose kind is not dropped. */
  lemma {:induction false} WithoutMembers(cs: seq<Node>, drop: set<Kind>)
    ensures forall c :: c in Without(cs, drop) <==> c in cs && c.kind !in drop
  {
    if cs != [] {
      WithoutMembers(cs[1..], drop);
      assert cs == [cs[0]] + cs[1..];
    }
  }

  // ---------------------------------------------------------------------
  // Path flattening
  // ---------------------------------------------------------------------

  /**
   * The path segments a node spells: a scoped identifier gives the segments
   * of its children in order (the `::` separators give none), a path token
   * gives its own text, any other node gives nothing.
   */
  function Flatten(n: Node): (r: seq<string>)
    ensures IsPathToken(n.kind) ==> r == [n.text]
    ensures n.kind != ScopedIdentifier && !IsPathToken(n.kind) ==> r == []
    ensures forall s :: s in r ==> exists d :: InTree(d, n) && IsPathToken(d.kind) && d.text == s
    decreases n, 1, 0
  {
    if n.kind == ScopedIdentifier then FlattenChildren(n, 0)
    else if IsPathToken(n.kind) then [n.text]
    else []
  }

  function FlattenChildren(n: Node, i: nat): (r: seq<string>)
    requires i <= |n.children|
    ensures forall s :: s in r ==> exists d :: InTree(d, n) && IsPathToken(d.kind) && d.text == s
    decreases n, 0, |n.children| - i
  {
    if i == |n.children| then []
    else (if n.children[i].kind == PathSep then [] else Flatten(n.children[i])) + FlattenChildren(n, i + 1)
  }

  // ---------------------------------------------------------------------
  // Flattening a use tree
  // ---------------------------------------------------------------------

  /**
   * The position of the path part of `path as alias`: the first child
   * whose kind may stand for a path, provided no `as` keyword comes before
   * it.
   */
  function AliasTarget(cs: seq<Node>): (r: Option<nat>)
    ensures r.Some? ==> r.value < |cs| && IsAliasable(cs[r.value].kind)
    ensures r.Some? ==> forall j :: 0 <= j < r.value ==> cs[j].kind != AsKw && !IsAliasable(cs[j].kind)
    ensures r.None? ==> forall i :: 0 <= i < |cs| && IsAliasable(cs[i].kind) ==> exists j :: 0 <= j < i && cs[j].kind == AsKw
  {
    if cs == [] || cs[0].kind == AsKw then None
    else if IsAliasable(cs[0].kind) then Some(0)
    else
      match AliasTarget(cs[1..])
      case Some(k) => Some(k + 1)
      case None => None
  }

  /** The first child that is neither `::` nor `*`: the path of a wildcard import. */
  function WildcardPath(cs: seq<Node>): (r: Option<Node>)
    ensures r.Some? ==> r.value in cs && r.value.kind != PathSep && r.value.kind != Star
    ensures r.Some? ==> exists i :: 0 <= i < |cs| && cs[i] == r.value
                          && forall j :: 0 <= j < i ==> cs[j].kind == PathSep || cs[j].kind == Star
    ensures r.None? ==> forall c :: c in cs ==> c.kind == PathSep || c.kind == Star
  {
    if cs == [] then None
    else if cs[0].kind != PathSep && cs[0].kind != Star then Some(cs[0])
    else WildcardPath(cs[1..])
  }

  /**
   * The entries a use tree flattens to under `prefix`. Grouped imports
   * distribute the prefix extended by their head over every member, an alias
   * keeps only the path before `as`, a wildcard gives one glob entry, and a
   * `use` declaration starts again from the empty prefix.
   */
  function Collect(n: Node, prefix: seq<string>): (r: seq<UseEntry>)
    ensures NoDeclaration(n) ==> forall e :: e in r ==> prefix <= e.segments
    decreases n, 1, 0
  {
    ChildrenNoDeclaration(n);
    match n.kind
    case UseList =>
      WithoutMembers(n.children, {Comma, LBrace, RBrace});
      CollectEach(n, Without(n.children, {Comma, LBrace, RBrace}), prefix)
    case UseAsClause =>
      var target := AliasTarget(n.children);
      if target.Some? then Collect(n.children[target.value], prefix) else []
    case UseWildcard =>
      var path := WildcardPath(n.children);
      if path.Some? then [UseEntry(prefix + Flatten(path.value), true)] else []
    case ScopedUseList =>
      var meaningful := Without(n.children, {PathSep});
      WithoutMembers(n.children, {PathSep});
      if meaningful == [] then []
      else
        var newPrefix := prefix + Flatten(meaningful[0]);
        if |meaningful| == 1 then [UseEntry(newPrefix, false)]
        else CollectEach(n, meaningful[1..], newPrefix)
    case Identifier => [UseEntry(prefix + [n.text], false)]
    case CrateKw => [UseEntry(prefix + [n.text], false)]
    case SelfKw => [UseEntry(prefix + [n.text], false)]
    case SuperKw => [UseEntry(prefix + [n.text], false)]
    case ScopedIdentifier => [UseEntry(prefix + Flatten(n), false)]
    case UseDeclaration =>
      WithoutMembers(n.children, {UseKw, Semicolon});
      CollectEach(n, Without(n.children, {UseKw, Semicolon}), [])
    case _ => []
  }

  /** The entries of `nodes`, children of `n`, each flattened under `prefix`, concatenated in order. */
  function CollectEach(n: Node, nodes: seq<Node>, prefix: seq<string>): (r: seq<UseEntry>)
    requires forall c :: c in nodes ==> c in n.children
    ensures NoDeclaration(n) ==> forall e :: e in r ==> prefix <= e.segments
    decreases n, 0, |nodes|
  {
    ChildrenNoDeclaration(n);
    if nodes == [] then []
    else
      assert nodes[0] in n.children;
      Collect(nodes[0], prefix) + CollectEach(n, nodes[1..], prefix)
  }

  // ---------------------------------------------------------------------
  // Whole-tree extractors (specifications of the stack walks)
  // ---------------------------------------------------------------------

  /** The module name a node declares when it is a `mod` item without an inline body. */
  function OwnModule(n: Node): seq<string>
  {
    if n.kind == ModItem && FieldChild(n, BodyField).None? then
      match FieldChild(n, NameField)
      case Some(id) => [id.text]
      case None => []
    else []
  }

  /**
   * The module names a depth-first walk with an explicit stack reports:
   * the node's own, then those below its last child, ..., then those below
   * its first child (children are pushed in order and popped in reverse).
   */
  function ModulesOf(n: Node): seq<string>
    decreases n, 1, 0
  {
    OwnModule(n) + ModulesBelow(n, |n.children|)
  }

  /** The module names below children `i-1`, ..., `0` of `n`, in that order. */
  function ModulesBelow(n: Node, i: nat): seq<string>
    requires i <= |n.children|
    decreases n, 0, i
  {
    if i == 0 then [] else ModulesOf(n.children[i - 1]) + ModulesBelow(n, i - 1)
  }

  /**
   * The entries the stack walk over a tree reports: a `use` declaration is
   * flattened from the empty prefix and not entered further; any other node
   * is entered, its children in reverse order.
   */
  function UsesOf(n: Node): seq<UseEntry>
    decreases n, 1, 0
  {
    if n.kind == UseDeclaration then Collect(n, []) else UsesBelow(n, |n.children|)
  }

  function UsesBelow(n: Node, i: nat): seq<UseEntry>
    requires i <= |n.children|
    decreases n, 0, i
  {
    if i == 0 then [] else UsesOf(n.children[i - 1]) + UsesBelow(n, i - 1)
  }

  // ---------------------------------------------------------------------
  // The stack walks themselves
  // ---------------------------------------------------------------------

  /** The number of nodes in a tree: the measure that bounds a stack walk. */
  function Size(n: Node): nat
    decreases n, 1, 0
  {
    1 + SizeBelow(n, |n.children|)
  }

  function SizeBelow(n: Node, i: nat): nat
    requires i <= |n.children|
    decreases n, 0, i
  {
    if i == 0 then 0 else Size(n.children[i - 1]) + SizeBelow(n, i - 1)
  }

  function StackSize(stack: seq<Node>): nat
  {
    if stack == [] then 0 else Size(stack[|stack| - 1]) + StackSize(stack[..|stack| - 1])
  }

  /** Pushing the first `i` children of `n` adds exactly their sizes to the stack's measure. */
  lemma {:induction false} StackSizePush(rest: seq<Node>, n: Node, i: nat)
    requires i <= |n.children|
    ensures StackSize(rest + n.children[..i]) == SizeBelow(n, i) + StackSize(rest)
  {
    if i == 0 {
      assert rest + n.children[..0] == rest;
    } else {
      var s, c := rest + n.children[..i], n.children[i - 1];
      assert s[..|s| - 1] == rest + n.children[..i - 1] && s[|s| - 1] == c;
      StackSizePush(rest, n, i - 1);
      assert StackSize(s) == Size(c) + StackSize(rest + n.children[..i - 1]);
    }
  }

  /** What the nodes on a stack still have to report, top (last) first, when each node reports `report(node)`. */
  function Pending<T>(stack: seq<Node>, report: Node -> seq<T>): seq<T>
  {
    if stack == [] then [] else report(stack[|stack| - 1]) + Pending(stack[..|stack| - 1], report)
  }

  /** Pushing nodes on a stack puts what they report, last pushed first, on top of what was pending. */
  lemma {:induction false} PendingPush<T>(rest: seq<Node>, pushed: seq<Node>, report: Node -> seq<T>)
    ensures Pending(rest + pushed, report) == Pending(pushed, report) + Pending(rest, report)
  {
    if pushed == [] {
      assert rest + pushed == rest;
    } else {
      var s, init := rest + pushed, pushed[..|pushed| - 1];
      assert s[..|s| - 1] == rest + init && s[|s| - 1] == pushed[|pushed| - 1];
      PendingPush(rest, init, report);
    }
  }

  /** Something is pending exactly when one of the nodes on the stack reports it. */
  lemma {:induction false} PendingMembers<T>(stack: seq<Node>, report: Node -> seq<T>, x: T)
    ensures x in Pending(stack, report) <==> exists j :: 0 <= j < |stack| && x in report(stack[j])
  {
    if stack != [] {
      var init, top := stack[..|stack| - 1], stack[|stack| - 1];
      PendingMembers(init, report, x);
      assert Pending(stack, report) == report(top) + Pending(init, report);
      if x in Pending(init, report) {
        var j :| 0 <= j < |init| && x in report(init[j]);
        assert stack[j] == init[j];
      }
      if exists j :: 0 <= j < |stack| && x in report(stack[j]) {
        var j :| 0 <= j < |stack| && x in report(stack[j]);
        if j < |init| {
          assert stack[j] == init[j];
        }
      }
    }
  }

  /** The module names below the first `i` children are what those children, pushed in order, leave pending. */
  lemma {:induction false} ModulesBelowPending(n: Node, i: nat)
    requires i <= |n.children|
    ensures ModulesBelow(n, i) == Pending(n.children[..i], ModulesOf)
  {
    if i > 0 {
      var cs := n.children[..i];
      assert cs[..|cs| - 1] == n.children[..i - 1];
      ModulesBelowPending(n, i - 1);
    }
  }

  /** The entries below the first `i` children are what those children, pushed in order, leave pending. */
  lemma {:induction false} UsesBelowPending(n: Node, i: nat)
    requires i <= |n.children|
    ensures UsesBelow(n, i) == Pending(n.children[..i], UsesOf)
  {
    if i > 0 {
      var cs := n.children[..i];
      assert cs[..|cs| - 1] == n.children[..i - 1];
      UsesBelowPending(n, i - 1);
    }
  }

  /** Popping a node and pushing its children makes the stack's measure drop. */
  lemma StackSizeStep(stack: seq<Node>)
    requires stack != []
    ensures var node, rest := stack[|stack| - 1], stack[..|stack| - 1];
      StackSize(rest + node.children) < StackSize(stack)
  {
    var node, rest := stack[|stack| - 1], stack[..|stack| - 1];
    assert node.children[..|node.children|] == node.children;
    StackSizePush(rest, node, |node.children|);
  }

  /** One step of the module walk keeps what is reported plus what is pending unchanged. */
  lemma ModulesStep(reported: seq<string>, stack: seq<Node>, total: seq<string>)
    requires stack != []
    requires reported + Pending(stack, ModulesOf) == total
    ensures var node, rest := stack[|stack| - 1], stack[..|stack| - 1];
      (reported + OwnModule(node)) + Pending(rest + node.children, ModulesOf) == total
  {
    var node, rest := stack[|stack| - 1], stack[..|stack| - 1];
    assert node.children[..|node.children|] == node.children;
    PendingPush(rest, node.children, ModulesOf);
    ModulesBelowPending(node, |node.children|);
    var own, below, pending := OwnModule(node), ModulesBelow(node, |node.children|), Pending(rest, ModulesOf);
    assert Pending(stack, ModulesOf) == ModulesOf(node) + pending;
    assert ModulesOf(node) == own + below;
    Seqs.Regroup(reported, own, below, pending);
  }

  /** One step of the use walk keeps what is reported plus what is pending unchanged. */
  lemma UsesStep(reported: seq<UseEntry>, stack: seq<Node>, total: seq<UseEntry>)
    requires stack != []
    requires reported + Pending(stack, UsesOf) == total
    ensures var node, rest := stack[|stack| - 1], stack[..|stack| - 1];
      if node.kind == UseDeclaration then (reported + Collect(node, [])) + Pending(rest, UsesOf) == total
      else reported + Pending(rest + node.children, UsesOf) == total
  {
    var node, rest := stack[|stack| - 1], stack[..|stack| - 1];
    assert node.children[..|node.children|] == node.children;
    assert Pending(stack, UsesOf) == UsesOf(node) + Pending(rest, UsesOf);
    PendingPush(rest, node.children, UsesOf);
    UsesBelowPending(node, |node.children|);
  }

  /**
   * `_extract_module_names`: pops a node, reports it when it is a `mod` item
   * without a body that has a name, and pushes all of its children (inline
   * module bodies included).
   */
  method ExtractModuleNames(root: Node) returns (modules: seq<string>)
    ensures modules == ModulesOf(root)
  {
    modules := [];
    var stack := [root];
    assert stack[..0] == [];
    while stack != []
      invariant modules + Pending(stack, ModulesOf) == ModulesOf(root)
      decreases StackSize(stack)
    {
      var node := stack[|stack| - 1];
      ghost var before, above := modules, stack;
      stack := stack[..|stack| - 1];
      if node.kind == ModItem && FieldChild(node, BodyField).None? {
        var identifier := FieldChild(node, NameField);
        if identifier.Some? {
          modules := modules + [identifier.value.text];
        }
      }
      assert modules == before + OwnModule(node);
      ModulesStep(before, above, ModulesOf(root));
      StackSizeStep(above);
      stack := stack + node.children;
    }
  }

  /**
   * `_extract_use_entries`: pops a node; a `use` declaration is flattened
   * from the empty prefix and its children are not pushed, any other node
   * has its children pushed.
   */
  method ExtractUseEntries(root: Node) returns (entries: seq<UseEntry>)
    ensures entries == UsesOf(root)
  {
    entries := [];
    var stack := [root];
    assert stack[..0] == [];
    while stack != []
      invariant entries + Pending(stack, UsesOf) == UsesOf(root)
      decreases StackSize(stack)
    {
      var node := stack[|stack| - 1];
      ghost var above := stack;
      stack := stack[..|stack| - 1];
      StackSizeStep(above);
      if node.kind == UseDeclaration {
        UsesStep(entries, above, UsesOf(root));
        entries := entries + Collect(node, []);
      } else {
        UsesStep(entries, above, UsesOf(root));
        stack := stack + node.children;
      }
    }
  }

  // ---------------------------------------------------------------------
  // What the extractors find
  // ---------------------------------------------------------------------

  /** `d` is `n` itself or a node somewhere below it. */
  predicate InTree(d: Node, n: Node)
    decreases n
  {
    d == n || exists i :: 0 <= i < |n.children| && InTree(d, n.children[i])
  }

  /**
   * The module walk reports exactly the names of the `mod` items without an
   * inline body found anywhere in the tree, inline module bodies included.
   */
  lemma {:induction false} ModulesOfComplete(n: Node, m: string)
    ensures m in ModulesOf(n) <==> exists d :: InTree(d, n) && OwnModule(d) == [m]
  {
    if m in ModulesOf(n) {
      ModulesOfFound(n, m);
    }
    if exists d :: InTree(d, n) && OwnModule(d) == [m] {
      var d :| InTree(d, n) && OwnModule(d) == [m];
      ModulesOfReports(n, d, m);
    }
  }

  /** A name the module walk reports comes from a `mod` item in the tree. */
  lemma {:induction false} ModulesOfFound(n: Node, m: string)
    requires m in ModulesOf(n)
    ensures exists d :: InTree(d, n) && OwnModule(d) == [m]
    decreases n
  {
    if m in OwnModule(n) {
      assert InTree(n, n) && OwnModule(n) == [m];
    } else {
      ModulesBelowPending(n, |n.children|);
      assert n.children[..|n.children|] == n.children;
      PendingMembers(n.children, ModulesOf, m);
      var j :| 0 <= j < |n.children| && m in ModulesOf(n.children[j]);
      ModulesOfFound(n.children[j], m);
      var d :| InTree(d, n.children[j]) && OwnModule(d) == [m];
      assert InTree(d, n);
    }
  }

  /** Every `mod` item in the tree without an inline body has its name reported. */
  lemma {:induction false} ModulesOfReports(n: Node, d: Node, m: string)
    requires InTree(d, n) && OwnModule(d) == [m]
    ensures m in ModulesOf(n)
    decreases n
  {
    if d == n {
      assert m in OwnModule(n);
    } else {
      var j :| 0 <= j < |n.children| && InTree(d, n.children[j]);
      ModulesOfReports(n.children[j], d, m);
      ModulesBelowPending(n, |n.children|);
      assert n.children[..|n.children|] == n.children;
      PendingMembers(n.children, ModulesOf, m);
    }
  }

  /**
   * `d` is a `use` declaration the use walk reaches from `n`: either `n`
   * itself, or one below a child of `n` when `n` is not a declaration (the
   * walk does not enter a declaration).
   */
  predicate DeclarationIn(d: Node, n: Node)
    decreases n
  {
    if n.kind == UseDeclaration then d == n
    else exists i :: 0 <= i < |n.children| && DeclarationIn(d, n.children[i])
  }

  /**
   * The use walk reports exactly the entries of the outermost `use`
   * declarations of the tree, each flattened from the empty prefix.
   */
  lemma {:induction false} UsesOfComplete(n: Node, e: UseEntry)
    ensures e in UsesOf(n) <==> exists d :: DeclarationIn(d, n) && e in Collect(d, [])
    decreases n
  {
    if n.kind == UseDeclaration {
      assert DeclarationIn(n, n);
    } else {
      UsesBelowPending(n, |n.children|);
      assert n.children[..|n.children|] == n.children;
      PendingMembers(n.children, UsesOf, e);
      if e in UsesOf(n) {
        var j :| 0 <= j < |n.children| && e in UsesOf(n.children[j]);
        UsesOfComplete(n.children[j], e);
        var d :| DeclarationIn(d, n.children[j]) && e in Collect(d, []);
        assert DeclarationIn(d, n);
      }
      if exists d :: DeclarationIn(d, n) && e in Collect(d, []) {
        var d :| DeclarationIn(d, n) && e in Collect(d, []);
        var j :| 0 <= j < |n.children| && DeclarationIn(d, n.children[j]);
        assert DeclarationIn(d, n.children[j]) && e in Collect(d, []);
        UsesOfComplete(n.children[j], e);
        assert e in UsesOf(n.children[j]);
      }
    }
  }

  /** Every node the use walk flattens is a `use` declaration. */
  lemma {:induction false} DeclarationInIsDeclaration(d: Node, n: Node)
    requires DeclarationIn(d, n)
    ensures d.kind == UseDeclaration && InTree(d, n)
    decreases n
  {
    if n.kind != UseDeclaration {
      var j :| 0 <= j < |n.children| && DeclarationIn(d, n.children[j]);
      DeclarationInIsDeclaration(d, n.children[j]);
    }
  }

  /** `es` with `p` put in front of every entry's segments. */
  function AddPrefix(p: seq<string>, es: seq<UseEntry>): (r: seq<UseEntry>)
    ensures |r| == |es|
    ensures forall k :: 0 <= k < |es| ==> r[k] == UseEntry(p + es[k].segments, es[k].isGlob)
  {
    if es == [] then [] else [UseEntry(p + es[0].segments, es[0].isGlob)] + AddPrefix(p, es[1..])
  }

  lemma {:induction false} AddPrefixCompose(p: seq<string>, q: seq<string>, es: seq<UseEntry>)
    ensures AddPrefix(p, AddPrefix(q, es)) == AddPrefix(p + q, es)
  {
    if es != [] {
      AddPrefixCompose(p, q, es[1..]);
      Seqs.Regroup3(p, q, es[0].segments);
    }
  }

  lemma AddPrefixConcat(p: seq<string>, a: seq<UseEntry>, b: seq<UseEntry>)
    ensures AddPrefix(p, a + b) == AddPrefix(p, a) + AddPrefix(p, b)
  {
    var l, r := AddPrefix(p, a + b), AddPrefix(p, a) + AddPrefix(p, b);
    forall k | 0 <= k < |a + b| ensures l[k] == r[k] {
      if k >= |a| {
        assert (a + b)[k] == b[k - |a|];
      }
    }
  }

  /** No `use` declaration at or below `n`. */
  predicate NoDeclaration(n: Node)
    decreases n
  {
    n.kind != UseDeclaration && forall i :: 0 <= i < |n.children| ==> NoDeclaration(n.children[i])
  }

  /**
   * Flattening distributes the prefix: below a declaration, the entries
   * under prefix `p` are the entries under the empty prefix, each with `p`
   * put in front. A grouped import `p::{...}` thus yields one independent
   * entry per leaf, each starting with `p`.
   */
  lemma {:induction false} CollectShift(n: Node, p: seq<string>)
    requires NoDeclaration(n)
    ensures Collect(n, p) == AddPrefix(p, Collect(n, []))
    decreases n, 1, 0
  {
    match n.kind
    case UseList =>
      WithoutMembers(n.children, {Comma, LBrace, RBrace});
      CollectEachShift(n, Without(n.children, {Comma, LBrace, RBrace}), p);
    case UseAsClause =>
      var target := AliasTarget(n.children);
      if target.Some? {
        ChildNoDeclaration(n, n.children[target.value]);
        CollectShift(n.children[target.value], p);
      }
    case UseWildcard =>
      var path := WildcardPath(n.children);
      if path.Some? {
        assert [] + Flatten(path.value) == Flatten(path.value);
      }
    case ScopedUseList =>
      var meaningful := Without(n.children, {PathSep});
      WithoutMembers(n.children, {PathSep});
      if meaningful != [] {
        var head := Flatten(meaningful[0]);
        assert [] + head == head;
        if |meaningful| > 1 {
          CollectEachShift(n, meaningful[1..], p + head);
          CollectEachShift(n, meaningful[1..], head);
          AddPrefixCompose(p, head, CollectEach(n, meaningful[1..], []));
        }
      }
    case Identifier =>
      assert [] + [n.text] == [n.text];
    case CrateKw =>
      assert [] + [n.text] == [n.text];
    case SelfKw =>
      assert [] + [n.text] == [n.text];
    case SuperKw =>
      assert [] + [n.text] == [n.text];
    case ScopedIdentifier =>
      assert [] + Flatten(n) == Flatten(n);
    case _ =>
  }

  lemma {:induction false} CollectEachShift(n: Node, nodes: seq<Node>, p: seq<string>)
    requires forall c :: c in nodes ==> c in n.children
    requires NoDeclaration(n)
    ensures CollectEach(n, nodes, p) == AddPrefix(p, CollectEach(n, nodes, []))
    decreases n, 0, |nodes|
  {
    if nodes != [] {
      ChildNoDeclaration(n, nodes[0]);
      CollectShift(nodes[0], p);
      CollectEachShift(n, nodes[1..], p);
      AddPrefixConcat(p, Collect(nodes[0], []), CollectEach(n, nodes[1..], []));
    }
  }

  /** Without a declaration at or below `n`, there is none at or below any of its children. */
  lemma ChildrenNoDeclaration(n: Node)
    ensures NoDeclaration(n) ==> forall c :: c in n.children ==> NoDeclaration(c)
  {
    if NoDeclaration(n) {
      forall c | c in n.children ensures NoDeclaration(c) {
        ChildNoDeclaration(n, c);
      }
    }
  }

  lemma ChildNoDeclaration(n: Node, c: Node)
    requires NoDeclaration(n) && c in n.children
    ensures NoDeclaration(c) && c < n
  {
    var i :| 0 <= i < |n.children| && n.children[i] == c;
  }

  /**
   * A wildcard import yields one glob entry, the prefix followed by the
   * path's segments, when it has a path child, and nothing otherwise.
   */
  lemma WildcardEntries(n: Node, p: seq<string>)
    requires n.kind == UseWildcard
    ensures var r := Collect(n, p);
      && |r| <= 1
      && (|r| == 1 <==> exists c :: c in n.children && c.kind != PathSep && c.kind != Star)
      && (forall e :: e in r ==> e.isGlob && e.segments[..|p|] == p)
      && (WildcardPath(n.children).Some? ==> r == [UseEntry(p + Flatten(WildcardPath(n.children).value), true)])
  {
  }

  /**
   * A grouped import whose list part is missing (`a::b::` with nothing
   * after the last `::`) yields one plain entry: the prefix followed by
   * the head's segments.
   */
  lemma ScopedHeadOnly(n: Node, p: seq<string>)
    requires n.kind == ScopedUseList && |Without(n.children, {PathSep})| == 1
    ensures Collect(n, p) == [UseEntry(p + Flatten(Without(n.children, {PathSep})[0]), false)]
  {
  }
}
