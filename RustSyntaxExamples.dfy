/**
 * Concrete use and mod declarations, written as the syntax trees Tree-sitter
 * gives for them, with what the extractors report.
 */
module RustSyntaxExamples {
  import opened Wrappers
  import opened RustSyntax

  function Leaf(k: Kind, text: string): Node {
    Node(k, NoField, text, [])
  }

  function Id(s: string): Node {
    Leaf(Identifier, s)
  }

  function Sep(): Node {
    Leaf(PathSep, "::")
  }

  /** `a::b` as a scoped identifier. */
  function Scoped(text: string, a: Node, b: Node): Node {
    Node(ScopedIdentifier, NoField, text, [a, Sep(), b])
  }

  /** `use <arg>;` */
  function UseDecl(text: string, arg: Node): Node {
    Node(UseDeclaration, NoField, text, [Leaf(UseKw, "use"), arg, Leaf(Semicolon, ";")])
  }

  /** `mod <name>;` */
  function ModDecl(name: string): Node {
    Node(ModItem, NoField, "mod " + name + ";",
      [Leaf(Other, "mod"), Node(Identifier, NameField, name, []), Leaf(Semicolon, ";")])
  }

  /** `a::b` spells the segments of `a` followed by those of `b`. */
  lemma FlattenScoped(text: string, a: Node, b: Node)
    ensures Flatten(Scoped(text, a, b)) == Flatten(a) + Flatten(b)
  {
    var n := Scoped(text, a, b);
    assert FlattenChildren(n, 2) == Flatten(b);
    assert FlattenChildren(n, 1) == Flatten(b);
  }

  /** `use <arg>;` flattens `arg` from the empty prefix. */
  lemma UseDeclEntries(text: string, arg: Node)
    requires arg.kind != UseKw && arg.kind != Semicolon && arg.kind != UseDeclaration
    ensures UsesOf(UseDecl(text, arg)) == Collect(arg, [])
  {
    var decl := UseDecl(text, arg);
    assert Without([Leaf(Semicolon, ";")], {UseKw, Semicolon}) == [];
    assert Without([arg, Leaf(Semicolon, ";")], {UseKw, Semicolon}) == [arg];
    assert Without(decl.children, {UseKw, Semicolon}) == [arg];
    assert [arg][1..] == [];
    assert CollectEach(decl, [arg], []) == Collect(arg, []) + CollectEach(decl, [], []);
  }

  /** `<head>::<group>` flattens the group under the prefix extended by the head. */
  lemma GroupEntries(text: string, head: Node, group: Node, p: seq<string>)
    requires head.kind != PathSep && group.kind != PathSep
    ensures Collect(Node(ScopedUseList, NoField, text, [head, Sep(), group]), p) == Collect(group, p + Flatten(head))
  {
    var n := Node(ScopedUseList, NoField, text, [head, Sep(), group]);
    assert Without([group], {PathSep}) == [group];
    assert Without([Sep(), group], {PathSep}) == [group];
    assert Without(n.children, {PathSep}) == [head, group];
    assert [head, group][1..] == [group];
    assert CollectEach(n, [group], p + Flatten(head)) == Collect(group, p + Flatten(head));
  }

  /** `mod <name>;` is a `mod` item without a body, named `name`. */
  lemma ModDeclOwn(name: string)
    ensures OwnModule(ModDecl(name)) == [name]
  {
    var m := ModDecl(name);
    assert FieldChild(m, BodyField) == None;
    assert FieldChild(m, NameField) == Some(Node(Identifier, NameField, name, []));
  }

  /** `mod <name>;` declares `name`. */
  lemma ModDeclModules(name: string)
    ensures ModulesOf(ModDecl(name)) == [name]
  {
    var m := ModDecl(name);
    ModDeclOwn(name);
    LeavesDeclareNothing(m, 3);
  }

  /** `use a::{b, c::d};` gives the two independent entries `a::b` and `a::c::d`. */
  lemma GroupedImport()
    ensures UsesOf(UseDecl("use a::{b, c::d};",
      Node(ScopedUseList, NoField, "a::{b, c::d}", [Id("a"), Sep(),
        Node(UseList, NoField, "{b, c::d}",
          [Leaf(LBrace, "{"), Id("b"), Leaf(Comma, ","), Scoped("c::d", Id("c"), Id("d")), Leaf(RBrace, "}")])])))
      == [UseEntry(["a", "b"], false), UseEntry(["a", "c", "d"], false)]
  {
    var list := Node(UseList, NoField, "{b, c::d}",
      [Leaf(LBrace, "{"), Id("b"), Leaf(Comma, ","), Scoped("c::d", Id("c"), Id("d")), Leaf(RBrace, "}")]);
    var sul := Node(ScopedUseList, NoField, "a::{b, c::d}", [Id("a"), Sep(), list]);
    UseDeclEntries("use a::{b, c::d};", sul);
    GroupEntries("a::{b, c::d}", Id("a"), list, []);
    assert [] + Flatten(Id("a")) == ["a"];
    GroupedList();
  }

  lemma GroupedList()
    ensures Collect(Node(UseList, NoField, "{b, c::d}",
      [Leaf(LBrace, "{"), Id("b"), Leaf(Comma, ","), Scoped("c::d", Id("c"), Id("d")), Leaf(RBrace, "}")]), ["a"])
      == [UseEntry(["a", "b"], false), UseEntry(["a", "c", "d"], false)]
  {
    var lb, b, comma, cd, rb := Leaf(LBrace, "{"), Id("b"), Leaf(Comma, ","), Scoped("c::d", Id("c"), Id("d")), Leaf(RBrace, "}");
    var list := Node(UseList, NoField, "{b, c::d}", [lb, b, comma, cd, rb]);
    FlattenScoped("c::d", Id("c"), Id("d"));
    var d := {Comma, LBrace, RBrace};
    assert Without([rb], d) == [];
    assert Without([cd, rb], d) == [cd];
    assert Without([comma, cd, rb], d) == [cd];
    assert Without([b, comma, cd, rb], d) == [b, cd];
    assert Without(list.children, d) == [b, cd];
    assert Flatten(Id("c")) == ["c"] && Flatten(Id("d")) == ["d"];
    assert ["c"] + ["d"] == ["c", "d"];
    assert Flatten(cd) == ["c", "d"];
    assert ["a"] + ["c", "d"] == ["a", "c", "d"];
    assert Collect(cd, ["a"]) == [UseEntry(["a", "c", "d"], false)];
    assert CollectEach(list, [cd], ["a"]) == Collect(cd, ["a"]);
    assert ["a"] + ["b"] == ["a", "b"];
    assert Collect(b, ["a"]) == [UseEntry(["a", "b"], false)];
    assert [b, cd][1..] == [cd];
    assert CollectEach(list, [b, cd], ["a"]) == Collect(b, ["a"]) + CollectEach(list, [cd], ["a"]);
  }

  /** `use a::b as c;` keeps only `a::b`. */
  lemma AliasedImport()
    ensures UsesOf(UseDecl("use a::b as c;",
      Node(UseAsClause, NoField, "a::b as c", [Scoped("a::b", Id("a"), Id("b")), Leaf(AsKw, "as"), Id("c")])))
      == [UseEntry(["a", "b"], false)]
  {
    var ab := Scoped("a::b", Id("a"), Id("b"));
    var clause := Node(UseAsClause, NoField, "a::b as c", [ab, Leaf(AsKw, "as"), Id("c")]);
    UseDeclEntries("use a::b as c;", clause);
    FlattenScoped("a::b", Id("a"), Id("b"));
    assert Flatten(Id("a")) == ["a"] && Flatten(Id("b")) == ["b"];
    assert ["a"] + ["b"] == ["a", "b"];
    assert [] + ["a", "b"] == ["a", "b"];
    assert Collect(ab, []) == [UseEntry(["a", "b"], false)];
    assert AliasTarget(clause.children) == Some(0);
    assert Collect(clause, []) == Collect(ab, []);
  }

  /** `use a::b::*;` gives the one glob entry `a::b`. */
  lemma WildcardImport()
    ensures UsesOf(UseDecl("use a::b::*;",
      Node(UseWildcard, NoField, "a::b::*", [Scoped("a::b", Id("a"), Id("b")), Sep(), Leaf(Star, "*")])))
      == [UseEntry(["a", "b"], true)]
  {
    var ab := Scoped("a::b", Id("a"), Id("b"));
    var wildcard := Node(UseWildcard, NoField, "a::b::*", [ab, Sep(), Leaf(Star, "*")]);
    UseDeclEntries("use a::b::*;", wildcard);
    FlattenScoped("a::b", Id("a"), Id("b"));
    assert Flatten(Id("a")) == ["a"] && Flatten(Id("b")) == ["b"];
    assert ["a"] + ["b"] == ["a", "b"];
    assert [] + ["a", "b"] == ["a", "b"];
    assert WildcardPath(wildcard.children) == Some(ab);
    assert Collect(wildcard, []) == [UseEntry(["a", "b"], true)];
  }

  /** In `use a::{*};` the wildcard has no path of its own, so nothing is reported. */
  lemma BareWildcardInGroup()
    ensures UsesOf(UseDecl("use a::{*};",
      Node(ScopedUseList, NoField, "a::{*}", [Id("a"), Sep(),
        Node(UseList, NoField, "{*}",
          [Leaf(LBrace, "{"), Node(UseWildcard, NoField, "*", [Leaf(Star, "*")]), Leaf(RBrace, "}")])])))
      == []
  {
    var star := Node(UseWildcard, NoField, "*", [Leaf(Star, "*")]);
    var list := Node(UseList, NoField, "{*}", [Leaf(LBrace, "{"), star, Leaf(RBrace, "}")]);
    var sul := Node(ScopedUseList, NoField, "a::{*}", [Id("a"), Sep(), list]);
    UseDeclEntries("use a::{*};", sul);
    GroupEntries("a::{*}", Id("a"), list, []);
    assert [] + Flatten(Id("a")) == ["a"];
    BareWildcardList();
  }

  lemma BareWildcardList()
    ensures Collect(Node(UseList, NoField, "{*}",
      [Leaf(LBrace, "{"), Node(UseWildcard, NoField, "*", [Leaf(Star, "*")]), Leaf(RBrace, "}")]), ["a"]) == []
  {
    var star := Node(UseWildcard, NoField, "*", [Leaf(Star, "*")]);
    var list := Node(UseList, NoField, "{*}", [Leaf(LBrace, "{"), star, Leaf(RBrace, "}")]);
    assert WildcardPath(star.children) == None;
    var d := {Comma, LBrace, RBrace};
    assert Without([Leaf(RBrace, "}")], d) == [];
    assert Without([star, Leaf(RBrace, "}")], d) == [star];
    assert Without(list.children, d) == [star];
    assert Collect(star, ["a"]) == [];
    assert [star][1..] == [];
    assert CollectEach(list, [star], ["a"]) == Collect(star, ["a"]) + CollectEach(list, [], ["a"]);
  }

  /** A childless node other than a `mod` item declares nothing. */
  lemma NoModules(n: Node)
    requires n.kind != ModItem && n.children == []
    ensures ModulesOf(n) == []
  {
    assert ModulesBelow(n, 0) == [];
  }

  /** Children that are childless and not `mod` items declare nothing. */
  lemma {:induction false} LeavesDeclareNothing(n: Node, i: nat)
    requires i <= |n.children|
    requires forall k :: 0 <= k < i ==> n.children[k].kind != ModItem && n.children[k].children == []
    ensures ModulesBelow(n, i) == []
  {
    if i > 0 {
      NoModules(n.children[i - 1]);
      LeavesDeclareNothing(n, i - 1);
    }
  }

  /** The inline body `{ mod inner; }` declares `inner`. */
  lemma InlineBodyModules()
    ensures ModulesOf(Node(Other, BodyField, "{ mod inner; }", [Leaf(LBrace, "{"), ModDecl("inner"), Leaf(RBrace, "}")]))
      == ["inner"]
  {
    var lb, inner, rb := Leaf(LBrace, "{"), ModDecl("inner"), Leaf(RBrace, "}");
    var body := Node(Other, BodyField, "{ mod inner; }", [lb, inner, rb]);
    assert OwnModule(body) == [];
    NoModules(lb);
    NoModules(rb);
    ModDeclModules("inner");
    assert ModulesBelow(body, 1) == [];
    assert ModulesBelow(body, 2) == ["inner"];
    assert ModulesBelow(body, 3) == ["inner"];
  }

  /** A `mod` declared inside an inline module body is found; the inline module itself is not. */
  lemma NestedModule()
    ensures ModulesOf(Node(ModItem, NoField, "mod outer { mod inner; }", [Leaf(Other, "mod"), Node(Identifier, NameField, "outer", []),
        Node(Other, BodyField, "{ mod inner; }", [Leaf(LBrace, "{"), ModDecl("inner"), Leaf(RBrace, "}")])]))
      == ["inner"]
  {
    var kw := Leaf(Other, "mod");
    var body := Node(Other, BodyField, "{ mod inner; }", [Leaf(LBrace, "{"), ModDecl("inner"), Leaf(RBrace, "}")]);
    var name := Node(Identifier, NameField, "outer", []);
    var outer := Node(ModItem, NoField, "mod outer { mod inner; }", [kw, name, body]);
    assert FieldChild(outer, BodyField) == Some(body);
    assert OwnModule(outer) == [];
    InlineBodyModules();
    NoModules(kw);
    NoModules(name);
    assert ModulesBelow(outer, 1) == [];
    assert ModulesBelow(outer, 2) == [];
    assert ModulesBelow(outer, 3) == ["inner"];
  }

  /**
   * `mod adapters; mod risk;` at the head of a file: the walk pops the
   * file's items last first, so the names come out in reverse source order.
   */
  lemma ModulesInReverseOrder()
    ensures ModulesOf(Node(Other, NoField, "mod adapters;\nmod risk;\n", [ModDecl("adapters"), ModDecl("risk")]))
      == ["risk", "adapters"]
  {
    ModDeclModules("adapters");
    ModDeclModules("risk");
  }
}
