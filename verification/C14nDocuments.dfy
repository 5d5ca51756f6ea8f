/**
 Consequences for whole documents: a class of documents whose meaning is kept, and three
 small documents whose meaning is lost.
 */
module C14nDocuments {
  import opened Common
  import opened C14n
  import opened C14nMeaning
  import Canonicaliser

  // ---- Bindings that do not contradict each other ----

  predicate Functional(bs: seq<Binding>) {
    forall x, y | x in bs && y in bs && x.prefix == y.prefix :: x == y
  }

  lemma {:induction false} BindLookup(scope: Scope, bs: seq<Binding>)
    requires Functional(bs)
    ensures forall b | b in bs :: BoundTo(Bind(scope, bs), b)
    ensures forall p | forall b | b in bs :: b.prefix != p ::
              (p in Bind(scope, bs) <==> p in scope) && (p in scope ==> Bind(scope, bs)[p] == scope[p])
    decreases bs
  {
    if bs != [] {
      var first, rest := bs[0], bs[1..];
      var scope' := scope[first.prefix := first.uri];
      assert bs == [first] + rest;
      BindLookup(scope', rest);
      if forall b | b in rest :: b.prefix != first.prefix {
        assert BoundTo(Bind(scope', rest), first);
      } else {
        var b :| b in rest && b.prefix == first.prefix;
        assert b == first;
      }
    }
  }

  lemma {:induction false} UsesHaveUris(regular: seq<Attr>, attrs: seq<Attr>)
    ensures forall b | b in AttrUses(regular, attrs) :: b.uri != ""
    ensures forall a | a in regular && a.name.space != "" ::
              Binding(PrefixOf(a.name.space, attrs), a.name.space) in AttrUses(regular, attrs)
  {
    if regular != [] {
      UsesHaveUris(regular[1..], attrs);
      assert regular == [regular[0]] + regular[1..];
    }
  }

  // ---- Documents whose elements declare what they use ----

  /**
   The element is in a namespace, declares only what it visibly uses, uses no prefix twice,
   and every attribute in a namespace has a prefix.
   */
  predicate SelfContainedHead(name: Name, attrs: seq<Attr>) {
    && name.space != ""
    && DistinctPrefixes(Uses(name, attrs))
    && (forall b | b in LocalBindings(NsAttrs(attrs)) :: b in Uses(name, attrs))
    && DistinctNames(RegularAttrs(attrs))
    && (forall a | a in RegularAttrs(attrs) && a.name.space != "" :: PrefixOf(a.name.space, attrs) != "")
  }

  predicate SelfContained(forest: seq<Tree>) {
    forall i | 0 <= i < |forest| :: SelfContainedTree(forest[i])
  }

  predicate SelfContainedTree(tree: Tree) {
    match tree
    case Text(_) => true
    case Elem(name, attrs, kids) => SelfContainedHead(name, attrs) && SelfContained(kids)
  }

  lemma DistinctIsFunctional(bs: seq<Binding>)
    requires DistinctPrefixes(bs)
    ensures Functional(bs)
  {
    forall x, y | x in bs && y in bs && x.prefix == y.prefix ensures x == y {
      var i :| 0 <= i < |bs| && bs[i] == x;
      var j :| 0 <= j < |bs| && bs[j] == y;
      assert i == j;
    }
  }

  lemma {:induction false} NeededDistinct(above: Scope, uses: seq<Binding>)
    requires DistinctPrefixes(uses)
    ensures DistinctPrefixes(Needed(above, uses))
  {
    if uses != [] {
      var rest := uses[1..];
      assert forall i, j | 0 <= i < j < |rest| :: rest[i] == uses[i + 1] && rest[j] == uses[j + 1];
      NeededDistinct(above, rest);
      NeededSound(above, rest);
      forall b | b in Needed(above, rest) ensures b.prefix != uses[0].prefix {
        var i :| 0 <= i < |rest| && rest[i] == b;
        assert uses[i + 1] == b;
      }
    }
  }

  lemma DistinctPrefixesPermute(a: seq<Binding>, b: seq<Binding>)
    requires multiset(a) == multiset(b) && DistinctPrefixes(a)
    ensures DistinctPrefixes(b)
  {
    NoRepeatsPermute(a, b);
    DistinctIsFunctional(a);
    forall i, j | 0 <= i < j < |b| ensures b[i].prefix != b[j].prefix {
      assert b[i] in multiset(a) && b[j] in multiset(a);
      assert b[i] in a && b[j] in a;
    }
  }

  /** What an element registers is then exactly what it renders on top of what was rendered. */
  lemma RegisteredIsRendered(name: Name, attrs: seq<Attr>, scope: Scope)
    requires SelfContainedHead(name, attrs)
    ensures scope + Frame(scope, name, attrs) == Bind(scope, RenderedDecls(scope, name, attrs))
    ensures DistinctPrefixes(RenderedDecls(scope, name, attrs))
    ensures forall u | u in Uses(name, attrs) :: BoundTo(Bind(scope, RenderedDecls(scope, name, attrs)), u)
  {
    var uses, needed := Uses(name, attrs), Needed(scope, Uses(name, attrs));
    var decls := RenderedDecls(scope, name, attrs);
    var bindings := LocalBindings(NsAttrs(attrs)) + OwnUse(name, attrs) + needed;
    NeededSound(scope, uses);
    NeededDistinct(scope, uses);
    SortBySorts(needed, DeclKey);
    DistinctPrefixesPermute(needed, decls);
    DistinctIsFunctional(uses);
    UsesHaveUris(RegularAttrs(attrs), attrs);
    BindLookup(scope, decls);
    BindLookup(map[], bindings);
    forall u | u in uses ensures BoundTo(Bind(scope, decls), u) {
      if u !in needed { assert forall b | b in decls :: b.prefix != u.prefix; }
    }
    SameScope(scope, uses, bindings, decls);
  }

  lemma SameScope(scope: Scope, uses: seq<Binding>, bindings: seq<Binding>, decls: seq<Binding>)
    requires Functional(uses) && (forall b | b in bindings :: b in uses)
    requires forall b :: b in decls <==> b in uses && NeedsDecl(scope, b)
    requires forall b | b in decls :: b in bindings
    requires forall b | b in uses :: b.uri != ""
    ensures scope + Bind(map[], bindings) == Bind(scope, decls)
  {
    var left, right := scope + Bind(map[], bindings), Bind(scope, decls);
    forall p ensures SameAt(left, right, p) {
      if u :| u in uses && u.prefix == p {
        UsedPrefix(scope, uses, bindings, decls, u);
      } else {
        UnusedPrefix(scope, uses, bindings, decls, p);
      }
    }
    SameEverywhere(left, right);
  }

  lemma SameEverywhere(left: Scope, right: Scope)
    requires forall p :: SameAt(left, right, p)
    ensures left == right
  {
    assert left.Keys == right.Keys by {
      forall p ensures p in left <==> p in right { assert SameAt(left, right, p); }
    }
    forall p | p in left ensures left[p] == right[p] { assert SameAt(left, right, p); }
  }

  lemma UnusedPrefix(scope: Scope, uses: seq<Binding>, bindings: seq<Binding>, decls: seq<Binding>, p: string)
    requires Functional(uses) && (forall b | b in bindings :: b in uses)
    requires forall b | b in decls :: b in bindings
    requires forall u | u in uses :: u.prefix != p
    ensures SameAt(scope + Bind(map[], bindings), Bind(scope, decls), p)
  {
    BindLookup(scope, decls);
    BindLookup(map[], bindings);
    assert forall b | b in decls :: b.prefix != p;
    assert forall b | b in bindings :: b.prefix != p;
  }

  predicate SameAt(left: Scope, right: Scope, p: string) {
    (p in left <==> p in right) && (p in left ==> left[p] == right[p])
  }

  lemma UsedPrefix(scope: Scope, uses: seq<Binding>, bindings: seq<Binding>, decls: seq<Binding>, u: Binding)
    requires Functional(uses) && (forall b | b in bindings :: b in uses)
    requires forall b :: b in decls <==> b in uses && NeedsDecl(scope, b)
    requires forall b | b in decls :: b in bindings
    requires u in uses && u.uri != ""
    ensures SameAt(scope + Bind(map[], bindings), Bind(scope, decls), u.prefix)
  {
    BindLookup(scope, decls);
    BindLookup(map[], bindings);
    if u !in decls { assert forall b | b in decls :: b.prefix != u.prefix; }
    if u !in bindings { assert forall b | b in bindings :: b.prefix != u.prefix; }
  }

  lemma {:induction false} SelfContainedFaithful(forest: seq<Tree>, scope: Scope)
    requires SelfContained(forest)
    ensures Faithful(forest, scope, scope)
    decreases forest
  {
    forall i | 0 <= i < |forest| ensures FaithfulTree(forest[i], scope, scope) {
      match forest[i]
      case Text(_) =>
      case Elem(name, attrs, kids) =>
        RegisteredIsRendered(name, attrs, scope);
        UsesHaveUris(RegularAttrs(attrs), attrs);
        assert SelfContainedTree(forest[i]);
        assert OwnUse(name, attrs)[0] in Uses(name, attrs);
        SelfContainedFaithful(kids, scope + Frame(scope, name, attrs));
    }
  }

  /** The canonical form of a self-contained document means what the document means. */
  lemma SelfContainedPreserved(tokens: seq<Token>)
    requires WellNamed(Forest(tokens).0) && SelfContained(Forest(tokens).0)
    ensures Read(Canonicaliser.Canonical(tokens)) == Some(Meaning(Forest(tokens).0))
  {
    SelfContainedFaithful(Forest(tokens).0, ROOT_SCOPE);
    MeaningPreserved(tokens);
  }

  // ---- Three documents whose meaning is lost ----

  const PROTOCOL := "urn:oasis:names:tc:SAML:2.0:protocol"
  const ASSERTION := "urn:oasis:names:tc:SAML:2.0:assertion"

  /** <samlp:R xmlns:samlp="..." xmlns:saml="..."><saml:I></saml:I></samlp:R> */
  const RESPONSE_ATTRS := [Attr(Name("xmlns", "samlp"), PROTOCOL), Attr(Name("xmlns", "saml"), ASSERTION)]
  const INHERITED_PREFIX := [Start(Name(PROTOCOL, "R"), RESPONSE_ATTRS), Start(Name(ASSERTION, "I"), []), End, End]

  /**
   The root registers the unused prefix "saml" without rendering it; the child, falling
   back to that prefix, finds it registered and does not render it either.
   */
  lemma InheritedPrefixLost()
    ensures WellNamed(Forest(INHERITED_PREFIX).0)
    ensures Read(Canonicaliser.Canonical(INHERITED_PREFIX)) != Some(Meaning(Forest(INHERITED_PREFIX).0))
  {
    var root, child := Name(PROTOCOL, "R"), Name(ASSERTION, "I");
    var tree := Elem(root, RESPONSE_ATTRS, [Elem(child, [], [])]);
    NestedForest(root, RESPONSE_ATTRS, child, []);
    InheritedWellNamed();
    InheritedScopes();
    var registered := ROOT_SCOPE + Frame(ROOT_SCOPE, root, RESPONSE_ATTRS);
    var rendered := Bind(ROOT_SCOPE, RenderedDecls(ROOT_SCOPE, root, RESPONSE_ATTRS));
    assert !FaithfulHead(child, [], registered, rendered) by { ChildUnbound(registered, rendered); }
    assert !FaithfulTree(tree.kids[0], registered, rendered);
    assert !FaithfulTree(tree, ROOT_SCOPE, ROOT_SCOPE);
    MeaningPreserved(INHERITED_PREFIX);
  }

  lemma NestedForest(root: Name, attrs: seq<Attr>, child: Name, childAttrs: seq<Attr>)
    ensures Forest([Start(root, attrs), Start(child, childAttrs), End, End]).0
         == [Elem(root, attrs, [Elem(child, childAttrs, [])])]
  {
    var inner, outer := [Start(child, childAttrs), End, End], [Start(root, attrs), Start(child, childAttrs), End, End];
    assert inner[1..] == [End, End] && [End, End][1..] == [End] && [End][1..] == [];
    assert Forest([]) == ([], []);
    assert Forest([End]) == ([], []);
    assert Forest([End, End]) == ([], [End]);
    assert [Elem(child, childAttrs, [])] + [] == [Elem(child, childAttrs, [])];
    assert Forest(inner) == ([Elem(child, childAttrs, [])], []);
    assert outer[1..] == inner;
  }

  lemma ResponseNames()
    ensures NCName("R") && NCName("I") && NCName("samlp") && NCName("saml")
  {
  }

  lemma InheritedWellNamed()
    ensures WellNamed([Elem(Name(PROTOCOL, "R"), RESPONSE_ATTRS, [Elem(Name(ASSERTION, "I"), [], [])])])
  {
    ResponseNames();
    assert WellNamedTree(Elem(Name(ASSERTION, "I"), [], []));
    assert WellNamedTree(Elem(Name(PROTOCOL, "R"), RESPONSE_ATTRS, [Elem(Name(ASSERTION, "I"), [], [])]));
  }

  lemma OneDecl(b: Binding)
    requires b.prefix !in ROOT_SCOPE && b.uri != ""
    ensures Needed(ROOT_SCOPE, [b]) == [b] && SortBy([b], DeclKey) == [b]
  {
    assert [b][1..] == [];
    assert SortBy([], DeclKey) == [];
  }

  /** What the root declares, and what it uses. */
  lemma ResponseBindings()
    ensures LocalBindings(NsAttrs(RESPONSE_ATTRS)) == [Binding("samlp", PROTOCOL), Binding("saml", ASSERTION)]
    ensures Uses(Name(PROTOCOL, "R"), RESPONSE_ATTRS) == OwnUse(Name(PROTOCOL, "R"), RESPONSE_ATTRS) == [Binding("samlp", PROTOCOL)]
  {
    var attrs := RESPONSE_ATTRS;
    var samlp, saml := Binding("samlp", PROTOCOL), Binding("saml", ASSERTION);
    assert attrs[1..] == [attrs[1]] && attrs[1..][1..] == [];
    assert PrefixOf(PROTOCOL, attrs) == "samlp";
    assert NsAttrs([]) == RegularAttrs([]) == [];
    assert NsAttrs([attrs[1]]) == [attrs[1]] && RegularAttrs([attrs[1]]) == [];
    assert NsAttrs(attrs) == attrs && RegularAttrs(attrs) == [];
    assert LocalBinding(attrs[0]) == samlp && LocalBinding(attrs[1]) == saml;
    assert LocalBindings([]) == [];
    assert LocalBindings([attrs[1]]) == [saml];
  }

  /** An element that declares two namespaces and uses the first registers both and renders one. */
  lemma UnusedNotRendered(name: Name, attrs: seq<Attr>, used: Binding, unused: Binding)
    requires LocalBindings(NsAttrs(attrs)) == [used, unused] && used.prefix != unused.prefix && used.uri != ""
    requires Uses(name, attrs) == OwnUse(name, attrs) == [used]
    requires used.prefix !in ROOT_SCOPE && unused.prefix !in ROOT_SCOPE
    ensures BoundTo(ROOT_SCOPE + Frame(ROOT_SCOPE, name, attrs), unused)
    ensures unused.prefix !in Bind(ROOT_SCOPE, RenderedDecls(ROOT_SCOPE, name, attrs))
  {
    OneDecl(used);
    assert [used, unused] + [used] + [used] == [used, unused, used, used];
    RegistersBoth(used, unused);
    assert [used][1..] == [];
  }

  lemma RegistersBoth(used: Binding, unused: Binding)
    requires used.prefix != unused.prefix
    ensures BoundTo(ROOT_SCOPE + Bind(map[], [used, unused, used, used]), unused)
  {
    var bindings := [used, unused, used, used];
    assert Functional(bindings);
    BindLookup(map[], bindings);
    assert bindings[1] == unused && bindings[1] in bindings;
    assert BoundTo(Bind(map[], bindings), unused);
  }

  lemma InheritedScopes()
    ensures var registered := ROOT_SCOPE + Frame(ROOT_SCOPE, Name(PROTOCOL, "R"), RESPONSE_ATTRS);
            "saml" in registered && registered["saml"] == ASSERTION
    ensures "saml" !in Bind(ROOT_SCOPE, RenderedDecls(ROOT_SCOPE, Name(PROTOCOL, "R"), RESPONSE_ATTRS))
  {
    ResponseBindings();
    UnusedNotRendered(Name(PROTOCOL, "R"), RESPONSE_ATTRS, Binding("samlp", PROTOCOL), Binding("saml", ASSERTION));
  }

  lemma ChildUnbound(registered: Scope, rendered: Scope)
    requires "saml" in registered && registered["saml"] == ASSERTION && "saml" !in rendered
    ensures !FaithfulHead(Name(ASSERTION, "I"), [], registered, rendered)
  {
    var b := Binding("saml", ASSERTION);
    assert Uses(Name(ASSERTION, "I"), []) == [b];
    assert [b][1..] == [];
    assert Needed(registered, [b]) == [];
  }

  /** <a:R xmlns:a="u" a:k="v"></a:R> */
  const REPEATED_ATTRS := [Attr(Name("xmlns", "a"), "u"), Attr(Name("u", "k"), "v")]
  const REPEATED_USE := [Start(Name("u", "R"), REPEATED_ATTRS), End]

  /** needsDeclaration skips the element's own frame, so a binding used twice is rendered twice. */
  lemma RepeatedUseMalformed()
    ensures WellNamed(Forest(REPEATED_USE).0)
    ensures Read(Canonicaliser.Canonical(REPEATED_USE)) != Some(Meaning(Forest(REPEATED_USE).0))
  {
    var attrs, name := REPEATED_ATTRS, Name("u", "R");
    RepeatedForest();
    RepeatedDecls();
    assert !FaithfulHead(name, attrs, ROOT_SCOPE, ROOT_SCOPE);
    assert !FaithfulTree(Elem(name, attrs, []), ROOT_SCOPE, ROOT_SCOPE);
    MeaningPreserved(REPEATED_USE);
  }

  lemma RepeatedForest()
    ensures Forest(REPEATED_USE).0 == [Elem(Name("u", "R"), REPEATED_ATTRS, [])]
    ensures WellNamed(Forest(REPEATED_USE).0)
  {
    assert REPEATED_USE[1..] == [End] && [End][1..] == [];
    assert Forest([]) == ([], []);
    assert Forest([End]) == ([], []);
    assert Forest(REPEATED_USE).0 == [Elem(Name("u", "R"), REPEATED_ATTRS, [])];
    assert NCName("R") && NCName("a") && NCName("k");
    assert WellNamedTree(Elem(Name("u", "R"), REPEATED_ATTRS, []));
  }

  lemma RepeatedDecls()
    ensures RenderedDecls(ROOT_SCOPE, Name("u", "R"), REPEATED_ATTRS) == [Binding("a", "u"), Binding("a", "u")]
  {
    var attrs, b, name := REPEATED_ATTRS, Binding("a", "u"), Name("u", "R");
    assert attrs[1..] == [attrs[1]] && attrs[1..][1..] == [];
    assert PrefixOf("u", attrs) == "a";
    assert RegularAttrs(attrs) == [attrs[1]] && [attrs[1]][1..] == [];
    assert AttrUses([attrs[1]], attrs) == [b];
    assert Uses(name, attrs) == [b, b] && [b, b][1..] == [b] && [b][1..] == [];
    assert "a" != "xml";
    assert Needed(ROOT_SCOPE, [b]) == [b];
    assert Needed(ROOT_SCOPE, [b, b]) == [b, b];
    assert SortBy([b], DeclKey) == [b];
    KeyLessOrder(DeclKey(b), DeclKey(b), DeclKey(b));
    assert SortBy([b, b], DeclKey) == [b, b];
  }

  /** <w xmlns="d"><r xmlns=""></r></w> */
  const DEFAULT_ATTRS := [Attr(Name("", "xmlns"), "d")]
  const NO_DEFAULT_ATTRS := [Attr(Name("", "xmlns"), "")]
  const CAPTURED := [Start(Name("d", "w"), DEFAULT_ATTRS), Start(Name("", "r"), NO_DEFAULT_ATTRS), End, End]

  /** An element in no namespace uses no binding, so its xmlns="" is not written and the default above reaches it. */
  lemma DefaultNamespaceCaptures()
    ensures WellNamed(Forest(CAPTURED).0)
    ensures Read(Canonicaliser.Canonical(CAPTURED)) != Some(Meaning(Forest(CAPTURED).0))
  {
    var root, child := Name("d", "w"), Name("", "r");
    var tree := Elem(root, DEFAULT_ATTRS, [Elem(child, NO_DEFAULT_ATTRS, [])]);
    NestedForest(root, DEFAULT_ATTRS, child, NO_DEFAULT_ATTRS);
    CapturedWellNamed();
    var registered := ROOT_SCOPE + Frame(ROOT_SCOPE, root, DEFAULT_ATTRS);
    var rendered := Bind(ROOT_SCOPE, RenderedDecls(ROOT_SCOPE, root, DEFAULT_ATTRS));
    DefaultRendered();
    NothingUsed(registered);
    assert !FaithfulHead(child, NO_DEFAULT_ATTRS, registered, rendered);
    assert !FaithfulTree(tree.kids[0], registered, rendered);
    assert !FaithfulTree(tree, ROOT_SCOPE, ROOT_SCOPE);
    MeaningPreserved(CAPTURED);
  }

  lemma CapturedWellNamed()
    ensures WellNamed([Elem(Name("d", "w"), DEFAULT_ATTRS, [Elem(Name("", "r"), NO_DEFAULT_ATTRS, [])])])
  {
    assert NCName("w") && NCName("r");
    assert WellNamedTree(Elem(Name("", "r"), NO_DEFAULT_ATTRS, []));
    assert WellNamedTree(Elem(Name("d", "w"), DEFAULT_ATTRS, [Elem(Name("", "r"), NO_DEFAULT_ATTRS, [])]));
  }

  lemma DefaultRendered()
    ensures BoundTo(Bind(ROOT_SCOPE, RenderedDecls(ROOT_SCOPE, Name("d", "w"), DEFAULT_ATTRS)), Binding("", "d"))
  {
    var b := Binding("", "d");
    assert DEFAULT_ATTRS[1..] == [];
    assert RegularAttrs(DEFAULT_ATTRS) == [];
    assert PrefixOf("d", DEFAULT_ATTRS) == "";
    assert Uses(Name("d", "w"), DEFAULT_ATTRS) == [b];
    OneDecl(b);
    assert [b][1..] == [];
  }

  lemma NothingUsed(registered: Scope)
    ensures RenderedDecls(registered, Name("", "r"), NO_DEFAULT_ATTRS) == []
  {
    assert NO_DEFAULT_ATTRS[1..] == [];
    assert RegularAttrs(NO_DEFAULT_ATTRS) == [];
    assert Uses(Name("", "r"), NO_DEFAULT_ATTRS) == [];
  }
}
