/**
 What a namespace-aware reader (Namespaces in XML 1.0) makes of the canonical output,
 compared with what the input document says: expanded element names, attributes with
 expanded names in canonical order, and the characters between the tags.
 */
module C14nMeaning {
  import opened Common
  import opened C14n
  import opened XmlReader
  import Canonicaliser

  datatype Item = Element(name: Name, attrs: seq<Attr>, kids: seq<Item>) | Character(c: char)

  // ---- The input's meaning ----

  function Characters(s: string): seq<Item> {
    if s == "" then [] else [Character(s[0])] + Characters(s[1..])
  }

  function Meaning(forest: seq<Tree>): seq<Item> {
    if forest == [] then [] else TreeMeaning(forest[0]) + Meaning(forest[1..])
  }

  function TreeMeaning(tree: Tree): seq<Item> {
    match tree
    case Text(s) => Characters(s)
    case Elem(name, attrs, kids) => [Element(name, SortedAttrs(attrs), Meaning(kids))]
  }

  // ---- Namespace processing of raw markup ----

  function ColonAt(s: string): (n: nat)
    ensures n <= |s| && ':' !in s[..n] && (n < |s| ==> s[n] == ':')
  {
    if s == "" || s[0] == ':' then 0
    else assert s[..1 + ColonAt(s[1..])] == [s[0]] + s[1..][..ColonAt(s[1..])]; 1 + ColonAt(s[1..])
  }

  /** The expanded name; an unprefixed attribute is in no namespace (section 6.2). */
  function Expand(raw: string, scope: Scope, isElement: bool): Option<Name> {
    var n := ColonAt(raw);
    if n == |raw| then
      Some(Name(if isElement && "" in scope then scope[""] else "", raw))
    else if raw[..n] in scope then Some(Name(scope[raw[..n]], raw[n + 1..]))
    else None
  }

  predicate IsRawDecl(a: RawAttr) { a.name == "xmlns" || "xmlns:" <= a.name }

  function RawScope(scope: Scope, attrs: seq<RawAttr>): Scope
    decreases attrs
  {
    if attrs == [] then scope
    else if !IsRawDecl(attrs[0]) then RawScope(scope, attrs[1..])
    else RawScope(scope[DeclaredPrefix(attrs[0]) := attrs[0].value], attrs[1..])
  }

  function DeclaredPrefix(a: RawAttr): string
    requires IsRawDecl(a)
  {
    if a.name == "xmlns" then "" else a.name[6..]
  }

  function ExpandAttrs(attrs: seq<RawAttr>, scope: Scope): Option<seq<Attr>> {
    if attrs == [] then Some([])
    else if IsRawDecl(attrs[0]) then ExpandAttrs(attrs[1..], scope)
    else
      match Expand(attrs[0].name, scope, false)
      case None => None
      case Some(name) =>
        match ExpandAttrs(attrs[1..], scope)
        case None => None
        case Some(rest) => Some([Attr(name, attrs[0].value)] + rest)
  }

  predicate NoDuplicates(attrs: seq<RawAttr>) {
    forall i, j | 0 <= i < j < |attrs| :: attrs[i].name != attrs[j].name
  }

  /** None when the markup is not namespace-well-formed. */
  function Resolve(items: seq<Raw>, scope: Scope): Option<seq<Item>> {
    if items == [] then Some([])
    else
      match ResolveItem(items[0], scope)
      case None => None
      case Some(item) =>
        match Resolve(items[1..], scope)
        case None => None
        case Some(rest) => Some([item] + rest)
  }

  function ResolveItem(item: Raw, scope: Scope): Option<Item> {
    match item
    case RawChar(c) => Some(Character(c))
    case RawElem(tag, attrs, kids) =>
      match ResolveHead(tag, attrs, scope)
      case None => None
      case Some(head) =>
        match Resolve(kids, RawScope(scope, attrs))
        case None => None
        case Some(content) => Some(Element(head.0, head.1, content))
  }

  function ResolveHead(tag: string, attrs: seq<RawAttr>, scope: Scope): Option<(Name, seq<Attr>)> {
    var inner := RawScope(scope, attrs);
    var name := Expand(tag, inner, true);
    var expanded := ExpandAttrs(attrs, inner);
    if NoDuplicates(attrs) && name.Some? && expanded.Some? then Some((name.value, expanded.value)) else None
  }

  /** Reading a document: markup first, then namespaces. */
  function Read(s: string): Option<seq<Item>> {
    match ReadDocument(s)
    case None => None
    case Some(items) => Resolve(items, ROOT_SCOPE)
  }

  // ---- Names as the decoder delivers them for a namespace-well-formed document ----

  predicate NCName(s: string) { NameText(s) && ':' !in s && s != "xmlns" }

  predicate WellNamedAttr(a: Attr) { IsDefaultDecl(a) || NCName(a.name.local) }

  predicate WellNamed(forest: seq<Tree>) {
    forall i | 0 <= i < |forest| :: WellNamedTree(forest[i])
  }

  predicate WellNamedTree(tree: Tree) {
    match tree
    case Text(_) => true
    case Elem(name, attrs, kids) =>
      NCName(name.local) && (forall i | 0 <= i < |attrs| :: WellNamedAttr(attrs[i])) && WellNamed(kids)
  }

  // ---- Exactly when the output still means what the input means ----

  predicate DistinctPrefixes(bs: seq<Binding>) {
    forall i, j | 0 <= i < j < |bs| :: bs[i].prefix != bs[j].prefix
  }

  predicate DistinctNames(attrs: seq<Attr>) {
    forall i, j | 0 <= i < j < |attrs| :: attrs[i].name != attrs[j].name
  }

  predicate BoundTo(scope: Scope, b: Binding) {
    b.prefix in scope && scope[b.prefix] == b.uri
  }

  /** An attribute name in a namespace needs a prefix, bound to that namespace. */
  predicate NameFaithful(name: Name, attrs: seq<Attr>, scope: Scope) {
    var p := PrefixOf(name.space, attrs);
    name.space != "" ==> p != "" && BoundTo(scope, Binding(p, name.space))
  }

  /**
   The check on one element. `registered` holds every binding the ancestors declared or used;
   `rendered` holds those that were written out. needsDeclaration consults the first,
   the reader only ever sees the second.
   */
  predicate FaithfulHead(name: Name, attrs: seq<Attr>, registered: Scope, rendered: Scope) {
    var decls := RenderedDecls(registered, name, attrs);
    var inner := Bind(rendered, decls);
    && DistinctPrefixes(decls)
    && DistinctNames(RegularAttrs(attrs))
    && (if name.space == "" then "" !in inner || inner[""] == ""
        else BoundTo(inner, Binding(PrefixOf(name.space, attrs), name.space)))
    && forall a | a in RegularAttrs(attrs) :: NameFaithful(a.name, attrs, inner)
  }

  predicate Faithful(forest: seq<Tree>, registered: Scope, rendered: Scope) {
    forall i | 0 <= i < |forest| :: FaithfulTree(forest[i], registered, rendered)
  }

  predicate FaithfulTree(tree: Tree, registered: Scope, rendered: Scope) {
    match tree
    case Text(_) => true
    case Elem(name, attrs, kids) =>
      && FaithfulHead(name, attrs, registered, rendered)
      && Faithful(kids, registered + Frame(registered, name, attrs),
                  Bind(rendered, RenderedDecls(registered, name, attrs)))
  }

  // ---- Prefixes and qualified names ----

  lemma {:induction false} PrefixShape(uri: string, attrs: seq<Attr>)
    requires forall i | 0 <= i < |attrs| :: WellNamedAttr(attrs[i])
    ensures PrefixOf(uri, attrs) == "" || NCName(PrefixOf(uri, attrs))
  {
    if attrs == [] {
      WellKnownShape(uri);
    } else {
      assert WellNamedAttr(attrs[0]);
      PrefixShape(uri, attrs[1..]);
    }
  }

  lemma WellKnownShape(uri: string)
    ensures WellKnownPrefix(uri) == "" || NCName(WellKnownPrefix(uri))
  {
    SamlNames();
    OtherNames();
  }

  lemma SamlNames()
    ensures NCName("saml") && NCName("samlp") && NCName("md")
  {
  }

  lemma OtherNames()
    ensures NCName("ds") && NCName("xsi") && NCName("xml")
  {
  }

  lemma {:induction false} ColonAtPrefix(p: string, rest: string)
    requires ':' !in p
    ensures ColonAt(p + ":" + rest) == |p| && (p + ":" + rest)[..|p|] == p && (p + ":" + rest)[|p| + 1..] == rest
  {
    var s := p + ":" + rest;
    if p != "" {
      assert s[1..] == p[1..] + ":" + rest;
      ColonAtPrefix(p[1..], rest);
    }
  }

  lemma NoColon(s: string)
    requires ':' !in s
    ensures ColonAt(s) == |s|
  {
  }

  lemma QualifiedShape(name: Name, attrs: seq<Attr>)
    requires NCName(name.local) && forall i | 0 <= i < |attrs| :: WellNamedAttr(attrs[i])
    ensures NameText(QualifiedName(name, attrs))
    ensures !IsRawDecl(RawAttr(QualifiedName(name, attrs), ""))
  {
    PrefixShape(name.space, attrs);
    var p, q := PrefixOf(name.space, attrs), QualifiedName(name, attrs);
    if q != name.local {
      forall i | 0 <= i < |q| ensures NameChar(q[i]) {
        assert q[i] == if i < |p| then p[i] else if i == |p| then ':' else name.local[i - |p| - 1];
      }
      ColonAtPrefix(p, name.local);
      if "xmlns:" <= q { PrefixedXmlns(p, name.local); }
    } else {
      assert |q| > 5 ==> q[5] != "xmlns:"[5];
    }
  }

  lemma PrefixedXmlns(p: string, local: string)
    requires ':' !in p && "xmlns:" <= p + ":" + local
    ensures p == "xmlns"
  {
    var q := p + ":" + local;
    ColonAtPrefix(p, local);
    var tail := q[6..];
    assert q == "xmlns" + ":" + tail;
    ColonAtPrefix("xmlns", tail);
  }

  /** A qualified name is read as the expanded name it was made from, just when its prefix is bound so. */
  lemma ExpandAttrName(name: Name, attrs: seq<Attr>, scope: Scope)
    requires NCName(name.local) && forall i | 0 <= i < |attrs| :: WellNamedAttr(attrs[i])
    ensures Expand(QualifiedName(name, attrs), scope, false) == Some(name)
       <==> NameFaithful(name, attrs, scope)
  {
    PrefixShape(name.space, attrs);
    NoColon(name.local);
    ColonAtPrefix(PrefixOf(name.space, attrs), name.local);
  }

  lemma ExpandElementName(name: Name, attrs: seq<Attr>, scope: Scope)
    requires NCName(name.local) && forall i | 0 <= i < |attrs| :: WellNamedAttr(attrs[i])
    ensures Expand(QualifiedName(name, attrs), scope, true) == Some(name)
       <==> (if name.space == "" then "" !in scope || scope[""] == ""
             else BoundTo(scope, Binding(PrefixOf(name.space, attrs), name.space)))
  {
    PrefixShape(name.space, attrs);
    NoColon(name.local);
    ColonAtPrefix(PrefixOf(name.space, attrs), name.local);
  }

  // ---- The attributes of one start tag ----

  lemma {:induction false} RawDeclsAt(bs: seq<Binding>)
    ensures |RawDecls(bs)| == |bs|
    ensures forall i | 0 <= i < |bs| :: RawDecls(bs)[i] == RawDecl(bs[i])
  {
    if bs != [] { RawDeclsAt(bs[1..]); }
  }

  lemma {:induction false} RawRegularAt(regular: seq<Attr>, attrs: seq<Attr>)
    ensures |RawRegular(regular, attrs)| == |regular|
    ensures forall i | 0 <= i < |regular| ::
      RawRegular(regular, attrs)[i] == RawAttr(QualifiedName(regular[i].name, attrs), regular[i].value)
  {
    if regular != [] { RawRegularAt(regular[1..], attrs); }
  }

  lemma RawScopeDecl(scope: Scope, a: RawAttr, rest: seq<RawAttr>)
    requires IsRawDecl(a)
    ensures RawScope(scope, [a] + rest) == RawScope(scope[DeclaredPrefix(a) := a.value], rest)
  {
    assert ([a] + rest)[1..] == rest;
  }

  lemma {:induction false} ScopeOfDecls(scope: Scope, bs: seq<Binding>, regular: seq<RawAttr>)
    requires forall a | a in regular :: !IsRawDecl(a)
    ensures RawScope(scope, RawDecls(bs) + regular) == Bind(scope, bs)
    decreases bs
  {
    if bs == [] {
      assert RawDecls(bs) + regular == regular;
      ScopeOfRegular(scope, regular);
    } else {
      var decl := RawDecl(bs[0]);
      assert RawDecls(bs) + regular == [decl] + (RawDecls(bs[1..]) + regular);
      RawDeclPrefix(bs[0]);
      RawScopeDecl(scope, decl, RawDecls(bs[1..]) + regular);
      ScopeOfDecls(scope[bs[0].prefix := bs[0].uri], bs[1..], regular);
    }
  }

  lemma {:induction false} ScopeOfRegular(scope: Scope, regular: seq<RawAttr>)
    requires forall a | a in regular :: !IsRawDecl(a)
    ensures RawScope(scope, regular) == scope
  {
    if regular != [] {
      assert regular[0] in regular;
      ScopeOfRegular(scope, regular[1..]);
    }
  }

  lemma RawDeclPrefix(b: Binding)
    ensures IsRawDecl(RawDecl(b))
    ensures DeclaredPrefix(RawDecl(b)) == b.prefix
  {
    var name := RawDecl(b).name;
    if b.prefix != "" {
      assert |name| > 5 && name[6..] == b.prefix && name[..6] == "xmlns:";
    }
  }

  lemma ExpandSkipsDecl(a: RawAttr, rest: seq<RawAttr>, scope: Scope)
    requires IsRawDecl(a)
    ensures ExpandAttrs([a] + rest, scope) == ExpandAttrs(rest, scope)
  {
    assert ([a] + rest)[1..] == rest;
  }

  lemma {:induction false} ExpandSkipsDecls(bs: seq<Binding>, rest: seq<RawAttr>, scope: Scope)
    ensures ExpandAttrs(RawDecls(bs) + rest, scope) == ExpandAttrs(rest, scope)
  {
    if bs == [] {
      assert RawDecls(bs) + rest == rest;
    } else {
      var decl := RawDecl(bs[0]);
      assert RawDecls(bs) + rest == [decl] + (RawDecls(bs[1..]) + rest);
      RawDeclPrefix(bs[0]);
      ExpandSkipsDecl(decl, RawDecls(bs[1..]) + rest, scope);
      ExpandSkipsDecls(bs[1..], rest, scope);
    }
  }

  lemma {:induction false} ExpandRegular(regular: seq<Attr>, attrs: seq<Attr>, scope: Scope)
    requires forall i | 0 <= i < |attrs| :: WellNamedAttr(attrs[i])
    requires forall a | a in regular :: NCName(a.name.local)
    ensures ExpandAttrs(RawRegular(regular, attrs), scope) == Some(regular)
       <==> forall a | a in regular :: NameFaithful(a.name, attrs, scope)
  {
    if regular != [] {
      var a := regular[0];
      assert a in regular;
      QualifiedShape(a.name, attrs);
      ExpandAttrName(a.name, attrs, scope);
      ExpandRegular(regular[1..], attrs, scope);
      assert RawRegular(regular, attrs)[1..] == RawRegular(regular[1..], attrs);
      assert regular == [a] + regular[1..];
    }
  }

  lemma {:induction false} RegularSound(attrs: seq<Attr>)
    ensures forall a :: a in RegularAttrs(attrs) <==> a in attrs && !IsNsDecl(a)
  {
    if attrs != [] {
      RegularSound(attrs[1..]);
      assert attrs == [attrs[0]] + attrs[1..];
    }
  }

  lemma SortedAttrsOf(attrs: seq<Attr>)
    requires forall i | 0 <= i < |attrs| :: WellNamedAttr(attrs[i])
    ensures forall a :: a in SortedAttrs(attrs) <==> a in RegularAttrs(attrs)
    ensures multiset(SortedAttrs(attrs)) == multiset(RegularAttrs(attrs))
    ensures forall a | a in SortedAttrs(attrs) :: NCName(a.name.local)
  {
    SortBySorts(RegularAttrs(attrs), AttrKey);
    RegularSound(attrs);
  }

  /** Distinctness of names survives sorting, in both directions. */
  lemma DistinctNamesPermute(a: seq<Attr>, b: seq<Attr>)
    requires multiset(a) == multiset(b) && DistinctNames(a)
    ensures DistinctNames(b)
  {
    NoRepeatsPermute(a, b);
    forall i, j | 0 <= i < j < |b| ensures b[i].name != b[j].name {
      assert b[i] in multiset(a) && b[j] in multiset(a);
      assert b[i] in a && b[j] in a;
    }
  }

  /** No raw attribute name occurs twice, just when no prefix and no expanded name does. */
  lemma NoDuplicateRaw(decls: seq<Binding>, regular: seq<Attr>, attrs: seq<Attr>, scope: Scope)
    requires forall i | 0 <= i < |attrs| :: WellNamedAttr(attrs[i])
    requires forall a | a in regular :: NCName(a.name.local) && NameFaithful(a.name, attrs, scope)
    ensures NoDuplicates(RawDecls(decls) + RawRegular(regular, attrs))
       <==> DistinctPrefixes(decls) && DistinctNames(regular)
  {
    NoDuplicateDecls(decls);
    NoDuplicateRegular(regular, attrs, scope);
    NoDuplicatesConcat(RawDecls(decls), RawRegular(regular, attrs));
  }

  lemma NoDuplicateDecls(decls: seq<Binding>)
    ensures NoDuplicates(RawDecls(decls)) <==> DistinctPrefixes(decls)
    ensures forall a | a in RawDecls(decls) :: IsRawDecl(a)
  {
    RawDeclsAt(decls);
    forall i | 0 <= i < |decls| ensures IsRawDecl(RawDecl(decls[i])) {
      RawDeclPrefix(decls[i]);
    }
    forall i, j | 0 <= i < j < |decls|
      ensures RawDecls(decls)[i].name != RawDecls(decls)[j].name <==> decls[i].prefix != decls[j].prefix
    {
      RawDeclPrefix(decls[i]);
      RawDeclPrefix(decls[j]);
    }
  }

  lemma RegularNotDecls(regular: seq<Attr>, attrs: seq<Attr>)
    requires forall i | 0 <= i < |attrs| :: WellNamedAttr(attrs[i])
    requires forall a | a in regular :: NCName(a.name.local)
    ensures forall a | a in RawRegular(regular, attrs) :: !IsRawDecl(a)
  {
    RawRegularAt(regular, attrs);
    forall i | 0 <= i < |regular| ensures !IsRawDecl(RawRegular(regular, attrs)[i]) {
      assert regular[i] in regular;
      QualifiedShape(regular[i].name, attrs);
    }
  }

  lemma NoDuplicateRegular(regular: seq<Attr>, attrs: seq<Attr>, scope: Scope)
    requires forall i | 0 <= i < |attrs| :: WellNamedAttr(attrs[i])
    requires forall a | a in regular :: NCName(a.name.local) && NameFaithful(a.name, attrs, scope)
    ensures NoDuplicates(RawRegular(regular, attrs)) <==> DistinctNames(regular)
    ensures forall a | a in RawRegular(regular, attrs) :: !IsRawDecl(a)
  {
    var raw := RawRegular(regular, attrs);
    RawRegularAt(regular, attrs);
    RegularNotDecls(regular, attrs);
    forall i, j | 0 <= i < j < |regular|
      ensures raw[i].name != raw[j].name <==> regular[i].name != regular[j].name
    {
      assert regular[i] in regular && regular[j] in regular;
      ExpandAttrName(regular[i].name, attrs, scope);
      ExpandAttrName(regular[j].name, attrs, scope);
    }
  }

  lemma NoDuplicatesConcat(x: seq<RawAttr>, y: seq<RawAttr>)
    requires forall a | a in x :: IsRawDecl(a)
    requires forall a | a in y :: !IsRawDecl(a)
    ensures NoDuplicates(x + y) <==> NoDuplicates(x) && NoDuplicates(y)
  {
    var n := |x|;
    if NoDuplicates(x + y) {
      forall i, j | 0 <= i < j < |x| ensures x[i].name != x[j].name {
        assert (x + y)[i] == x[i] && (x + y)[j] == x[j];
      }
      forall i, j | 0 <= i < j < |y| ensures y[i].name != y[j].name {
        assert (x + y)[n + i] == y[i] && (x + y)[n + j] == y[j];
      }
    }
    if NoDuplicates(x) && NoDuplicates(y) {
      forall i, j | 0 <= i < j < n + |y| ensures (x + y)[i].name != (x + y)[j].name {
        if i < n <= j { assert x[i] in x && y[j - n] in y; }
      }
    }
  }

  /** One start tag means what the input's start tag means, exactly when it passes the check. */
  lemma HeadScope(name: Name, attrs: seq<Attr>, registered: Scope, rendered: Scope)
    requires forall i | 0 <= i < |attrs| :: WellNamedAttr(attrs[i])
    ensures RawScope(rendered, RawAttrs(registered, name, attrs))
         == Bind(rendered, RenderedDecls(registered, name, attrs))
  {
    SortedAttrsOf(attrs);
    RegularNotDecls(SortedAttrs(attrs), attrs);
    ScopeOfDecls(rendered, RenderedDecls(registered, name, attrs), RawRegular(SortedAttrs(attrs), attrs));
  }

  lemma DistinctNamesSorted(attrs: seq<Attr>)
    ensures DistinctNames(SortedAttrs(attrs)) <==> DistinctNames(RegularAttrs(attrs))
  {
    var sorted, regular := SortedAttrs(attrs), RegularAttrs(attrs);
    SortBySorts(regular, AttrKey);
    if DistinctNames(sorted) { DistinctNamesPermute(sorted, regular); }
    if DistinctNames(regular) { DistinctNamesPermute(regular, sorted); }
  }

  lemma HeadResolves(name: Name, attrs: seq<Attr>, registered: Scope, rendered: Scope)
    requires NCName(name.local) && forall i | 0 <= i < |attrs| :: WellNamedAttr(attrs[i])
    ensures ResolveHead(QualifiedName(name, attrs), RawAttrs(registered, name, attrs), rendered)
              == Some((name, SortedAttrs(attrs)))
       <==> FaithfulHead(name, attrs, registered, rendered)
  {
    var decls, sorted := RenderedDecls(registered, name, attrs), SortedAttrs(attrs);
    var inner := Bind(rendered, decls);
    HeadScope(name, attrs, registered, rendered);
    SortedAttrsOf(attrs);
    ExpandSkipsDecls(decls, RawRegular(sorted, attrs), inner);
    ExpandRegular(sorted, attrs, inner);
    ExpandElementName(name, attrs, inner);
    if forall a | a in sorted :: NameFaithful(a.name, attrs, inner) {
      NoDuplicateRaw(decls, sorted, attrs, inner);
      DistinctNamesSorted(attrs);
    }
  }

  // ---- Whole documents ----

  lemma {:induction false} ResolveConcat(a: seq<Raw>, b: seq<Raw>, scope: Scope)
    ensures Resolve(a + b, scope).Some? <==> Resolve(a, scope).Some? && Resolve(b, scope).Some?
    ensures Resolve(a + b, scope).Some? ==>
              Resolve(a + b, scope).value == Resolve(a, scope).value + Resolve(b, scope).value
  {
    if a == [] {
      assert a + b == b;
    } else {
      assert (a + b)[1..] == a[1..] + b;
      ResolveConcat(a[1..], b, scope);
    }
  }

  lemma {:induction false} ResolveChars(s: string, scope: Scope)
    ensures Resolve(RawChars(s), scope) == Some(Characters(s))
  {
    if s != "" {
      assert RawChars(s)[1..] == RawChars(s[1..]);
      ResolveChars(s[1..], scope);
    }
  }

  /** A raw tree contributes as many items as the input subtree, so results can be compared piecewise. */
  lemma {:induction false} ResolveLength(items: seq<Raw>, scope: Scope)
    ensures Resolve(items, scope).Some? ==> |Resolve(items, scope).value| == |items|
  {
    if items != [] { ResolveLength(items[1..], scope); }
  }

  lemma {:induction false} CharactersLength(s: string)
    ensures |Characters(s)| == |s| == |RawChars(s)|
  {
    if s != "" { CharactersLength(s[1..]); }
  }

  lemma {:induction false} ResolveTree(tree: Tree, registered: Scope, rendered: Scope)
    requires WellNamedTree(tree)
    ensures Resolve(CanonTree(tree, registered), rendered) == Some(TreeMeaning(tree))
       <==> FaithfulTree(tree, registered, rendered)
    decreases tree, 0
  {
    match tree
    case Text(s) => ResolveChars(s, rendered);
    case Elem(name, attrs, kids) =>
      HeadScope(name, attrs, registered, rendered);
      HeadResolves(name, attrs, registered, rendered);
      ResolveForest(kids, registered + Frame(registered, name, attrs),
                    Bind(rendered, RenderedDecls(registered, name, attrs)));
      ResolveOne(CanonTree(tree, registered)[0], rendered);
  }

  lemma ResolveOne(item: Raw, scope: Scope)
    ensures Resolve([item], scope)
         == if ResolveItem(item, scope).Some? then Some([ResolveItem(item, scope).value]) else None
  {
    assert [item][1..] == [] && Resolve([], scope) == Some([]);
    if ResolveItem(item, scope).Some? { assert [ResolveItem(item, scope).value] + [] == [ResolveItem(item, scope).value]; }
  }

  lemma {:induction false} ResolveForest(forest: seq<Tree>, registered: Scope, rendered: Scope)
    requires WellNamed(forest)
    ensures Resolve(Canon(forest, registered), rendered) == Some(Meaning(forest))
       <==> Faithful(forest, registered, rendered)
    decreases forest, 1
  {
    if forest != [] {
      var a, b := CanonTree(forest[0], registered), Canon(forest[1..], registered);
      ResolveTree(forest[0], registered, rendered);
      ResolveForest(forest[1..], registered, rendered);
      ResolveConcat(a, b, rendered);
      ResolvedLength(forest[0], registered, rendered);
      FaithfulCons(forest, registered, rendered);
      SplitEquality(Resolve(a, rendered), Resolve(b, rendered), Resolve(a + b, rendered),
                    TreeMeaning(forest[0]), Meaning(forest[1..]));
    }
  }

  lemma ResolvedLength(tree: Tree, registered: Scope, rendered: Scope)
    ensures var r := Resolve(CanonTree(tree, registered), rendered);
      r.Some? ==> |r.value| == |TreeMeaning(tree)|
  {
    ResolveLength(CanonTree(tree, registered), rendered);
    if tree.Text? { CharactersLength(tree.text); }
  }

  lemma FaithfulCons(forest: seq<Tree>, registered: Scope, rendered: Scope)
    requires forest != []
    ensures Faithful(forest, registered, rendered)
       <==> FaithfulTree(forest[0], registered, rendered) && Faithful(forest[1..], registered, rendered)
  {
    if FaithfulTree(forest[0], registered, rendered) && Faithful(forest[1..], registered, rendered) {
      forall i | 0 <= i < |forest| ensures FaithfulTree(forest[i], registered, rendered) {
        if i > 0 { assert forest[i] == forest[1..][i - 1]; }
      }
    }
  }

  lemma SplitEquality(a: Option<seq<Item>>, b: Option<seq<Item>>, ab: Option<seq<Item>>, x: seq<Item>, y: seq<Item>)
    requires ab == if a.Some? && b.Some? then Some(a.value + b.value) else None
    requires a.Some? ==> |a.value| == |x|
    ensures ab == Some(x + y) <==> a == Some(x) && b == Some(y)
  {
    if ab == Some(x + y) {
      assert a.value == ab.value[..|x|] == x;
      assert b.value == ab.value[|x|..] == y;
    }
  }

  lemma {:induction false} CanonPrintable(forest: seq<Tree>, above: Scope)
    requires WellNamed(forest)
    ensures Printable(Canon(forest, above))
    decreases forest, 1
  {
    if forest != [] {
      CanonTreePrintable(forest[0], above);
      CanonPrintable(forest[1..], above);
    }
  }

  lemma {:induction false} CanonTreePrintable(tree: Tree, above: Scope)
    requires WellNamedTree(tree)
    ensures Printable(CanonTree(tree, above))
    decreases tree, 0
  {
    match tree
    case Text(s) => CharsPrintable(s);
    case Elem(name, attrs, kids) =>
      CanonPrintable(kids, above + Frame(above, name, attrs));
      QualifiedShape(name, attrs);
      RawAttrsNamed(name, attrs, above);
  }

  lemma {:induction false} CharsPrintable(s: string)
    ensures Printable(RawChars(s))
  {
    if s != "" { CharsPrintable(s[1..]); }
  }

  lemma {:induction false} UsesNamed(regular: seq<Attr>, attrs: seq<Attr>)
    requires forall i | 0 <= i < |attrs| :: WellNamedAttr(attrs[i])
    ensures forall b | b in AttrUses(regular, attrs) :: b.prefix == "" || NCName(b.prefix)
  {
    if regular != [] {
      PrefixShape(regular[0].name.space, attrs);
      UsesNamed(regular[1..], attrs);
    }
  }

  lemma {:induction false} NeededSound(above: Scope, uses: seq<Binding>)
    ensures forall b :: b in Needed(above, uses) <==> b in uses && NeedsDecl(above, b)
  {
    if uses != [] {
      NeededSound(above, uses[1..]);
      assert uses == [uses[0]] + uses[1..];
    }
  }

  lemma RawAttrsNamed(name: Name, attrs: seq<Attr>, above: Scope)
    requires forall i | 0 <= i < |attrs| :: WellNamedAttr(attrs[i])
    ensures forall a | a in RawAttrs(above, name, attrs) :: NameText(a.name)
  {
    RawDeclsNamed(name, attrs, above);
    RawRegularNamed(attrs);
  }

  lemma RawRegularNamed(attrs: seq<Attr>)
    requires forall i | 0 <= i < |attrs| :: WellNamedAttr(attrs[i])
    ensures forall a | a in RawRegular(SortedAttrs(attrs), attrs) :: NameText(a.name)
  {
    var sorted := SortedAttrs(attrs);
    SortedAttrsOf(attrs);
    RawRegularAt(sorted, attrs);
    forall i | 0 <= i < |sorted| ensures NameText(QualifiedName(sorted[i].name, attrs)) {
      assert sorted[i] in sorted;
      QualifiedShape(sorted[i].name, attrs);
    }
  }

  lemma RawDeclsNamed(name: Name, attrs: seq<Attr>, above: Scope)
    requires forall i | 0 <= i < |attrs| :: WellNamedAttr(attrs[i])
    ensures forall a | a in RawDecls(RenderedDecls(above, name, attrs)) :: NameText(a.name)
  {
    var decls := RenderedDecls(above, name, attrs);
    SortBySorts(Needed(above, Uses(name, attrs)), DeclKey);
    NeededSound(above, Uses(name, attrs));
    PrefixShape(name.space, attrs);
    UsesNamed(RegularAttrs(attrs), attrs);
    RawDeclsAt(decls);
    forall i | 0 <= i < |decls| ensures NameText(RawDecl(decls[i]).name) {
      assert decls[i] in decls;
      DeclNamed(decls[i]);
    }
  }

  lemma DeclNamed(b: Binding)
    requires b.prefix == "" || NCName(b.prefix)
    ensures NameText(RawDecl(b).name)
  {
    var name := RawDecl(b).name;
    forall i | 0 <= i < |name| ensures NameChar(name[i]) {
      if i >= 6 { assert name[i] == b.prefix[i - 6]; }
    }
  }

  /**
   The output is always well-nested markup; and it means what the input means
   if and only if every element passes the check, from the root scope down.
   */
  lemma MeaningPreserved(tokens: seq<Token>)
    requires WellNamed(Forest(tokens).0)
    ensures ReadDocument(Canonicaliser.Canonical(tokens)) == Some(Canon(Forest(tokens).0, ROOT_SCOPE))
    ensures Read(Canonicaliser.Canonical(tokens)) == Some(Meaning(Forest(tokens).0))
       <==> Faithful(Forest(tokens).0, ROOT_SCOPE, ROOT_SCOPE)
  {
    var forest := Forest(tokens).0;
    CanonPrintable(forest, ROOT_SCOPE);
    DocumentRead(Canon(forest, ROOT_SCOPE));
    ResolveForest(forest, ROOT_SCOPE, ROOT_SCOPE);
  }
}
