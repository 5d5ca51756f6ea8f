/**
 Exactly which documents have one canonical form however their elements' attributes and
 namespace declarations are ordered.
 */
module C14nReordered {
  import opened Common
  import opened C14n
  import opened XmlReader
  import opened C14nMeaning
  import opened C14nDocuments
  import opened C14nOrder
  import opened Canonicaliser

  // ---- Documents that differ in order only ----

  /** The same document, except that attributes and declarations may be in another order. */
  predicate Reordered(f: seq<Tree>, g: seq<Tree>) {
    |f| == |g| && forall i | 0 <= i < |f| :: ReorderedTree(f[i], g[i])
  }

  predicate ReorderedTree(f: Tree, g: Tree) {
    if f.Elem? && g.Elem? then
      f.name == g.name && multiset(f.attrs) == multiset(g.attrs) && Reordered(f.kids, g.kids)
    else f == g
  }

  predicate WellFormed(forest: seq<Tree>) {
    forall i | 0 <= i < |forest| :: WellFormedTree(forest[i])
  }

  predicate WellFormedTree(tree: Tree) {
    tree.Elem? ==> WellFormedAttrs(tree.attrs) && WellFormed(tree.kids)
  }

  // ---- What cannot tell two scopes apart ----

  predicate Registers(name: Name, attrs: seq<Attr>, p: string) {
    exists b :: b in LocalBindings(NsAttrs(attrs)) + Uses(name, attrs) && b.prefix == p
  }

  /** No element asks whether prefix p stands for u or for v before p is registered anew. */
  predicate Blind(forest: seq<Tree>, p: string, u: string, v: string) {
    forall i | 0 <= i < |forest| :: BlindTree(forest[i], p, u, v)
  }

  predicate BlindTree(tree: Tree, p: string, u: string, v: string) {
    match tree
    case Text(_) => true
    case Elem(name, attrs, kids) =>
      && Binding(p, u) !in Uses(name, attrs) && Binding(p, v) !in Uses(name, attrs)
      && (Registers(name, attrs, p) || Blind(kids, p, u, v))
  }

  // ---- Exactly the documents whose order never shows ----

  /**
   Every namespace an element uses has one declaration on it at most; and where attributes need one prefix for
   two namespaces, no descendant can tell which of the two was registered.
   */
  predicate OrderFree(forest: seq<Tree>, above: Scope) {
    forall i | 0 <= i < |forest| :: OrderFreeTree(forest[i], above)
  }

  predicate OrderFreeTree(tree: Tree, above: Scope) {
    match tree
    case Text(_) => true
    case Elem(name, attrs, kids) =>
      OrderFreeElem(name, attrs, kids, above) && OrderFree(kids, above + Frame(above, name, attrs))
  }

  predicate OrderFreeElem(name: Name, attrs: seq<Attr>, kids: seq<Tree>, above: Scope) {
    && OnePrefix(name, attrs)
    && forall x, y | x in AttrNeeds(above, attrs) && y in AttrNeeds(above, attrs) && x.prefix == y.prefix && x != y ::
         Blind(kids, x.prefix, x.uri, y.uri)
  }

  ghost predicate OrderNeverShows(f: seq<Tree>, above: Scope) {
    forall g | Reordered(f, g) :: Canon(f, above) == Canon(g, above)
  }

  ghost predicate OrderNeverShowsTree(f: Tree, above: Scope) {
    forall g | ReorderedTree(f, g) :: CanonTree(f, above) == CanonTree(g, above)
  }

  // ---- Forests as lists ----

  lemma CanonSplit(a: Tree, f: seq<Tree>, b: Tree, g: seq<Tree>, above: Scope, below: Scope)
    requires |CanonTree(a, above)| == |CanonTree(b, below)|
    ensures Canon([a] + f, above) == Canon([b] + g, below)
       <==> CanonTree(a, above) == CanonTree(b, below) && Canon(f, above) == Canon(g, below)
  {
    assert ([a] + f)[1..] == f && ([b] + g)[1..] == g;
    var x, y := CanonTree(a, above), CanonTree(b, below);
    if Canon([a] + f, above) == Canon([b] + g, below) {
      assert x == (x + Canon(f, above))[..|x|] && y == (y + Canon(g, below))[..|x|];
      assert Canon(f, above) == (x + Canon(f, above))[|x|..] && Canon(g, below) == (y + Canon(g, below))[|x|..];
    }
  }

  lemma {:induction false} CharsLength(s: string)
    ensures |RawChars(s)| == |s|
  {
    if s != "" { CharsLength(s[1..]); }
  }

  lemma ReorderedLength(a: Tree, b: Tree, above: Scope, below: Scope)
    requires a == b || ReorderedTree(a, b)
    ensures |CanonTree(a, above)| == |CanonTree(b, below)|
  {
    if a.Text? && b.Text? { CharsLength(a.text); }
  }

  lemma {:induction false} ReorderedRefl(f: seq<Tree>)
    ensures Reordered(f, f)
  {
    forall i | 0 <= i < |f| ensures ReorderedTree(f[i], f[i]) {
      if f[i].Elem? { ReorderedRefl(f[i].kids); }
    }
  }

  lemma ReorderedCons(a: Tree, f: seq<Tree>, b: Tree, g: seq<Tree>)
    ensures Reordered([a] + f, [b] + g) <==> ReorderedTree(a, b) && Reordered(f, g)
  {
    if Reordered([a] + f, [b] + g) {
      assert ReorderedTree(([a] + f)[0], ([b] + g)[0]);
      forall i | 0 <= i < |f| ensures ReorderedTree(f[i], g[i]) {
        assert ReorderedTree(([a] + f)[i + 1], ([b] + g)[i + 1]);
      }
    }
  }

  // ---- Scopes that differ at one prefix ----

  lemma {:induction false} BoundIn(scope: Scope, bs: seq<Binding>, p: string)
    ensures if exists b :: b in bs && b.prefix == p
            then p in Bind(scope, bs) && Binding(p, Bind(scope, bs)[p]) in bs
            else (p in Bind(scope, bs) <==> p in scope) && (p in scope ==> Bind(scope, bs)[p] == scope[p])
    decreases bs
  {
    if bs != [] {
      BoundIn(scope[bs[0].prefix := bs[0].uri], bs[1..], p);
      assert bs == [bs[0]] + bs[1..];
    }
  }

  lemma {:induction false} NeededSame(uses: seq<Binding>, above: Scope, p: string, u: string, v: string)
    requires Binding(p, u) !in uses && Binding(p, v) !in uses
    ensures Needed(above[p := u], uses) == Needed(above[p := v], uses)
    ensures forall b | b in uses && b.prefix == p :: b in Needed(above[p := u], uses)
  {
    if uses != [] {
      assert uses == [uses[0]] + uses[1..];
      NeededSame(uses[1..], above, p, u, v);
    }
  }

  /** An element that does not ask is written alike, and registers p in both scopes or in neither. */
  lemma BlindHead(name: Name, attrs: seq<Attr>, above: Scope, p: string, u: string, v: string)
    requires Binding(p, u) !in Uses(name, attrs) && Binding(p, v) !in Uses(name, attrs)
    ensures var a, b := above[p := u], above[p := v];
      && RawAttrs(a, name, attrs) == RawAttrs(b, name, attrs) && Frame(a, name, attrs) == Frame(b, name, attrs)
      && (p in Frame(a, name, attrs) <==> Registers(name, attrs, p))
  {
    var a := above[p := u];
    NeededSame(Uses(name, attrs), above, p, u, v);
    var bindings := LocalBindings(NsAttrs(attrs)) + OwnUse(name, attrs) + Needed(a, Uses(name, attrs));
    NeededSound(a, Uses(name, attrs));
    BoundIn(map[], bindings, p);
    assert forall b | b in bindings :: b in LocalBindings(NsAttrs(attrs)) + Uses(name, attrs);
    if Registers(name, attrs, p) {
      var b :| b in LocalBindings(NsAttrs(attrs)) + Uses(name, attrs) && b.prefix == p;
      assert b in bindings;
    }
  }

  lemma {:induction false} RawDeclsInjective(s: seq<Binding>, t: seq<Binding>)
    requires RawDecls(s) == RawDecls(t)
    ensures s == t
  {
    RawDeclsAt(s);
    RawDeclsAt(t);
    forall i | 0 <= i < |s| ensures s[i] == t[i] {
      assert RawDecls(s)[i] == RawDecl(s[i]) == RawDecl(t[i]);
      RawDeclPrefix(s[i]);
      RawDeclPrefix(t[i]);
    }
  }

  /** An element that does ask is written differently. */
  lemma SeenHead(name: Name, attrs: seq<Attr>, above: Scope, p: string, u: string, v: string)
    requires u != v && (Binding(p, u) in Uses(name, attrs) || Binding(p, v) in Uses(name, attrs))
    ensures RawAttrs(above[p := u], name, attrs) != RawAttrs(above[p := v], name, attrs)
  {
    var a, b := above[p := u], above[p := v];
    var x := if Binding(p, u) in Uses(name, attrs) then Binding(p, u) else Binding(p, v);
    SortBySorts(Needed(a, Uses(name, attrs)), DeclKey);
    SortBySorts(Needed(b, Uses(name, attrs)), DeclKey);
    NeededSound(a, Uses(name, attrs));
    NeededSound(b, Uses(name, attrs));
    assert x in RenderedDecls(a, name, attrs) <==> x !in RenderedDecls(b, name, attrs);
    if RawAttrs(a, name, attrs) == RawAttrs(b, name, attrs) {
      RawAttrsSplit(name, attrs, attrs, a, b);
      RawDeclsInjective(RenderedDecls(a, name, attrs), RenderedDecls(b, name, attrs));
    }
  }

  lemma ScopeBelow(above: Scope, frame: Scope, p: string, u: string)
    ensures above[p := u] + frame == if p in frame then above + frame else (above + frame)[p := u]
    ensures above + frame[p := u] == (above + frame)[p := u]
  {
  }

  /** Registering u or v under one prefix makes no difference exactly to blind forests. */
  lemma {:induction false} BlindExact(f: seq<Tree>, above: Scope, p: string, u: string, v: string)
    requires u != v
    ensures Canon(f, above[p := u]) == Canon(f, above[p := v]) <==> Blind(f, p, u, v)
    decreases f, 1
  {
    if f != [] {
      assert f == [f[0]] + f[1..];
      BlindTreeExact(f[0], above, p, u, v);
      BlindExact(f[1..], above, p, u, v);
      ReorderedLength(f[0], f[0], above[p := u], above[p := v]);
      CanonSplit(f[0], f[1..], f[0], f[1..], above[p := u], above[p := v]);
      BlindCons(f, p, u, v);
    }
  }

  lemma BlindCons(f: seq<Tree>, p: string, u: string, v: string)
    requires f != []
    ensures Blind(f, p, u, v) <==> BlindTree(f[0], p, u, v) && Blind(f[1..], p, u, v)
  {
    if BlindTree(f[0], p, u, v) && Blind(f[1..], p, u, v) {
      forall i | 0 <= i < |f| ensures BlindTree(f[i], p, u, v) {
        if i > 0 { assert f[i] == f[1..][i - 1]; }
      }
    }
  }

  lemma {:induction false} BlindTreeExact(tree: Tree, above: Scope, p: string, u: string, v: string)
    requires u != v
    ensures CanonTree(tree, above[p := u]) == CanonTree(tree, above[p := v]) <==> BlindTree(tree, p, u, v)
    decreases tree, 0
  {
    if tree.Elem? {
      var name, attrs := tree.name, tree.attrs;
      if Binding(p, u) in Uses(name, attrs) || Binding(p, v) in Uses(name, attrs) {
        SeenHead(name, attrs, above, p, u, v);
      } else {
        BlindHead(name, attrs, above, p, u, v);
        var frame := Frame(above[p := u], name, attrs);
        BlindExact(tree.kids, above + frame, p, u, v);
        ScopeBelow(above, frame, p, u);
        ScopeBelow(above, frame, p, v);
      }
    }
  }

  // ---- Enough ----

  /** Scopes with the same prefixes, told apart nowhere: one prefix at a time. */
  lemma {:induction false} Unobserved(f: seq<Tree>, a: Scope, b: Scope)
    requires a.Keys == b.Keys && forall p | p in a && a[p] != b[p] :: Blind(f, p, a[p], b[p])
    ensures Canon(f, a) == Canon(f, b)
    decreases Apart(a, b)
  {
    if p :| p in a && a[p] != b[p] {
      BlindExact(f, a, p, a[p], b[p]);
      assert a[p := a[p]] == a;
      var a' := a[p := b[p]];
      assert Apart(a, b) == Apart(a', b) + {p};
      assert p in Apart(a, b) && p !in Apart(a', b);
      Unobserved(f, a', b);
    } else {
      assert a == b;
    }
  }

  ghost function Apart(a: Scope, b: Scope): set<string>
    requires a.Keys == b.Keys
  {
    set p | p in a && a[p] != b[p]
  }

  lemma FramesDiffer(name: Name, s: seq<Attr>, t: seq<Attr>, above: Scope)
    requires multiset(s) == multiset(t) && WellFormedAttrs(s) && OnePrefix(name, s)
    ensures var f, g := Frame(above, name, s), Frame(above, name, t);
      && f.Keys == g.Keys
      && forall p | p in f && f[p] != g[p] :: Binding(p, f[p]) in AttrNeeds(above, s) && Binding(p, g[p]) in AttrNeeds(above, s)
  {
    var f, g := Frame(above, name, s), Frame(above, name, t);
    OnePrefixFixes(name, s, t);
    SameUses(name, s, t, above);
    SameOwnFrame(name, s, t, above);
    FrameSplit(above, name, s);
    FrameSplit(above, name, t);
    SameMembers(AttrNeeds(above, s), AttrNeeds(above, t));
    forall p ensures (p in f <==> p in g)
      && (p in f && f[p] != g[p] ==> Binding(p, f[p]) in AttrNeeds(above, s) && Binding(p, g[p]) in AttrNeeds(above, s))
    {
      BoundIn(OwnFrame(above, name, s), AttrNeeds(above, s), p);
      BoundIn(OwnFrame(above, name, s), AttrNeeds(above, t), p);
    }
  }

  predicate OnePrefixes(forest: seq<Tree>) {
    forall i | 0 <= i < |forest| :: OnePrefixesTree(forest[i])
  }

  predicate OnePrefixesTree(tree: Tree) {
    tree.Elem? ==> OnePrefix(tree.name, tree.attrs) && OnePrefixes(tree.kids)
  }

  lemma {:induction false} OrderFreeOnePrefixes(f: seq<Tree>, above: Scope)
    requires OrderFree(f, above)
    ensures OnePrefixes(f)
    decreases f
  {
    forall i | 0 <= i < |f| ensures OnePrefixesTree(f[i]) {
      assert OrderFreeTree(f[i], above);
      if f[i].Elem? { OrderFreeOnePrefixes(f[i].kids, above + Frame(above, f[i].name, f[i].attrs)); }
    }
  }

  lemma HeadPermuted(name: Name, s: seq<Attr>, t: seq<Attr>)
    requires multiset(s) == multiset(t) && OnePrefix(name, s)
    ensures forall b :: b in Uses(name, s) <==> b in Uses(name, t)
    ensures forall p :: Registers(name, s, p) <==> Registers(name, t, p)
  {
    OnePrefixFixes(name, s, t);
    SameUses(name, s, t, map[]);
    SameMembers(AttrUses(RegularAttrs(s), s), AttrUses(RegularAttrs(t), t));
    NsAttrsPermute(s, t);
    LocalBindingsPermute(NsAttrs(s), NsAttrs(t));
    SameMembers(LocalBindings(NsAttrs(s)), LocalBindings(NsAttrs(t)));
    assert forall b :: b in LocalBindings(NsAttrs(s)) + Uses(name, s) <==> b in LocalBindings(NsAttrs(t)) + Uses(name, t);
  }

  lemma {:induction false} BlindReordered(f: seq<Tree>, g: seq<Tree>, p: string, u: string, v: string)
    requires Reordered(f, g) && OnePrefixes(f) && Blind(f, p, u, v)
    ensures Blind(g, p, u, v)
    decreases f
  {
    forall i | 0 <= i < |g| ensures BlindTree(g[i], p, u, v) {
      assert ReorderedTree(f[i], g[i]) && BlindTree(f[i], p, u, v) && OnePrefixesTree(f[i]);
      if f[i].Elem? {
        HeadPermuted(f[i].name, f[i].attrs, g[i].attrs);
        if !Registers(f[i].name, f[i].attrs, p) { BlindReordered(f[i].kids, g[i].kids, p, u, v); }
      }
    }
  }

  lemma {:induction false} OrderIrrelevant(f: seq<Tree>, g: seq<Tree>, above: Scope)
    requires Reordered(f, g) && WellFormed(f) && OrderFree(f, above)
    ensures Canon(f, above) == Canon(g, above)
    decreases f, 1
  {
    if f != [] {
      assert ReorderedTree(f[0], g[0]) && OrderFreeTree(f[0], above) && WellFormedTree(f[0]);
      OrderIrrelevantTree(f[0], g[0], above);
      OrderIrrelevant(f[1..], g[1..], above);
    }
  }

  lemma {:induction false} OrderIrrelevantTree(f: Tree, g: Tree, above: Scope)
    requires ReorderedTree(f, g) && WellFormedTree(f) && OrderFreeTree(f, above)
    ensures CanonTree(f, above) == CanonTree(g, above)
    decreases f, 0
  {
    if f.Elem? {
      var name, s, t := f.name, f.attrs, g.attrs;
      OnePrefixFixes(name, s, t);
      SameTag(name, s, t, above);
      OrderIrrelevant(f.kids, g.kids, above + Frame(above, name, s));
      FramesDiffer(name, s, t, above);
      KidsUnobserved(f, g, above);
    }
  }

  lemma KidsUnobserved(f: Tree, g: Tree, above: Scope)
    requires f.Elem? && g.Elem? && ReorderedTree(f, g) && WellFormedTree(f) && OrderFreeTree(f, above)
    ensures Canon(g.kids, above + Frame(above, f.name, f.attrs)) == Canon(g.kids, above + Frame(above, g.name, g.attrs))
  {
    var x, y := Frame(above, f.name, f.attrs), Frame(above, g.name, g.attrs);
    FramesDiffer(f.name, f.attrs, g.attrs, above);
    OrderFreeOnePrefixes(f.kids, above + x);
    forall p | p in x && x[p] != y[p] ensures Blind(f.kids, p, x[p], y[p]) {
      assert Binding(p, x[p]) != Binding(p, y[p]);
    }
    FramesUnobserved(f.kids, g.kids, above, x, y);
  }

  lemma FramesUnobserved(f: seq<Tree>, g: seq<Tree>, above: Scope, x: Scope, y: Scope)
    requires Reordered(f, g) && OnePrefixes(f)
    requires x.Keys == y.Keys && forall p | p in x && x[p] != y[p] :: Blind(f, p, x[p], y[p])
    ensures Canon(g, above + x) == Canon(g, above + y)
  {
    var a, b := above + x, above + y;
    forall p | p in a && a[p] != b[p] ensures Blind(g, p, a[p], b[p]) {
      BlindReordered(f, g, p, x[p], y[p]);
    }
    Unobserved(g, a, b);
  }

  // ---- Necessary ----

  lemma NeverShowsFirst(a: Tree, f: seq<Tree>, above: Scope)
    requires OrderNeverShows([a] + f, above)
    ensures OrderNeverShowsTree(a, above)
  {
    forall b | ReorderedTree(a, b) ensures CanonTree(a, above) == CanonTree(b, above) {
      ReorderedRefl(f);
      ReorderedCons(a, f, b, f);
      ReorderedLength(a, b, above, above);
      CanonSplit(a, f, b, f, above, above);
    }
  }

  lemma NeverShowsRest(a: Tree, f: seq<Tree>, above: Scope)
    requires OrderNeverShows([a] + f, above)
    ensures OrderNeverShows(f, above)
  {
    ReorderedRefl([a]);
    assert ReorderedTree([a][0], [a][0]);
    forall g | Reordered(f, g) ensures Canon(f, above) == Canon(g, above) {
      ReorderedCons(a, f, a, g);
      CanonSplit(a, f, a, g, above, above);
    }
  }

  /** Reordering the attributes of one element alone. */
  lemma NeverShowsHead(tree: Tree, t: seq<Attr>, above: Scope)
    requires tree.Elem? && OrderNeverShowsTree(tree, above) && multiset(t) == multiset(tree.attrs)
    ensures SameTags(tree.name, tree.attrs, t, above)
    ensures Canon(tree.kids, above + Frame(above, tree.name, tree.attrs)) == Canon(tree.kids, above + Frame(above, tree.name, t))
  {
    ReorderedRefl(tree.kids);
    assert ReorderedTree(tree, Elem(tree.name, t, tree.kids));
  }

  lemma NeverShowsKids(tree: Tree, above: Scope)
    requires tree.Elem? && OrderNeverShowsTree(tree, above)
    ensures OrderNeverShows(tree.kids, above + Frame(above, tree.name, tree.attrs))
  {
    forall g | Reordered(tree.kids, g)
      ensures Canon(tree.kids, above + Frame(above, tree.name, tree.attrs)) == Canon(g, above + Frame(above, tree.name, tree.attrs))
    {
      assert ReorderedTree(tree, Elem(tree.name, tree.attrs, g));
    }
  }

  lemma NeverShowsElem(tree: Tree, above: Scope)
    requires tree.Elem? && WellFormedTree(tree) && OrderNeverShowsTree(tree, above)
    ensures OrderFreeElem(tree.name, tree.attrs, tree.kids, above)
  {
    var name, s := tree.name, tree.attrs;
    if !OnePrefix(name, s) {
      TwoPrefixesShow(name, s, above);
      var t, u :| multiset(t) == multiset(s) && multiset(u) == multiset(s) && !SameTags(name, t, u, above);
      NeverShowsHead(tree, t, above);
      NeverShowsHead(tree, u, above);
    }
    forall x, y | x in AttrNeeds(above, s) && y in AttrNeeds(above, s) && x.prefix == y.prefix && x != y
      ensures Blind(tree.kids, x.prefix, x.uri, y.uri)
    {
      NeverShowsNeeds(tree, above, x, y);
    }
  }

  lemma NeverShowsNeeds(tree: Tree, above: Scope, x: Binding, y: Binding)
    requires tree.Elem? && WellFormedTree(tree) && OrderNeverShowsTree(tree, above) && OnePrefix(tree.name, tree.attrs)
    requires x in AttrNeeds(above, tree.attrs) && y in AttrNeeds(above, tree.attrs) && x.prefix == y.prefix && x != y
    ensures Blind(tree.kids, x.prefix, x.uri, y.uri)
  {
    var t, u, base := TwoNeedsShow(tree.name, tree.attrs, above, x, y);
    NeverShowsHead(tree, t, above);
    NeverShowsHead(tree, u, above);
    ScopeBelow(above, base, x.prefix, x.uri);
    ScopeBelow(above, base, x.prefix, y.uri);
    BlindExact(tree.kids, above + base, x.prefix, x.uri, y.uri);
  }

  lemma {:induction false} NeverShowsIsFree(f: seq<Tree>, above: Scope)
    requires WellFormed(f) && OrderNeverShows(f, above)
    ensures OrderFree(f, above)
    decreases f
  {
    if f != [] {
      assert f == [f[0]] + f[1..] && WellFormedTree(f[0]);
      NeverShowsFirst(f[0], f[1..], above);
      NeverShowsRest(f[0], f[1..], above);
      NeverShowsIsFree(f[1..], above);
      if f[0].Elem? {
        NeverShowsElem(f[0], above);
        NeverShowsKids(f[0], above);
        NeverShowsIsFree(f[0].kids, above + Frame(above, f[0].name, f[0].attrs));
      }
      forall i | 0 <= i < |f| ensures OrderFreeTree(f[i], above) {
        if i > 0 { assert f[i] == f[1..][i - 1]; }
      }
    }
  }

  /** A well-formed forest is serialised alike in every order exactly when it is order-free. */
  lemma ForestOrderExact(f: seq<Tree>, above: Scope)
    requires WellFormed(f)
    ensures OrderFree(f, above) <==> OrderNeverShows(f, above)
  {
    if OrderFree(f, above) {
      forall g | Reordered(f, g) ensures Canon(f, above) == Canon(g, above) { OrderIrrelevant(f, g, above); }
    } else if OrderNeverShows(f, above) {
      NeverShowsIsFree(f, above);
    }
  }

  // ---- Token streams ----

  function TokensOf(forest: seq<Tree>): seq<Token> {
    if forest == [] then [] else TreeTokens(forest[0]) + TokensOf(forest[1..])
  }

  function TreeTokens(tree: Tree): seq<Token> {
    match tree
    case Text(s) => [CharData(s)]
    case Elem(name, attrs, kids) => [Start(name, attrs)] + TokensOf(kids) + [End]
  }

  /** `ts` begins with the tokens of `f`, and `rest` follows. */
  ghost predicate Begins(ts: seq<Token>, f: seq<Tree>, rest: seq<Token>) {
    Forest(ts).0 == f + Forest(rest).0 && Forest(ts).1 == Forest(rest).1
  }

  lemma {:induction false} ForestOfTokens(f: seq<Tree>, rest: seq<Token>)
    ensures Begins(TokensOf(f) + rest, f, rest)
    decreases f
  {
    if f == [] {
      assert TokensOf(f) + rest == rest && f + Forest(rest).0 == Forest(rest).0;
    } else {
      var after := TokensOf(f[1..]) + rest;
      ForestOfTokens(f[1..], rest);
      if f[0].Elem? { ForestOfTokens(f[0].kids, [End] + after); }
      ForestOfTree(f[0], after);
      assert TokensOf(f) + rest == TreeTokens(f[0]) + after;
      assert [f[0]] + (f[1..] + Forest(rest).0) == f + Forest(rest).0;
    }
  }

  lemma ForestOfTree(tree: Tree, after: seq<Token>)
    requires tree.Elem? ==> Begins(TokensOf(tree.kids) + ([End] + after), tree.kids, [End] + after)
    ensures Begins(TreeTokens(tree) + after, [tree], after)
  {
    var ts := TreeTokens(tree) + after;
    match tree
    case Text(s) =>
      assert ts == [CharData(s)] + after && ts[1..] == after;
    case Elem(name, attrs, kids) =>
      var body := TokensOf(kids) + ([End] + after);
      assert ts == [Start(name, attrs)] + body && ts[1..] == body;
      assert ([End] + after)[1..] == after && kids + [] == kids;
  }

  lemma {:induction false} WellNamedReordered(f: seq<Tree>, g: seq<Tree>)
    requires Reordered(f, g) && WellNamed(f)
    ensures WellNamed(g)
    decreases f
  {
    forall i | 0 <= i < |g| ensures WellNamedTree(g[i]) {
      assert ReorderedTree(f[i], g[i]) && WellNamedTree(f[i]);
      if f[i].Elem? {
        SameMembers(f[i].attrs, g[i].attrs);
        forall j | 0 <= j < |g[i].attrs| ensures WellNamedAttr(g[i].attrs[j]) {
          assert g[i].attrs[j] in f[i].attrs;
        }
        WellNamedReordered(f[i].kids, g[i].kids);
      }
    }
  }

  /** Different markup is written differently. */
  lemma CanonicalInjective(tokens: seq<Token>, others: seq<Token>)
    requires WellNamed(Forest(tokens).0) && WellNamed(Forest(others).0) && Canonical(tokens) == Canonical(others)
    ensures Canon(Forest(tokens).0, ROOT_SCOPE) == Canon(Forest(others).0, ROOT_SCOPE)
  {
    MeaningPreserved(tokens);
    MeaningPreserved(others);
  }

  /** `tokens` and every reordering of its elements' attributes and declarations are written alike. */
  ghost predicate OneCanonicalForm(tokens: seq<Token>) {
    forall others | Reordered(Forest(tokens).0, Forest(others).0) :: Canonical(tokens) == Canonical(others)
  }

  /** Exactly which well-formed documents have one canonical form whatever the order of attributes and declarations. */
  lemma CanonicalOrderExact(tokens: seq<Token>)
    requires WellNamed(Forest(tokens).0) && WellFormed(Forest(tokens).0)
    ensures OrderFree(Forest(tokens).0, ROOT_SCOPE) <==> OneCanonicalForm(tokens)
  {
    var f := Forest(tokens).0;
    ForestOrderExact(f, ROOT_SCOPE);
    if OneCanonicalForm(tokens) {
      forall g | Reordered(f, g) ensures Canon(f, ROOT_SCOPE) == Canon(g, ROOT_SCOPE) {
        ForestOfTokens(g, []);
        assert TokensOf(g) + [] == TokensOf(g) && g + Forest([]).0 == g;
        WellNamedReordered(f, g);
        CanonicalInjective(tokens, TokensOf(g));
      }
    }
  }

  // ---- Documents whose meaning is kept ----

  lemma {:induction false} FaithfulOrderFree(f: seq<Tree>, registered: Scope, rendered: Scope)
    requires Faithful(f, registered, rendered) && OnePrefixes(f)
    ensures OrderFree(f, registered)
    decreases f
  {
    forall i | 0 <= i < |f| ensures OrderFreeTree(f[i], registered) {
      assert FaithfulTree(f[i], registered, rendered) && OnePrefixesTree(f[i]);
      if f[i].Elem? {
        var name, attrs := f[i].name, f[i].attrs;
        ClashRepeatsDeclaration(name, attrs, registered);
        FaithfulOrderFree(f[i].kids, registered + Frame(registered, name, attrs),
                          Bind(rendered, RenderedDecls(registered, name, attrs)));
      }
    }
  }

  /** Where canonical form keeps the meaning, and no used namespace is declared twice on an element, order never shows. */
  lemma PreservedIsOrderFree(tokens: seq<Token>)
    requires WellNamed(Forest(tokens).0) && WellFormed(Forest(tokens).0) && OnePrefixes(Forest(tokens).0)
    requires Read(Canonical(tokens)) == Some(Meaning(Forest(tokens).0))
    ensures OneCanonicalForm(tokens)
  {
    MeaningPreserved(tokens);
    FaithfulOrderFree(Forest(tokens).0, ROOT_SCOPE, ROOT_SCOPE);
    CanonicalOrderExact(tokens);
  }

  // ---- Two orders, two canonical forms ----

  const X := Attr(Name("u", "a"), "1")
  const Y := Attr(Name("v", "b"), "2")
  const WRAPPER := [Attr(Name("xmlns", "p"), "u"), Attr(Name("xmlns", "q"), "v")]
  const KID := Elem(Name("v", "k"), [], [])

  /** <w xmlns:p="u" xmlns:q="v"><r p:a="1" q:b="2"><q:k></q:k></r></w>, with r's attributes in this order. */
  function Wrapped(first: Attr, second: Attr): seq<Tree> {
    [Elem(Name("", "w"), WRAPPER, [Elem(Name("", "r"), [first, second], [KID])])]
  }

  /**
   Both inherited namespaces fall back to the empty prefix on r; the last one is registered under it, and
   the child declares its namespace only if that was the other one.
   */
  lemma OrderMattersForOnePrefix()
    ensures var one, other := TokensOf(Wrapped(X, Y)), TokensOf(Wrapped(Y, X));
      && Forest(one).0 == Wrapped(X, Y) && Forest(other).0 == Wrapped(Y, X)
      && Reordered(Wrapped(X, Y), Wrapped(Y, X)) && WellNamed(Wrapped(X, Y)) && WellFormed(Wrapped(X, Y))
      && Canonical(one) != Canonical(other)
  {
    var one, other := TokensOf(Wrapped(X, Y)), TokensOf(Wrapped(Y, X));
    WrappedTokens(X, Y);
    WrappedTokens(Y, X);
    WrappedWellFormed();
    WrappedReordered();
    WellNamedReordered(Wrapped(X, Y), Wrapped(Y, X));
    WrappedDiffer();
    if Canonical(one) == Canonical(other) { CanonicalInjective(one, other); }
  }

  lemma WrappedTokens(first: Attr, second: Attr)
    ensures Forest(TokensOf(Wrapped(first, second))).0 == Wrapped(first, second)
  {
    var f := Wrapped(first, second);
    ForestOfTokens(f, []);
    assert TokensOf(f) + [] == TokensOf(f) && f + Forest([]).0 == f;
  }

  lemma WrappedWellFormed()
    ensures WellNamed(Wrapped(X, Y)) && WellFormed(Wrapped(X, Y))
  {
    var inner := Elem(Name("", "r"), [X, Y], [KID]);
    WrappedNames();
    assert WellNamedTree(KID) && WellFormedTree(KID);
    assert WellNamedTree(inner) && WellFormedTree(inner);
    assert WellNamedTree(Wrapped(X, Y)[0]) && WellFormedTree(Wrapped(X, Y)[0]);
  }

  lemma WrappedNames()
    ensures NCName("w") && NCName("r") && NCName("k") && NCName("a") && NCName("b") && NCName("p") && NCName("q")
  {
  }

  lemma WrappedReordered()
    ensures Reordered(Wrapped(X, Y), Wrapped(Y, X))
  {
    var a, b := Elem(Name("", "r"), [X, Y], [KID]), Elem(Name("", "r"), [Y, X], [KID]);
    ReorderedRefl([KID]);
    assert multiset([X, Y]) == multiset{X, Y} == multiset([Y, X]);
    assert ReorderedTree(a, b);
    assert Reordered([a], [b]);
    assert ReorderedTree(Wrapped(X, Y)[0], Wrapped(Y, X)[0]);
  }

  lemma WrappedDiffer()
    ensures Canon(Wrapped(X, Y), ROOT_SCOPE) != Canon(Wrapped(Y, X), ROOT_SCOPE)
  {
    WrapperScope();
    InnerDiffers(ROOT_SCOPE + Frame(ROOT_SCOPE, Name("", "w"), WRAPPER));
    NestDiffers(Name("", "w"), WRAPPER, Elem(Name("", "r"), [X, Y], [KID]), Elem(Name("", "r"), [Y, X], [KID]), ROOT_SCOPE);
  }

  lemma CanonOne(tree: Tree, above: Scope)
    ensures Canon([tree], above) == CanonTree(tree, above)
  {
    assert [tree][1..] == [] && Canon([], above) == [];
    assert CanonTree(tree, above) + [] == CanonTree(tree, above);
  }

  /** What differs in a child differs in its parent. */
  lemma NestDiffers(name: Name, attrs: seq<Attr>, a: Tree, b: Tree, above: Scope)
    requires CanonTree(a, above + Frame(above, name, attrs)) != CanonTree(b, above + Frame(above, name, attrs))
    ensures Canon([Elem(name, attrs, [a])], above) != Canon([Elem(name, attrs, [b])], above)
  {
    CanonOne(a, above + Frame(above, name, attrs));
    CanonOne(b, above + Frame(above, name, attrs));
    CanonOne(Elem(name, attrs, [a]), above);
    CanonOne(Elem(name, attrs, [b]), above);
  }

  lemma WrapperScope()
    ensures "" !in ROOT_SCOPE + Frame(ROOT_SCOPE, Name("", "w"), WRAPPER)
  {
    var bindings := [Binding("p", "u"), Binding("q", "v")];
    assert WRAPPER[1..] == [WRAPPER[1]] && [WRAPPER[1]][1..] == [];
    assert NsAttrs([]) == RegularAttrs([]) == [] && LocalBindings([]) == [];
    assert NsAttrs([WRAPPER[1]]) == [WRAPPER[1]] && RegularAttrs([WRAPPER[1]]) == [];
    assert NsAttrs(WRAPPER) == WRAPPER && RegularAttrs(WRAPPER) == [];
    assert LocalBindings([WRAPPER[1]]) == [bindings[1]];
    assert LocalBindings(WRAPPER) == bindings;
    assert Uses(Name("", "w"), WRAPPER) == [] && Needed(ROOT_SCOPE, []) == [];
    BoundIn(map[], bindings, "");
    assert bindings + [] + [] == bindings;
  }

  lemma InnerDiffers(above: Scope)
    requires "" !in above
    ensures CanonTree(Elem(Name("", "r"), [X, Y], [KID]), above) != CanonTree(Elem(Name("", "r"), [Y, X], [KID]), above)
  {
    LastOneWins(X, Y, above);
    LastOneWins(Y, X, above);
    KidDiffers(above);
  }

  lemma KidDiffers(above: Scope)
    ensures Canon([KID], above + map["" := "u"]) != Canon([KID], above + map["" := "v"])
  {
    ScopeBelow(above, map[], "", "u");
    ScopeBelow(above, map[], "", "v");
    assert above + map[] == above;
    BlindExact([KID], above, "", "u", "v");
    assert PrefixOf("v", []) == WellKnownPrefix("v") == "";
    assert Uses(Name("v", "k"), []) == [Binding("", "v")];
    assert !BlindTree([KID][0], "", "u", "v");
  }

  lemma LastOneWins(x: Attr, y: Attr, above: Scope)
    requires {x, y} == {X, Y} && "" !in above
    ensures Frame(above, Name("", "r"), [x, y]) == map["" := y.name.space]
  {
    var attrs, b, c := [x, y], Binding("", x.name.space), Binding("", y.name.space);
    assert attrs[1..] == [y] && [y][1..] == [];
    assert x in {X, Y} && y in {X, Y};
    assert WellKnownPrefix("u") == "" && WellKnownPrefix("v") == "";
    forall uri | uri == "u" || uri == "v" ensures PrefixOf(uri, attrs) == "" {
      assert PrefixOf(uri, [y]) == PrefixOf(uri, []) == "";
    }
    assert NsAttrs([]) == NsAttrs([y]) == NsAttrs(attrs) == [];
    TwoLast([], x, y, attrs, above);
    assert RegularAttrs([]) == [] && AttrUses([], attrs) == [] && Needed(above, []) == [];
    assert AttrNeeds(above, attrs) == [] + [b, c];
    FrameSplit(above, Name("", "r"), attrs);
    assert OwnFrame(above, Name("", "r"), attrs) == map[];
    BindLast(map[], [], b, c);
  }
}
