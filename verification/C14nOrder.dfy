/**
 When the order of an element's attributes and namespace declarations cannot be seen in its
 canonical start tag, nor in the scope its children are written in: exactly.
 */
module C14nOrder {
  import opened Common
  import opened C14n
  import opened C14nMeaning
  import opened C14nDocuments
  import opened Canonicaliser

  // ---- Permutations through lists of images ----

  function FlatMap<A, B>(f: A -> seq<B>, s: seq<A>): seq<B> {
    if s == [] then [] else f(s[0]) + FlatMap(f, s[1..])
  }

  lemma {:induction false} FlatMapConcat<A, B>(f: A -> seq<B>, s: seq<A>, t: seq<A>)
    ensures FlatMap(f, s + t) == FlatMap(f, s) + FlatMap(f, t)
  {
    if s == [] {
      assert s + t == t;
    } else {
      assert (s + t)[1..] == s[1..] + t;
      FlatMapConcat(f, s[1..], t);
    }
  }

  /** Permuting the arguments permutes the images. */
  lemma {:induction false} FlatMapPermute<A, B>(f: A -> seq<B>, s: seq<A>, t: seq<A>)
    requires multiset(s) == multiset(t)
    ensures multiset(FlatMap(f, s)) == multiset(FlatMap(f, t))
  {
    if s == [] {
      assert |multiset(t)| == 0;
    } else {
      assert s[0] in multiset(t);
      var i :| 0 <= i < |t| && t[i] == s[0];
      RemoveAt(t, i);
      assert s == [s[0]] + s[1..];
      assert multiset(s[1..]) == multiset(s) - multiset{s[0]};
      FlatMapPermute(f, s[1..], t[..i] + t[i + 1..]);
      FlatMapAround(f, t, i);
    }
  }

  lemma RemoveAt<A>(t: seq<A>, i: nat)
    requires i < |t|
    ensures multiset(t[..i] + t[i + 1..]) == multiset(t) - multiset{t[i]}
  {
    assert t == t[..i] + ([t[i]] + t[i + 1..]);
  }

  lemma FlatMapAround<A, B>(f: A -> seq<B>, t: seq<A>, i: nat)
    requires i < |t|
    ensures multiset(FlatMap(f, t)) == multiset(f(t[i])) + multiset(FlatMap(f, t[..i] + t[i + 1..]))
  {
    assert t == t[..i] + ([t[i]] + t[i + 1..]);
    FlatMapConcat(f, t[..i], t[i + 1..]);
    FlatMapConcat(f, t[..i], [t[i]] + t[i + 1..]);
    assert ([t[i]] + t[i + 1..])[1..] == t[i + 1..];
  }

  lemma NsAttrsPermute(s: seq<Attr>, t: seq<Attr>)
    requires multiset(s) == multiset(t)
    ensures multiset(NsAttrs(s)) == multiset(NsAttrs(t))
    ensures multiset(RegularAttrs(s)) == multiset(RegularAttrs(t))
  {
    var ns := (a: Attr) => if IsNsDecl(a) then [a] else [];
    var regular := (a: Attr) => if IsNsDecl(a) then [] else [a];
    forall u: seq<Attr> ensures FlatMap(ns, u) == NsAttrs(u) && FlatMap(regular, u) == RegularAttrs(u) {
      SplitIsFlatMap(ns, regular, u);
    }
    FlatMapPermute(ns, s, t);
    FlatMapPermute(regular, s, t);
  }

  lemma {:induction false} SplitIsFlatMap(ns: Attr -> seq<Attr>, regular: Attr -> seq<Attr>, u: seq<Attr>)
    requires forall a :: ns(a) == if IsNsDecl(a) then [a] else []
    requires forall a :: regular(a) == if IsNsDecl(a) then [] else [a]
    ensures FlatMap(ns, u) == NsAttrs(u) && FlatMap(regular, u) == RegularAttrs(u)
  {
    if u != [] { SplitIsFlatMap(ns, regular, u[1..]); }
  }

  lemma LocalBindingsPermute(s: seq<Attr>, t: seq<Attr>)
    requires multiset(s) == multiset(t)
    ensures multiset(LocalBindings(s)) == multiset(LocalBindings(t))
  {
    var f := (a: Attr) => [LocalBinding(a)];
    forall u: seq<Attr> ensures FlatMap(f, u) == LocalBindings(u) { LocalIsFlatMap(f, u); }
    FlatMapPermute(f, s, t);
  }

  lemma {:induction false} LocalIsFlatMap(f: Attr -> seq<Binding>, u: seq<Attr>)
    requires forall a :: f(a) == [LocalBinding(a)]
    ensures FlatMap(f, u) == LocalBindings(u)
  {
    if u != [] { LocalIsFlatMap(f, u[1..]); }
  }

  lemma NeededPermute(above: Scope, s: seq<Binding>, t: seq<Binding>)
    requires multiset(s) == multiset(t)
    ensures multiset(Needed(above, s)) == multiset(Needed(above, t))
  {
    var f := (b: Binding) => if NeedsDecl(above, b) then [b] else [];
    forall u: seq<Binding> ensures FlatMap(f, u) == Needed(above, u) { NeededIsFlatMap(f, above, u); }
    FlatMapPermute(f, s, t);
  }

  lemma {:induction false} NeededIsFlatMap(f: Binding -> seq<Binding>, above: Scope, u: seq<Binding>)
    requires forall b :: f(b) == if NeedsDecl(above, b) then [b] else []
    ensures FlatMap(f, u) == Needed(above, u)
  {
    if u != [] { NeededIsFlatMap(f, above, u[1..]); }
  }

  // ---- What the order may not touch ----

  /** What well-formed XML guarantees: no name twice, and no declaration of an empty prefix. */
  predicate WellFormedAttrs(attrs: seq<Attr>) {
    DistinctNames(attrs) && forall a | a in attrs && a.name.space == "xmlns" :: a.name.local != ""
  }

  predicate UsedUri(name: Name, attrs: seq<Attr>, uri: string) {
    uri != "" && (name.space == uri || exists a :: a in RegularAttrs(attrs) && a.name.space == uri)
  }

  /** No namespace that the element or one of its attributes is in has two declarations here. */
  predicate OnePrefix(name: Name, attrs: seq<Attr>) {
    forall a, b | a in attrs && b in attrs && IsNsDecl(a) && IsNsDecl(b) && a.value == b.value && UsedUri(name, attrs, a.value) ::
      a == b
  }

  /** The declarations that the attributes, not the element's own name, make necessary. */
  function AttrNeeds(above: Scope, attrs: seq<Attr>): seq<Binding> {
    Needed(above, AttrUses(RegularAttrs(attrs), attrs))
  }

  predicate OrderFreeHead(name: Name, attrs: seq<Attr>, above: Scope) {
    OnePrefix(name, attrs) && Functional(AttrNeeds(above, attrs))
  }

  /** The same tag name, the same written attributes, and the same registered bindings. */
  predicate SameHead(name: Name, s: seq<Attr>, t: seq<Attr>, above: Scope) {
    && QualifiedName(name, s) == QualifiedName(name, t)
    && RawAttrs(above, name, s) == RawAttrs(above, name, t)
    && Frame(above, name, s) == Frame(above, name, t)
  }

  ghost predicate SamePrefixes(name: Name, s: seq<Attr>, t: seq<Attr>) {
    forall uri | UsedUri(name, s, uri) :: PrefixOf(uri, s) == PrefixOf(uri, t)
  }

  lemma SameMembers<A>(s: seq<A>, t: seq<A>)
    requires multiset(s) == multiset(t)
    ensures forall a :: a in s <==> a in t
  {
    forall a ensures a in s <==> a in t {
      assert a in s <==> a in multiset(s);
      assert a in t <==> a in multiset(t);
    }
  }

  lemma {:induction false} PrefixOfDeclared(uri: string, attrs: seq<Attr>)
    ensures (forall a | a in attrs :: !(IsNsDecl(a) && a.value == uri)) ==> PrefixOf(uri, attrs) == WellKnownPrefix(uri)
    ensures (exists a :: a in attrs && IsNsDecl(a) && a.value == uri) ==>
              exists a :: a in attrs && IsNsDecl(a) && a.value == uri && PrefixOf(uri, attrs) == LocalBinding(a).prefix
  {
    if attrs != [] {
      PrefixOfDeclared(uri, attrs[1..]);
      assert attrs == [attrs[0]] + attrs[1..];
      if IsNsDecl(attrs[0]) && attrs[0].value == uri {
        assert PrefixOf(uri, attrs) == LocalBinding(attrs[0]).prefix;
      } else {
        assert PrefixOf(uri, attrs) == PrefixOf(uri, attrs[1..]);
      }
    }
  }

  lemma OnePrefixFixes(name: Name, s: seq<Attr>, t: seq<Attr>)
    requires multiset(s) == multiset(t) && OnePrefix(name, s)
    ensures SamePrefixes(name, s, t)
  {
    SameMembers(s, t);
    forall uri | UsedUri(name, s, uri) ensures PrefixOf(uri, s) == PrefixOf(uri, t) {
      PrefixOfDeclared(uri, s);
      PrefixOfDeclared(uri, t);
    }
  }

  lemma NamesDetermine(attrs: seq<Attr>)
    requires DistinctNames(attrs)
    ensures KeyDetermines(RegularAttrs(attrs), AttrKey)
  {
    RegularSound(attrs);
    forall x, y | x in RegularAttrs(attrs) && y in RegularAttrs(attrs) && AttrKey(x) == AttrKey(y) ensures x == y {
      var i :| 0 <= i < |attrs| && attrs[i] == x;
      var j :| 0 <= j < |attrs| && attrs[j] == y;
      assert attrs[i].name == attrs[j].name;
    }
  }

  lemma SameSorted(s: seq<Attr>, t: seq<Attr>)
    requires multiset(s) == multiset(t) && DistinctNames(s)
    ensures SortedAttrs(s) == SortedAttrs(t)
  {
    NsAttrsPermute(s, t);
    NamesDetermine(s);
    SortForgetsOrder(RegularAttrs(s), RegularAttrs(t), AttrKey);
  }

  // ---- Enough: one prefix per used URI, and attribute needs that agree ----

  lemma {:induction false} RawRegularSame(regular: seq<Attr>, s: seq<Attr>, t: seq<Attr>)
    requires forall a | a in regular && a.name.space != "" :: PrefixOf(a.name.space, s) == PrefixOf(a.name.space, t)
    ensures RawRegular(regular, s) == RawRegular(regular, t)
    ensures AttrUses(regular, s) == AttrUses(regular, t)
  {
    if regular != [] {
      assert regular == [regular[0]] + regular[1..];
      RawRegularSame(regular[1..], s, t);
    }
  }

  lemma {:induction false} UsesAreFlatMap(f: Attr -> seq<Binding>, u: seq<Attr>, attrs: seq<Attr>)
    requires forall a: Attr :: f(a) == OwnUse(a.name, attrs)
    ensures FlatMap(f, u) == AttrUses(u, attrs)
  {
    if u != [] { UsesAreFlatMap(f, u[1..], attrs); }
  }

  lemma SameUses(name: Name, s: seq<Attr>, t: seq<Attr>, above: Scope)
    requires multiset(s) == multiset(t) && SamePrefixes(name, s, t)
    ensures OwnUse(name, s) == OwnUse(name, t)
    ensures multiset(AttrUses(RegularAttrs(s), s)) == multiset(AttrUses(RegularAttrs(t), t))
    ensures multiset(AttrNeeds(above, s)) == multiset(AttrNeeds(above, t))
  {
    NsAttrsPermute(s, t);
    SameMembers(RegularAttrs(s), RegularAttrs(t));
    RawRegularSame(RegularAttrs(t), s, t);
    var f := (a: Attr) => OwnUse(a.name, s);
    FlatMapPermute(f, RegularAttrs(s), RegularAttrs(t));
    UsesAreFlatMap(f, RegularAttrs(s), s);
    UsesAreFlatMap(f, RegularAttrs(t), s);
    NeededPermute(above, AttrUses(RegularAttrs(s), s), AttrUses(RegularAttrs(t), t));
  }

  lemma SameTag(name: Name, s: seq<Attr>, t: seq<Attr>, above: Scope)
    requires multiset(s) == multiset(t) && DistinctNames(s) && SamePrefixes(name, s, t)
    ensures QualifiedName(name, s) == QualifiedName(name, t)
    ensures RawAttrs(above, name, s) == RawAttrs(above, name, t)
  {
    SameSorted(s, t);
    SameUses(name, s, t, above);
    NeededPermute(above, Uses(name, s), Uses(name, t));
    SortForgetsOrder(Needed(above, Uses(name, s)), Needed(above, Uses(name, t)), DeclKey);
    SortBySorts(RegularAttrs(s), AttrKey);
    RawRegularSame(SortedAttrs(s), s, t);
  }

  /** What the frame holds before the attributes' needs are added. */
  function OwnFrame(above: Scope, name: Name, attrs: seq<Attr>): Scope {
    Bind(map[], LocalBindings(NsAttrs(attrs)) + OwnUse(name, attrs) + Needed(above, OwnUse(name, attrs)))
  }

  lemma FrameSplit(above: Scope, name: Name, attrs: seq<Attr>)
    ensures Frame(above, name, attrs) == Bind(OwnFrame(above, name, attrs), AttrNeeds(above, attrs))
  {
    var local, own := LocalBindings(NsAttrs(attrs)) + OwnUse(name, attrs), OwnUse(name, attrs);
    NeededConcat(above, own, AttrUses(RegularAttrs(attrs), attrs));
    assert local + (Needed(above, own) + AttrNeeds(above, attrs)) == local + Needed(above, own) + AttrNeeds(above, attrs);
    BindConcat(map[], local + Needed(above, own), AttrNeeds(above, attrs));
  }

  lemma BindSame(scope: Scope, s: seq<Binding>, t: seq<Binding>)
    requires Functional(s) && forall b :: b in s <==> b in t
    ensures Bind(scope, s) == Bind(scope, t)
  {
    BindLookup(scope, s);
    BindLookup(scope, t);
    forall p ensures SameAt(Bind(scope, s), Bind(scope, t), p) {
      if b :| b in s && b.prefix == p {
        assert BoundTo(Bind(scope, s), b) && BoundTo(Bind(scope, t), b);
      } else {
        assert forall b | b in t :: b.prefix != p;
      }
    }
    SameEverywhere(Bind(scope, s), Bind(scope, t));
  }

  lemma {:induction false} LocalFrom(nsAttrs: seq<Attr>)
    ensures forall b | b in LocalBindings(nsAttrs) :: exists a :: a in nsAttrs && LocalBinding(a) == b
  {
    if nsAttrs != [] {
      LocalFrom(nsAttrs[1..]);
      assert nsAttrs == [nsAttrs[0]] + nsAttrs[1..];
    }
  }

  lemma {:induction false} NsSound(attrs: seq<Attr>)
    ensures forall a :: a in NsAttrs(attrs) <==> a in attrs && IsNsDecl(a)
  {
    if attrs != [] {
      NsSound(attrs[1..]);
      assert attrs == [attrs[0]] + attrs[1..];
    }
  }

  /** Different declarations declare different prefixes. */
  lemma PrefixDeclaredOnce(attrs: seq<Attr>, a: Attr, b: Attr)
    requires WellFormedAttrs(attrs) && a in attrs && b in attrs && IsNsDecl(a) && IsNsDecl(b)
    requires LocalBinding(a).prefix == LocalBinding(b).prefix
    ensures a == b
  {
    var i :| 0 <= i < |attrs| && attrs[i] == a;
    var j :| 0 <= j < |attrs| && attrs[j] == b;
    assert a.name == b.name;
  }

  lemma LocalFunctional(attrs: seq<Attr>)
    requires WellFormedAttrs(attrs)
    ensures Functional(LocalBindings(NsAttrs(attrs)))
  {
    var local := LocalBindings(NsAttrs(attrs));
    LocalFrom(NsAttrs(attrs));
    NsSound(attrs);
    forall x, y | x in local && y in local && x.prefix == y.prefix ensures x == y {
      var a :| a in NsAttrs(attrs) && LocalBinding(a) == x;
      var b :| b in NsAttrs(attrs) && LocalBinding(b) == y;
      PrefixDeclaredOnce(attrs, a, b);
    }
  }

  lemma SameOwnFrame(name: Name, s: seq<Attr>, t: seq<Attr>, above: Scope)
    requires multiset(s) == multiset(t) && WellFormedAttrs(s) && OwnUse(name, s) == OwnUse(name, t)
    ensures OwnFrame(above, name, s) == OwnFrame(above, name, t)
  {
    NsAttrsPermute(s, t);
    LocalBindingsPermute(NsAttrs(s), NsAttrs(t));
    SameMembers(LocalBindings(NsAttrs(s)), LocalBindings(NsAttrs(t)));
    LocalFunctional(s);
    BindSameThen(LocalBindings(NsAttrs(s)), LocalBindings(NsAttrs(t)), OwnUse(name, s), Needed(above, OwnUse(name, s)));
  }

  lemma BindSameThen(s: seq<Binding>, t: seq<Binding>, own: seq<Binding>, needed: seq<Binding>)
    requires Functional(s) && forall b :: b in s <==> b in t
    ensures Bind(map[], s + own + needed) == Bind(map[], t + own + needed)
  {
    BindSame(map[], s, t);
    BindConcat(map[], s, own);
    BindConcat(map[], t, own);
    BindConcat(map[], s + own, needed);
    BindConcat(map[], t + own, needed);
  }

  lemma OrderFreeSame(name: Name, s: seq<Attr>, t: seq<Attr>, above: Scope)
    requires multiset(s) == multiset(t) && WellFormedAttrs(s) && OrderFreeHead(name, s, above)
    ensures SameHead(name, s, t, above)
  {
    OnePrefixFixes(name, s, t);
    SameTag(name, s, t, above);
    SameUses(name, s, t, above);
    SameOwnFrame(name, s, t, above);
    FrameSplit(above, name, s);
    FrameSplit(above, name, t);
    SameMembers(AttrNeeds(above, s), AttrNeeds(above, t));
    BindSame(OwnFrame(above, name, s), AttrNeeds(above, s), AttrNeeds(above, t));
  }

  // ---- Necessary: two orders that show ----

  /** Two of the attributes brought to the front, in this order. */
  function Front(attrs: seq<Attr>, i: nat, j: nat): seq<Attr>
    requires i < |attrs| && j < |attrs| && i != j
  {
    [attrs[i], attrs[j]] + Others(attrs, i, j)
  }

  /** Two of the attributes put last, in this order. */
  function Back(attrs: seq<Attr>, i: nat, j: nat): seq<Attr>
    requires i < |attrs| && j < |attrs| && i != j
  {
    Others(attrs, i, j) + [attrs[i], attrs[j]]
  }

  function Others(attrs: seq<Attr>, i: nat, j: nat): seq<Attr>
    requires i < |attrs| && j < |attrs| && i != j
  {
    if i < j then attrs[..i] + attrs[i + 1..j] + attrs[j + 1..] else attrs[..j] + attrs[j + 1..i] + attrs[i + 1..]
  }

  lemma PermutesTwo(attrs: seq<Attr>, i: nat, j: nat)
    requires i < |attrs| && j < |attrs| && i != j
    ensures multiset(Front(attrs, i, j)) == multiset(attrs) == multiset(Back(attrs, i, j))
  {
    if i < j {
      PermutesParts(attrs, attrs[..i], attrs[i], attrs[i + 1..j], attrs[j], attrs[j + 1..]);
    } else {
      PermutesParts(attrs, attrs[..j], attrs[j], attrs[j + 1..i], attrs[i], attrs[i + 1..]);
    }
  }

  lemma PermutesParts(attrs: seq<Attr>, a: seq<Attr>, x: Attr, b: seq<Attr>, y: Attr, c: seq<Attr>)
    requires attrs == a + [x] + b + [y] + c
    ensures multiset(attrs) == multiset{x, y} + multiset(a + b + c)
    ensures multiset([x, y] + (a + b + c)) == multiset(a + b + c + [x, y]) == multiset(attrs)
    ensures multiset([y, x] + (a + b + c)) == multiset(a + b + c + [y, x]) == multiset(attrs)
  {
  }

  lemma QualifiedByPrefix(name: Name, s: seq<Attr>, t: seq<Attr>)
    requires name.space != "" && QualifiedName(name, s) == QualifiedName(name, t)
    ensures PrefixOf(name.space, s) == PrefixOf(name.space, t)
  {
    var p, q := PrefixOf(name.space, s), PrefixOf(name.space, t);
    assert |QualifiedName(name, s)| == |name.local| + if p == "" then 0 else |p| + 1;
    assert |QualifiedName(name, t)| == |name.local| + if q == "" then 0 else |q| + 1;
    if p != "" {
      assert QualifiedName(name, s)[..|p|] == p;
      assert QualifiedName(name, t)[..|q|] == q;
    }
  }

  /** Equal written attributes have equal declarations and equal names. */
  lemma RawAttrsSplit(name: Name, s: seq<Attr>, t: seq<Attr>, above: Scope, below: Scope)
    requires SortedAttrs(s) == SortedAttrs(t) && RawAttrs(above, name, s) == RawAttrs(below, name, t)
    ensures RawDecls(RenderedDecls(above, name, s)) == RawDecls(RenderedDecls(below, name, t))
    ensures RawRegular(SortedAttrs(s), s) == RawRegular(SortedAttrs(t), t)
  {
    RawRegularAt(SortedAttrs(s), s);
    RawRegularAt(SortedAttrs(t), t);
    var d, e := RawDecls(RenderedDecls(above, name, s)), RawDecls(RenderedDecls(below, name, t));
    var x, y := RawRegular(SortedAttrs(s), s), RawRegular(SortedAttrs(t), t);
    assert |d| == |e|;
    assert d == (d + x)[..|d|] && e == (e + y)[..|d|];
    assert x == (d + x)[|d|..] && y == (e + y)[|d|..];
  }

  lemma SameTagSamePrefix(name: Name, s: seq<Attr>, t: seq<Attr>, above: Scope, uri: string)
    requires multiset(s) == multiset(t) && DistinctNames(s) && UsedUri(name, s, uri)
    requires QualifiedName(name, s) == QualifiedName(name, t) && RawAttrs(above, name, s) == RawAttrs(above, name, t)
    ensures PrefixOf(uri, s) == PrefixOf(uri, t)
  {
    if name.space == uri {
      QualifiedByPrefix(name, s, t);
    } else {
      var a :| a in RegularAttrs(s) && a.name.space == uri;
      var sorted := SortedAttrs(s);
      SameSorted(s, t);
      RawAttrsSplit(name, s, t, above, above);
      SortBySorts(RegularAttrs(s), AttrKey);
      var i :| 0 <= i < |sorted| && sorted[i] == a;
      RawRegularAt(sorted, s);
      RawRegularAt(sorted, t);
      QualifiedByPrefix(a.name, s, t);
    }
  }

  /** Two declarations of a used URI: whichever comes first gives the prefix. */
  lemma TwoPrefixesShow(name: Name, s: seq<Attr>, above: Scope)
    requires WellFormedAttrs(s) && !OnePrefix(name, s)
    ensures exists t, u :: multiset(t) == multiset(s) && multiset(u) == multiset(s) && !SameTags(name, t, u, above)
  {
    var a, b :| a in s && b in s && IsNsDecl(a) && IsNsDecl(b) && a.value == b.value && UsedUri(name, s, a.value) && a != b;
    var i :| 0 <= i < |s| && s[i] == a;
    var j :| 0 <= j < |s| && s[j] == b;
    var t, u := Front(s, i, j), Front(s, j, i);
    PermutesTwo(s, i, j);
    PermutesTwo(s, j, i);
    DeclaredFirst(name, s, t, u, above, a, b);
  }

  predicate SameTags(name: Name, s: seq<Attr>, t: seq<Attr>, above: Scope) {
    QualifiedName(name, s) == QualifiedName(name, t) && RawAttrs(above, name, s) == RawAttrs(above, name, t)
  }

  lemma DeclaredFirst(name: Name, s: seq<Attr>, t: seq<Attr>, u: seq<Attr>, above: Scope, a: Attr, b: Attr)
    requires WellFormedAttrs(s) && multiset(t) == multiset(s) == multiset(u) && a in s && b in s && a != b
    requires IsNsDecl(a) && IsNsDecl(b) && a.value == b.value && UsedUri(name, s, a.value)
    requires t != [] && t[0] == a && u != [] && u[0] == b
    ensures !SameTags(name, t, u, above)
  {
    UsedPermuted(name, s, t, a.value);
    DistinctPermuted(s, t);
    if SameTags(name, t, u, above) {
      SameTagSamePrefix(name, t, u, above, a.value);
      PrefixDeclaredOnce(s, a, b);
    }
  }

  lemma UsedPermuted(name: Name, s: seq<Attr>, t: seq<Attr>, uri: string)
    requires multiset(s) == multiset(t)
    ensures UsedUri(name, s, uri) <==> UsedUri(name, t, uri)
  {
    NsAttrsPermute(s, t);
    SameMembers(RegularAttrs(s), RegularAttrs(t));
  }

  lemma DistinctPermuted(s: seq<Attr>, t: seq<Attr>)
    requires multiset(s) == multiset(t) && WellFormedAttrs(s)
    ensures WellFormedAttrs(t)
  {
    SameMembers(s, t);
    DistinctNamesPermute(s, t);
  }

  lemma {:induction false} AttrUsesFrom(regular: seq<Attr>, attrs: seq<Attr>)
    ensures forall b :: b in AttrUses(regular, attrs) <==>
              exists a :: a in regular && a.name.space != "" && b == Binding(PrefixOf(a.name.space, attrs), a.name.space)
  {
    if regular != [] {
      AttrUsesFrom(regular[1..], attrs);
      assert regular == [regular[0]] + regular[1..];
    }
  }

  lemma {:induction false} RegularConcat(s: seq<Attr>, t: seq<Attr>)
    ensures RegularAttrs(s + t) == RegularAttrs(s) + RegularAttrs(t)
    ensures NsAttrs(s + t) == NsAttrs(s) + NsAttrs(t)
  {
    if s == [] {
      assert s + t == t;
    } else {
      assert (s + t)[1..] == s[1..] + t;
      RegularConcat(s[1..], t);
    }
  }

  lemma {:induction false} AttrUsesConcat(s: seq<Attr>, t: seq<Attr>, attrs: seq<Attr>)
    ensures AttrUses(s + t, attrs) == AttrUses(s, attrs) + AttrUses(t, attrs)
  {
    if s == [] {
      assert s + t == t;
    } else {
      assert (s + t)[1..] == s[1..] + t;
      AttrUsesConcat(s[1..], t, attrs);
    }
  }

  lemma TwoLast(attrs: seq<Attr>, x: Attr, y: Attr, t: seq<Attr>, above: Scope)
    requires t == attrs + [x, y] && !IsNsDecl(x) && !IsNsDecl(y) && x.name.space != "" && y.name.space != ""
    ensures var b, c := OwnUse(x.name, t)[0], OwnUse(y.name, t)[0];
      NeedsDecl(above, b) && NeedsDecl(above, c) ==>
        AttrNeeds(above, t) == Needed(above, AttrUses(RegularAttrs(attrs), t)) + [b, c]
  {
    var b, c := OwnUse(x.name, t)[0], OwnUse(y.name, t)[0];
    RegularConcat(attrs, [x, y]);
    assert [x, y][1..] == [y] && [y][1..] == [];
    assert RegularAttrs([]) == [] && RegularAttrs([y]) == [y];
    assert RegularAttrs([x, y]) == [x] + RegularAttrs([y]) == [x, y];
    AttrUsesConcat(RegularAttrs(attrs), [x, y], t);
    assert AttrUses([], t) == [];
    assert AttrUses([y], t) == OwnUse(y.name, t) + [] == [c];
    assert AttrUses([x, y], t) == OwnUse(x.name, t) + AttrUses([y], t) == [b, c];
    NeededConcat(above, AttrUses(RegularAttrs(attrs), t), [b, c]);
    if NeedsDecl(above, b) && NeedsDecl(above, c) { NeededBoth(above, b, c); }
  }

  lemma NeededBoth(above: Scope, b: Binding, c: Binding)
    requires NeedsDecl(above, b) && NeedsDecl(above, c)
    ensures Needed(above, [b, c]) == [b, c]
  {
    assert [b, c][1..] == [c] && [c][1..] == [];
    assert Needed(above, []) == [];
    assert Needed(above, [c]) == [c];
  }

  /** Two attributes that need one prefix for two URIs: whichever comes last is registered, all else equal. */
  lemma TwoNeedsShow(name: Name, s: seq<Attr>, above: Scope, x: Binding, y: Binding)
    returns (t: seq<Attr>, u: seq<Attr>, base: Scope)
    requires WellFormedAttrs(s) && OnePrefix(name, s)
    requires x in AttrNeeds(above, s) && y in AttrNeeds(above, s) && x.prefix == y.prefix && x != y
    ensures multiset(t) == multiset(s) && multiset(u) == multiset(s)
    ensures Frame(above, name, t) == base[x.prefix := x.uri] && Frame(above, name, u) == base[y.prefix := y.uri]
  {
    var i := NeedAt(s, above, x);
    var j := NeedAt(s, above, y);
    t, u := Back(s, j, i), Back(s, i, j);
    PermutesTwo(s, i, j);
    PermutesTwo(s, j, i);
    OnePrefixFixes(name, s, t);
    OnePrefixFixes(name, s, u);
    RegularSound(s);
    assert s[i] in RegularAttrs(s) && s[j] in RegularAttrs(s);
    assert UsedUri(name, s, x.uri) && UsedUri(name, s, y.uri);
    TwoLast(Others(s, j, i), s[j], s[i], t, above);
    TwoLast(Others(s, i, j), s[i], s[j], u, above);
    assert Others(s, i, j) == Others(s, j, i);
    var rest := Needed(above, AttrUses(RegularAttrs(Others(s, i, j)), s));
    OthersUses(name, s, t, i, j);
    OthersUses(name, s, u, i, j);
    assert AttrNeeds(above, t) == rest + [y, x] && AttrNeeds(above, u) == rest + [x, y];
    base := Bind(OwnFrame(above, name, s), rest);
    LastBound(name, s, t, above, rest, y, x);
    LastBound(name, s, u, above, rest, x, y);
  }

  lemma NeedAt(s: seq<Attr>, above: Scope, x: Binding) returns (i: nat)
    requires x in AttrNeeds(above, s)
    ensures i < |s| && !IsNsDecl(s[i]) && s[i].name.space == x.uri != "" && x.prefix == PrefixOf(x.uri, s) && NeedsDecl(above, x)
  {
    NeededSound(above, AttrUses(RegularAttrs(s), s));
    AttrUsesFrom(RegularAttrs(s), s);
    var a :| a in RegularAttrs(s) && a.name.space != "" && x == Binding(PrefixOf(a.name.space, s), a.name.space);
    RegularSound(s);
    i :| 0 <= i < |s| && s[i] == a;
  }

  lemma OthersUses(name: Name, s: seq<Attr>, t: seq<Attr>, i: nat, j: nat)
    requires i < |s| && j < |s| && i != j && SamePrefixes(name, s, t)
    ensures AttrUses(RegularAttrs(Others(s, i, j)), t) == AttrUses(RegularAttrs(Others(s, i, j)), s)
  {
    var others := Others(s, i, j);
    RegularSound(others);
    RegularSound(s);
    assert forall a | a in others :: a in s;
    forall a | a in RegularAttrs(others) && a.name.space != "" ensures PrefixOf(a.name.space, s) == PrefixOf(a.name.space, t) {
      assert a in RegularAttrs(s);
      assert UsedUri(name, s, a.name.space);
    }
    RawRegularSame(RegularAttrs(others), s, t);
  }

  lemma LastBound(name: Name, s: seq<Attr>, t: seq<Attr>, above: Scope, rest: seq<Binding>, first: Binding, last: Binding)
    requires multiset(s) == multiset(t) && WellFormedAttrs(s) && SamePrefixes(name, s, t) && first.prefix == last.prefix
    requires AttrNeeds(above, t) == rest + [first, last]
    ensures Frame(above, name, t) == Bind(OwnFrame(above, name, s), rest)[last.prefix := last.uri]
  {
    SameUses(name, s, t, above);
    SameOwnFrame(name, s, t, above);
    FrameSplit(above, name, t);
    BindLast(OwnFrame(above, name, s), rest, first, last);
  }

  lemma BindLast(scope: Scope, rest: seq<Binding>, first: Binding, last: Binding)
    requires first.prefix == last.prefix
    ensures Bind(scope, rest + [first, last]) == Bind(scope, rest)[last.prefix := last.uri]
  {
    var base := Bind(scope, rest);
    BindConcat(scope, rest, [first, last]);
    assert [first, last][1..] == [last] && [last][1..] == [];
    assert Bind(base, [first, last]) == Bind(base[first.prefix := first.uri], [last]);
    assert base[first.prefix := first.uri][last.prefix := last.uri] == base[last.prefix := last.uri];
  }

  /**
   One start tag of well-formed XML: no order of its attributes shows in it or in the scope of
   its children exactly when every namespace it uses has at most one declaration on it and its attributes
   never need one prefix for two namespaces.
   */
  lemma HeadOrderExact(name: Name, s: seq<Attr>, above: Scope)
    requires WellFormedAttrs(s)
    ensures OrderFreeHead(name, s, above) <==> forall t | multiset(t) == multiset(s) :: SameHead(name, s, t, above)
  {
    if OrderFreeHead(name, s, above) {
      forall t | multiset(t) == multiset(s) ensures SameHead(name, s, t, above) {
        OrderFreeSame(name, s, t, above);
      }
    } else if !OnePrefix(name, s) {
      TwoPrefixesShow(name, s, above);
      var t, u :| multiset(t) == multiset(s) && multiset(u) == multiset(s) && !SameTags(name, t, u, above);
      assert !(SameHead(name, s, t, above) && SameHead(name, s, u, above));
    } else {
      var x, y :| x in AttrNeeds(above, s) && y in AttrNeeds(above, s) && x.prefix == y.prefix && x != y;
      var t, u, base := TwoNeedsShow(name, s, above, x, y);
      assert Frame(above, name, t)[x.prefix] == x.uri != Frame(above, name, u)[x.prefix];
      assert !(SameHead(name, s, t, above) && SameHead(name, s, u, above));
    }
  }

  /** A prefix needed for two namespaces is also declared twice: the tag is not well-formed. */
  lemma ClashRepeatsDeclaration(name: Name, attrs: seq<Attr>, above: Scope)
    requires DistinctPrefixes(RenderedDecls(above, name, attrs))
    ensures Functional(AttrNeeds(above, attrs))
  {
    var decls := RenderedDecls(above, name, attrs);
    DistinctIsFunctional(decls);
    SortBySorts(Needed(above, Uses(name, attrs)), DeclKey);
    NeededConcat(above, OwnUse(name, attrs), AttrUses(RegularAttrs(attrs), attrs));
    assert forall b | b in AttrNeeds(above, attrs) :: b in Needed(above, Uses(name, attrs));
  }
}
