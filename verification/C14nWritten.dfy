/**
 What the canonical form of one start tag holds, and in which order: stated on the attributes
 written, without the sort or its keys.
 */
module C14nWritten {
  import opened Common
  import opened C14n
  import opened C14nMeaning
  import Canonicaliser

  // ---- Prefixes ----

  predicate Declares(a: Attr, uri: string) { IsNsDecl(a) && a.value == uri }

  /** The first declaration of a namespace on the element gives its prefix, a default declaration the empty one. */
  lemma {:induction false} FirstDeclarationNames(uri: string, attrs: seq<Attr>, i: nat)
    requires i < |attrs| && Declares(attrs[i], uri) && forall j | 0 <= j < i :: !Declares(attrs[j], uri)
    ensures PrefixOf(uri, attrs) == if attrs[i].name.space == "xmlns" then attrs[i].name.local else ""
  {
    if i > 0 { FirstDeclarationNames(uri, attrs[1..], i - 1); }
  }

  const SAML := "urn:oasis:names:tc:SAML:2.0:assertion"
  const SAMLP := "urn:oasis:names:tc:SAML:2.0:protocol"
  const METADATA := "urn:oasis:names:tc:SAML:2.0:metadata"
  const XMLDSIG := "http://www.w3.org/2000/09/xmldsig#"
  const SCHEMA := "http://www.w3.org/2001/XMLSchema-instance"

  lemma WellKnownDistinct()
    ensures |SAML| == 37 && |SAMLP| == |METADATA| == |XML_URI| == 36 && |XMLDSIG| == 34 && |SCHEMA| == 41
    ensures SAMLP[28] == 'p' && METADATA[28] == 'm' && XML_URI[28] == 'a'
  {
  }

  /** Six namespaces have a prefix of their own when the element does not declare them; any other one has the empty prefix. */
  lemma {:induction false} UndeclaredNames(uri: string, attrs: seq<Attr>)
    requires forall a | a in attrs :: !Declares(a, uri)
    ensures uri == SAML ==> PrefixOf(uri, attrs) == "saml"
    ensures uri == SAMLP ==> PrefixOf(uri, attrs) == "samlp"
    ensures uri == XMLDSIG ==> PrefixOf(uri, attrs) == "ds"
    ensures uri == SCHEMA ==> PrefixOf(uri, attrs) == "xsi"
    ensures uri == METADATA ==> PrefixOf(uri, attrs) == "md"
    ensures uri == XML_URI ==> PrefixOf(uri, attrs) == "xml"
    ensures uri !in {SAML, SAMLP, XMLDSIG, SCHEMA, METADATA, XML_URI} ==> PrefixOf(uri, attrs) == ""
  {
    if attrs == [] {
      WellKnownDistinct();
    } else {
      assert attrs[0] in attrs && !Declares(attrs[0], uri);
      UndeclaredNames(uri, attrs[1..]);
    }
  }

  // ---- Order ----

  lemma SortedAt<T(!new)>(s: seq<T>, key: T -> Key, i: nat, j: nat)
    requires i < j < |SortBy(s, key)|
    ensures !KeyLess(key(SortBy(s, key)[j]), key(SortBy(s, key)[i]))
  {
    SortBySorts(s, key);
  }

  /** By namespace URI and then by local name. */
  predicate NameInOrder(a: Name, b: Name) {
    Less(a.space, b.space) || (a.space == b.space && !Less(b.local, a.local))
  }

  /** The default declaration first, then by prefix, then by URI. */
  predicate DeclInOrder(a: Binding, b: Binding) {
    if a.prefix == b.prefix then !Less(b.uri, a.uri)
    else a.prefix == "" || (b.prefix != "" && Less(a.prefix, b.prefix))
  }

  lemma AttrsInOrder(attrs: seq<Attr>, i: nat, j: nat)
    requires i < j < |SortedAttrs(attrs)|
    ensures NameInOrder(SortedAttrs(attrs)[i].name, SortedAttrs(attrs)[j].name)
  {
    var a, b := SortedAttrs(attrs)[i].name, SortedAttrs(attrs)[j].name;
    SortedAt(RegularAttrs(attrs), AttrKey, i, j);
    LessTrichotomy(a.space, b.space);
  }

  lemma DeclsInOrder(above: Scope, name: Name, attrs: seq<Attr>, i: nat, j: nat)
    requires i < j < |RenderedDecls(above, name, attrs)|
    ensures DeclInOrder(RenderedDecls(above, name, attrs)[i], RenderedDecls(above, name, attrs)[j])
  {
    var a, b := RenderedDecls(above, name, attrs)[i], RenderedDecls(above, name, attrs)[j];
    SortedAt(Needed(above, Uses(name, attrs)), DeclKey, i, j);
    LessTrichotomy(a.prefix, b.prefix);
  }

  // ---- Contents ----

  /** The names a start tag shows. */
  function NamesShown(name: Name, attrs: seq<Attr>): set<Name> {
    {name} + set a | a in attrs && !IsNsDecl(a) :: a.name
  }

  /** Some name shown is in the namespace that b binds, and b binds the prefix it is written with. */
  ghost predicate VisiblyUsed(name: Name, attrs: seq<Attr>, b: Binding) {
    exists n :: n in NamesShown(name, attrs) && n.space != "" && b == Binding(PrefixOf(n.space, attrs), n.space)
  }

  lemma {:induction false} AttrUsesExactly(regular: seq<Attr>, attrs: seq<Attr>, b: Binding)
    ensures b in AttrUses(regular, attrs) <==>
            exists a :: a in regular && a.name.space != "" && b == Binding(PrefixOf(a.name.space, attrs), a.name.space)
  {
    if regular != [] {
      AttrUsesExactly(regular[1..], attrs, b);
      assert regular == [regular[0]] + regular[1..];
    }
  }

  /** A declaration is written exactly for the bindings in visible use that the ancestors have not registered. */
  lemma DeclaredExactly(above: Scope, name: Name, attrs: seq<Attr>, b: Binding)
    ensures b in RenderedDecls(above, name, attrs) <==> VisiblyUsed(name, attrs, b) && !BoundTo(above, b)
  {
    SortBySorts(Needed(above, Uses(name, attrs)), DeclKey);
    NeededSound(above, Uses(name, attrs));
    RegularSound(attrs);
    AttrUsesExactly(RegularAttrs(attrs), attrs, b);
    if b in AttrUses(RegularAttrs(attrs), attrs) {
      var a :| a in RegularAttrs(attrs) && a.name.space != "" && b == Binding(PrefixOf(a.name.space, attrs), a.name.space);
      assert a.name in NamesShown(name, attrs);
    }
    if b in OwnUse(name, attrs) { assert name in NamesShown(name, attrs); }
  }

  /** How an attribute is written under the prefix of its namespace. */
  predicate WrittenAs(a: Attr, attrs: seq<Attr>, raw: RawAttr) {
    var p := PrefixOf(a.name.space, attrs);
    raw.value == a.value && raw.name == if a.name.space == "" || p == "" then a.name.local else p + ":" + a.name.local
  }

  predicate DeclWrittenAs(b: Binding, raw: RawAttr) {
    raw.value == b.uri && raw.name == if b.prefix == "" then "xmlns" else "xmlns:" + b.prefix
  }

  /**
   A start tag holds the missing declarations, default one first, then by prefix, then by URI; and after them
   every attribute that is no declaration, by namespace URI and then by local name.
   */
  lemma StartTagWritten(above: Scope, name: Name, attrs: seq<Attr>) returns (decls: seq<Binding>, regular: seq<Attr>)
    ensures forall b :: b in decls <==> VisiblyUsed(name, attrs, b) && !BoundTo(above, b)
    ensures forall i, j | 0 <= i < j < |decls| :: DeclInOrder(decls[i], decls[j])
    ensures multiset(regular) == multiset(RegularAttrs(attrs)) && forall a :: a in regular <==> a in attrs && !IsNsDecl(a)
    ensures forall i, j | 0 <= i < j < |regular| :: NameInOrder(regular[i].name, regular[j].name)
    ensures var raw := RawAttrs(above, name, attrs);
      && |raw| == |decls| + |regular|
      && (forall i | 0 <= i < |decls| :: DeclWrittenAs(decls[i], raw[i]))
      && (forall i | 0 <= i < |regular| :: WrittenAs(regular[i], attrs, raw[|decls| + i]))
  {
    decls, regular := RenderedDecls(above, name, attrs), SortedAttrs(attrs);
    forall b ensures b in decls <==> VisiblyUsed(name, attrs, b) && !BoundTo(above, b) { DeclaredExactly(above, name, attrs, b); }
    forall i, j | 0 <= i < j < |decls| ensures DeclInOrder(decls[i], decls[j]) { DeclsInOrder(above, name, attrs, i, j); }
    forall i, j | 0 <= i < j < |regular| ensures NameInOrder(regular[i].name, regular[j].name) { AttrsInOrder(attrs, i, j); }
    AttrsWritten(attrs);
    RawDeclsAt(decls);
    RawRegularAt(regular, attrs);
  }

  lemma AttrsWritten(attrs: seq<Attr>)
    ensures multiset(SortedAttrs(attrs)) == multiset(RegularAttrs(attrs))
    ensures forall a :: a in SortedAttrs(attrs) <==> a in attrs && !IsNsDecl(a)
  {
    SortBySorts(RegularAttrs(attrs), AttrKey);
    RegularSound(attrs);
  }

  // ---- What is not written ----

  predicate Silent(t: Token) { t.Comment? || t.ProcInst? || t.Directive? }

  function Spoken(ts: seq<Token>): (r: seq<Token>)
    ensures |r| <= |ts|
  {
    if ts == [] then [] else (if Silent(ts[0]) then [] else [ts[0]]) + Spoken(ts[1..])
  }

  /** Comments, processing instructions and directives change nothing, wherever they stand. */
  lemma {:induction false} SilentTokens(ts: seq<Token>)
    ensures Forest(Spoken(ts)).0 == Forest(ts).0
    ensures Forest(Spoken(ts)).1 == Spoken(Forest(ts).1)
    decreases |ts|
  {
    if ts != [] {
      SilentTokens(ts[1..]);
      if !Silent(ts[0]) {
        assert Spoken(ts)[0] == ts[0] && Spoken(ts)[1..] == Spoken(ts[1..]);
        if ts[0].Start? { SilentTokens(Forest(ts[1..]).1); }
      } else {
        assert Spoken(ts) == Spoken(ts[1..]);
      }
    }
  }

  lemma CommentsNeverShow(tokens: seq<Token>)
    ensures Canonicaliser.Canonical(tokens) == Canonicaliser.Canonical(Spoken(tokens))
  {
    SilentTokens(tokens);
  }
}
