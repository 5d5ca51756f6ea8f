/**
 The streaming canonicaliser as the source runs it: one recursive loop over a shared
 decoder, an output buffer, and a mutable stack of namespace frames.
 */
module Canonicaliser {
  import opened Common
  import opened C14n
  import opened C14nPrelude

  class Decoder {
    var rest: seq<Token>  // what Token() will still deliver before its first error

    constructor (tokens: seq<Token>)
      ensures rest == tokens
    {
      rest := tokens;
    }

    method Next() returns (t: Option<Token>)
      modifies this
      ensures old(rest) == [] ==> t == None && rest == []
      ensures old(rest) != [] ==> t == Some(old(rest)[0]) && rest == old(rest)[1..]
    {
      if rest == [] { return None; }
      t, rest := Some(rest[0]), rest[1..];
    }
  }

  class Buffer {
    var data: string

    constructor ()
      ensures data == ""
    {
      data := "";
    }

    method Write(s: string)
      modifies this
      ensures data == old(data) + s
    {
      data := data + s;
    }
  }

  /** One scope from a stack of frames; the frame on top wins. */
  function Flatten(frames: seq<Scope>): Scope {
    if frames == [] then map[] else Flatten(frames[..|frames| - 1]) + frames[|frames| - 1]
  }

  class NsStack {
    var frames: seq<Scope>

    constructor ()
      ensures frames == [ROOT_SCOPE]
    {
      frames := [ROOT_SCOPE];
    }

    method Push()
      modifies this
      ensures frames == old(frames) + [map[]]
    {
      frames := frames + [map[]];
    }

    method Pop()
      requires frames != []
      modifies this
      ensures frames == old(frames)[..|old(frames)| - 1]
    {
      frames := frames[..|frames| - 1];
    }

    method Declare(b: Binding)
      requires frames != []
      modifies this
      ensures frames == old(frames)[..|old(frames)| - 1]
                     + [old(frames)[|old(frames)| - 1][b.prefix := b.uri]]
    {
      var top := |frames| - 1;
      frames := frames[top := frames[top][b.prefix := b.uri]];
    }

    /** Searches every frame but the top one, innermost first. */
    method NeedsDeclaration(b: Binding) returns (needed: bool)
      requires frames != []
      ensures needed == NeedsDecl(Flatten(frames[..|frames| - 1]), b)
    {
      var below := frames[..|frames| - 1];
      var i := |below|;
      assert below[..i] == below;
      while i > 0
        invariant 0 <= i <= |below|
        invariant b.prefix in Flatten(below) <==> b.prefix in Flatten(below[..i])
        invariant b.prefix in Flatten(below) ==> Flatten(below)[b.prefix] == Flatten(below[..i])[b.prefix]
      {
        i := i - 1;
        assert below[..i + 1][..i] == below[..i];
        if b.prefix in below[i] {
          return below[i][b.prefix] != b.uri;
        }
      }
      return b.uri != "";
    }
  }

  lemma FlattenPush(frames: seq<Scope>, top: Scope)
    ensures Flatten(frames + [top]) == Flatten(frames) + top
  {
    assert (frames + [top])[..|frames|] == frames;
  }

  lemma {:induction false} BindConcat(scope: Scope, a: seq<Binding>, b: seq<Binding>)
    ensures Bind(scope, a + b) == Bind(Bind(scope, a), b)
    decreases a
  {
    if a == [] {
      assert a + b == b;
    } else {
      assert (a + b)[1..] == a[1..] + b;
      BindConcat(scope[a[0].prefix := a[0].uri], a[1..], b);
    }
  }

  lemma {:induction false} NeededConcat(above: Scope, a: seq<Binding>, b: seq<Binding>)
    ensures Needed(above, a + b) == Needed(above, a) + Needed(above, b)
  {
    if a == [] {
      assert a + b == b;
    } else {
      assert (a + b)[1..] == a[1..] + b;
      NeededConcat(above, a[1..], b);
    }
  }

  method SplitAttrs(attrs: seq<Attr>) returns (nsAttrs: seq<Attr>, regular: seq<Attr>)
    ensures nsAttrs == NsAttrs(attrs) && regular == RegularAttrs(attrs)
  {
    nsAttrs, regular := [], [];
    for i := 0 to |attrs|
      invariant nsAttrs + NsAttrs(attrs[i..]) == NsAttrs(attrs)
      invariant regular + RegularAttrs(attrs[i..]) == RegularAttrs(attrs)
    {
      assert attrs[i..][1..] == attrs[i + 1..];
      if IsNsDecl(attrs[i]) {
        nsAttrs := nsAttrs + [attrs[i]];
      } else {
        regular := regular + [attrs[i]];
      }
    }
    assert attrs[|attrs|..] == [];
  }

  /** The top frame of the stack is `frame`; everything under it is `below`. */
  ghost predicate OnTop(ns: NsStack, below: seq<Scope>, frame: Scope)
    reads ns
  {
    ns.frames == below + [frame]
  }

  /** Declares what the element's own attributes bind, then the element's own namespace. */
  method RegisterLocal(ns: NsStack, name: Name, attrs: seq<Attr>, nsAttrs: seq<Attr>, ghost below: seq<Scope>)
    requires OnTop(ns, below, map[]) && nsAttrs == NsAttrs(attrs)
    modifies ns
    ensures OnTop(ns, below, Bind(map[], LocalBindings(nsAttrs) + OwnUse(name, attrs)))
  {
    ghost var frame: Scope := map[];
    for i := 0 to |nsAttrs|
      invariant OnTop(ns, below, frame)
      invariant Bind(frame, LocalBindings(nsAttrs[i..])) == Bind(map[], LocalBindings(nsAttrs))
    {
      assert nsAttrs[i..][1..] == nsAttrs[i + 1..];
      var b := LocalBinding(nsAttrs[i]);
      ns.Declare(b);
      frame := frame[b.prefix := b.uri];
      assert LocalBindings(nsAttrs[i..]) == [b] + LocalBindings(nsAttrs[i + 1..]);
    }
    assert nsAttrs[|nsAttrs|..] == [];
    BindConcat(map[], LocalBindings(nsAttrs), OwnUse(name, attrs));
    if name.space != "" {
      ns.Declare(Binding(PrefixOf(name.space, attrs), name.space));
    }
  }

  /** Collects the declarations to render, registering each in the top frame as it goes. */
  method CollectDecls(ns: NsStack, uses: seq<Binding>, ghost below: seq<Scope>, ghost frame: Scope)
    returns (decls: seq<Binding>)
    requires OnTop(ns, below, frame)
    modifies ns
    ensures decls == Needed(Flatten(below), uses)
    ensures OnTop(ns, below, Bind(frame, decls))
  {
    ghost var above := Flatten(below);
    decls := [];
    assert uses[0..] == uses;
    for i := 0 to |uses|
      invariant OnTop(ns, below, Bind(frame, decls))
      invariant decls + Needed(above, uses[i..]) == Needed(above, uses)
    {
      NeededFrom(above, uses, i);
      decls := DeclareIfNeeded(ns, decls, uses[i], below, frame);
    }
  }

  lemma NeededFrom(above: Scope, uses: seq<Binding>, i: nat)
    requires i < |uses|
    ensures Needed(above, uses[i..]) == Needed(above, [uses[i]]) + Needed(above, uses[i + 1..])
  {
    assert uses[i..] == [uses[i]] + uses[i + 1..];
    NeededConcat(above, [uses[i]], uses[i + 1..]);
  }

  method DeclareIfNeeded(ns: NsStack, decls: seq<Binding>, b: Binding, ghost below: seq<Scope>, ghost frame: Scope)
    returns (r: seq<Binding>)
    requires OnTop(ns, below, Bind(frame, decls))
    modifies ns
    ensures r == decls + Needed(Flatten(below), [b])
    ensures OnTop(ns, below, Bind(frame, r))
  {
    assert ns.frames[..|ns.frames| - 1] == below;
    var needed := ns.NeedsDeclaration(b);
    r := decls;
    if needed {
      r := decls + [b];
      ns.Declare(b);
      BindConcat(frame, decls, [b]);
    }
  }

  lemma {:induction false} PrintAttrsConcat(a: seq<RawAttr>, b: seq<RawAttr>)
    ensures PrintAttrs(a + b) == PrintAttrs(a) + PrintAttrs(b)
  {
    if a == [] {
      assert a + b == b;
    } else {
      assert (a + b)[1..] == a[1..] + b;
      PrintAttrsConcat(a[1..], b);
    }
  }

  method WriteAttrs(buf: Buffer, attrs: seq<RawAttr>)
    modifies buf
    ensures buf.data == old(buf.data) + PrintAttrs(attrs)
  {
    assert attrs[0..] == attrs;
    for i := 0 to |attrs|
      invariant buf.data + PrintAttrs(attrs[i..]) == old(buf.data) + PrintAttrs(attrs)
    {
      assert attrs[i..][1..] == attrs[i + 1..];
      buf.Write(PrintAttr(attrs[i]));
    }
  }

  /** Writes a start tag, leaving the element's frame on top of the stack. */
  method OpenTag(buf: Buffer, ns: NsStack, name: Name, attrs: seq<Attr>)
    returns (tagName: string)
    requires ns.frames != []
    modifies buf, ns
    ensures tagName == QualifiedName(name, attrs)
    ensures OnTop(ns, old(ns.frames), Frame(Flatten(old(ns.frames)), name, attrs))
    ensures buf.data == old(buf.data) + OpenText(tagName, RawAttrs(Flatten(old(ns.frames)), name, attrs))
  {
    tagName := QualifiedName(name, attrs);
    var nsAttrs, regular := SplitAttrs(attrs);
    var decls := PushFrame(ns, name, attrs, nsAttrs);
    WriteStartTag(buf, tagName, RawDecls(SortBy(decls, DeclKey)), RawRegular(SortBy(regular, AttrKey), attrs));
  }

  method WriteStartTag(buf: Buffer, tagName: string, decls: seq<RawAttr>, regular: seq<RawAttr>)
    modifies buf
    ensures buf.data == old(buf.data) + OpenText(tagName, decls + regular)
  {
    Regroup(buf.data, "<" + tagName, PrintAttrs(decls), PrintAttrs(regular), ">");
    PrintAttrsConcat(decls, regular);
    buf.Write("<" + tagName);
    WriteAttrs(buf, decls);
    WriteAttrs(buf, regular);
    buf.Write(">");
  }

  lemma Regroup(a: string, b: string, c: string, d: string, e: string)
    ensures a + b + c + d + e == a + (b + (c + d) + e)
  {
  }

  method PushFrame(ns: NsStack, name: Name, attrs: seq<Attr>, nsAttrs: seq<Attr>) returns (decls: seq<Binding>)
    requires ns.frames != [] && nsAttrs == NsAttrs(attrs)
    modifies ns
    ensures OnTop(ns, old(ns.frames), Frame(Flatten(old(ns.frames)), name, attrs))
    ensures decls == Needed(Flatten(old(ns.frames)), Uses(name, attrs))
  {
    ghost var below := ns.frames;
    ns.Push();
    RegisterLocal(ns, name, attrs, nsAttrs, below);
    ghost var bindings := LocalBindings(nsAttrs) + OwnUse(name, attrs);
    decls := CollectDecls(ns, Uses(name, attrs), below, Bind(map[], bindings));
    BindConcat(map[], bindings, decls);
  }

  /** What the tree serialiser writes for the body at the head of a token stream. */
  ghost function Body(ts: seq<Token>, above: Scope): string {
    Print(Canon(Forest(ts).0, above))
  }

  /**
   One call consumes the body of exactly one element (or a truncated stream's remainder),
   restores the namespace stack, and writes what the tree serialiser writes for that body.
   */
  method CanonicaliseNode(dec: Decoder, buf: Buffer, ns: NsStack)
    requires ns.frames != []
    modifies dec, buf, ns
    ensures ns.frames == old(ns.frames)
    ensures dec.rest == Forest(old(dec.rest)).1
    ensures buf.data == old(buf.data) + Body(old(dec.rest), Flatten(ns.frames))
    decreases |dec.rest|, 1
  {
    var more := true;
    while more
      invariant ns.frames == old(ns.frames)
      invariant |dec.rest| <= |old(dec.rest)|
      invariant (if more then Forest(dec.rest).1 else dec.rest) == Forest(old(dec.rest)).1
      invariant buf.data + (if more then Body(dec.rest, Flatten(ns.frames)) else "")
             == old(buf.data) + Body(old(dec.rest), Flatten(ns.frames))
      decreases more, |dec.rest|
    {
      more := CanonicaliseToken(dec, buf, ns);
    }
  }

  /** One round of the loop: false when the body has ended. */
  method CanonicaliseToken(dec: Decoder, buf: Buffer, ns: NsStack) returns (more: bool)
    requires ns.frames != []
    modifies dec, buf, ns
    ensures ns.frames == old(ns.frames)
    ensures more ==> |dec.rest| < |old(dec.rest)| && Forest(dec.rest).1 == Forest(old(dec.rest)).1
    ensures !more ==> dec.rest == Forest(old(dec.rest)).1 && |dec.rest| <= |old(dec.rest)|
    ensures buf.data + (if more then Body(dec.rest, Flatten(ns.frames)) else "")
         == old(buf.data) + Body(old(dec.rest), Flatten(ns.frames))
    decreases |dec.rest|, 0
  {
    var tok := dec.Next();
    match tok
    case None => return false;
    case Some(End) => return false;
    case Some(Start(name, attrs)) =>
      ghost var kids := Forest(dec.rest).0;
      CanonicaliseElement(dec, buf, ns, name, attrs);
      OneMore(Elem(name, attrs, kids), Forest(dec.rest).0, Flatten(ns.frames));
      return true;
    case Some(CharData(s)) =>
      buf.Write(EscapeText(s));
      PrintText(s);
      OneMore(Text(s), Forest(dec.rest).0, Flatten(ns.frames));
      return true;
    case Some(Comment) => return true;
    case Some(ProcInst) => return true;
    case Some(Directive) => return true;
  }

  /** The branch for a start tag: its children, up to and including its end tag. */
  method CanonicaliseElement(dec: Decoder, buf: Buffer, ns: NsStack, name: Name, attrs: seq<Attr>)
    requires ns.frames != []
    modifies dec, buf, ns
    ensures ns.frames == old(ns.frames)
    ensures dec.rest == Forest(old(dec.rest)).1
    ensures buf.data == old(buf.data)
                      + Print(CanonTree(Elem(name, attrs, Forest(old(dec.rest)).0), Flatten(ns.frames)))
    decreases |dec.rest|, 2
  {
    ghost var above, kids, before := Flatten(ns.frames), dec.rest, buf.data;
    FlattenPush(ns.frames, Frame(above, name, attrs));
    var tagName := OpenTag(buf, ns, name, attrs);
    CanonicaliseNode(dec, buf, ns);
    buf.Write(CloseText(tagName));
    ns.Pop();
    ElementPrinted(before, name, attrs, kids, above);
  }

  lemma ElementPrinted(before: string, name: Name, attrs: seq<Attr>, ts: seq<Token>, above: Scope)
    ensures var tag := QualifiedName(name, attrs);
      before + OpenText(tag, RawAttrs(above, name, attrs)) + Body(ts, above + Frame(above, name, attrs)) + CloseText(tag)
      == before + Print(CanonTree(Elem(name, attrs, Forest(ts).0), above))
  {
    var tag, raw := QualifiedName(name, attrs), RawAttrs(above, name, attrs);
    var kids := Canon(Forest(ts).0, above + Frame(above, name, attrs));
    PrintOne(RawElem(tag, raw, kids));
    Group(before, OpenText(tag, raw), Print(kids), CloseText(tag));
  }

  lemma Group(a: string, b: string, c: string, d: string)
    ensures a + b + c + d == a + (b + c + d)
  {
  }

  lemma OneMore(tree: Tree, siblings: seq<Tree>, above: Scope)
    ensures Print(Canon([tree] + siblings, above)) == Print(CanonTree(tree, above)) + Print(Canon(siblings, above))
  {
    assert ([tree] + siblings)[1..] == siblings;
    PrintConcat(CanonTree(tree, above), Canon(siblings, above));
  }

  lemma PrintOne(item: Raw)
    ensures Print([item]) == PrintItem(item)
  {
    assert [item][1..] == [];
  }

  /** The output for a token stream: the serialised forest in the root scope. */
  function Canonical(tokens: seq<Token>): string {
    Print(Canon(Forest(tokens).0, ROOT_SCOPE))
  }

  /** The output for a document's bytes, or None for a declaration that does not end. */
  function CanonicalDocument(data: string, decode: string -> seq<Token>): Option<string> {
    match Payload(data)
    case None => None
    case Some(doc) => Some(Canonical(decode(doc)))
  }

  /** `decode` is the XML decoder: the tokens it delivers for a text before its first error. */
  method ExclC14N(xmlData: string, decode: string -> seq<Token>) returns (out: Option<string>)
    ensures out == CanonicalDocument(xmlData, decode)
  {
    var data := TrimSpace(xmlData);
    if "<?xml" <= data {
      var end := Index(data, "?>");
      if end == None { return None; }
      IndexIsFirst(data);
      data := TrimSpace(data[end.value + 2..]);
    }
    var tokens := decode(data);
    assert CanonicalDocument(xmlData, decode) == Some(Canonical(tokens));
    var dec := new Decoder(tokens);
    var buf := new Buffer();
    var ns := new NsStack();
    assert ns.frames[..0] == [];
    assert Flatten(ns.frames) == ROOT_SCOPE;
    CanonicaliseNode(dec, buf, ns);
    assert buf.data == Canonical(tokens);
    out := Some(buf.data);
  }

  /** A document with a declaration, however spaced, has the canonical form of the bare document. */
  lemma DeclarationOmitted(b1: string, inner: string, b2: string, doc: string, b3: string, decode: string -> seq<Token>)
    requires Blank(b1) && Blank(b2) && Blank(b3) && Trimmed(doc) && !("<?xml" <= doc)
    requires forall i :: !EndsAt(inner, i)
    ensures CanonicalDocument(b1 + doc + b3, decode) == Some(Canonical(decode(doc)))
    ensures CanonicalDocument(b1 + "<?xml" + inner + "?>" + b2 + doc + b3, decode) == Some(Canonical(decode(doc)))
  {
    DeclarationNeverShows(b1, inner, b2, doc, b3);
    BlanksNeverShow(b1, doc, b3);
  }
}
