/**
 Exclusive canonicalisation of a token stream (server/internal/saml/c14n.go).
 A character of a string stands for one byte. The stream is what the XML decoder
 hands out: names carry their namespace, declarations keep the space "xmlns".
 */
module C14n {
  import opened Common

  datatype Name = Name(space: string, local: string)
  datatype Attr = Attr(name: Name, value: string)
  datatype Token =
    | Start(name: Name, attrs: seq<Attr>)
    | End
    | CharData(text: string)
    | Comment | ProcInst | Directive

  /** prefix -> URI, as one flat scope */
  type Scope = map<string, string>
  datatype Binding = Binding(prefix: string, uri: string)

  const XML_URI := "http://www.w3.org/XML/1998/namespace"
  const ROOT_SCOPE: Scope := map["xml" := XML_URI]

  // ---- Escaping ----

  /** strings.ReplaceAll with a one-character old string */
  function ReplaceAll(s: string, c: char, rep: string): string {
    if s == "" then "" else (if s[0] == c then rep else [s[0]]) + ReplaceAll(s[1..], c, rep)
  }

  function EscapeText(s: string): string {
    ReplaceAll(ReplaceAll(ReplaceAll(ReplaceAll(s, '&', "&amp;"), '<', "&lt;"), '>', "&gt;"), '\r', "&#xD;")
  }

  function EscapeAttr(s: string): string {
    ReplaceAll(ReplaceAll(ReplaceAll(ReplaceAll(ReplaceAll(ReplaceAll(s,
      '&', "&amp;"), '<', "&lt;"), '\"', "&quot;"), '\t', "&#x9;"), '\n', "&#xA;"), '\r', "&#xD;")
  }

  // ---- Prefixes ----

  predicate IsDefaultDecl(a: Attr) { a.name.space == "" && a.name.local == "xmlns" }

  predicate IsNsDecl(a: Attr) { a.name.space == "xmlns" || IsDefaultDecl(a) }

  function WellKnownPrefix(uri: string): string {
    if uri == "urn:oasis:names:tc:SAML:2.0:assertion" then "saml"
    else if uri == "urn:oasis:names:tc:SAML:2.0:protocol" then "samlp"
    else if uri == "http://www.w3.org/2000/09/xmldsig#" then "ds"
    else if uri == "http://www.w3.org/2001/XMLSchema-instance" then "xsi"
    else if uri == "urn:oasis:names:tc:SAML:2.0:metadata" then "md"
    else if uri == XML_URI then "xml"
    else ""
  }

  function PrefixOf(uri: string, attrs: seq<Attr>): string {
    if attrs == [] then WellKnownPrefix(uri)
    else if attrs[0].name.space == "xmlns" && attrs[0].value == uri then attrs[0].name.local
    else if IsDefaultDecl(attrs[0]) && attrs[0].value == uri then ""
    else PrefixOf(uri, attrs[1..])
  }

  function QualifiedName(name: Name, attrs: seq<Attr>): string {
    if name.space == "" || PrefixOf(name.space, attrs) == "" then name.local
    else PrefixOf(name.space, attrs) + ":" + name.local
  }

  // ---- What one element declares, uses and renders ----

  function NsAttrs(attrs: seq<Attr>): seq<Attr> {
    if attrs == [] then []
    else (if IsNsDecl(attrs[0]) then [attrs[0]] else []) + NsAttrs(attrs[1..])
  }

  function RegularAttrs(attrs: seq<Attr>): seq<Attr> {
    if attrs == [] then []
    else (if IsNsDecl(attrs[0]) then [] else [attrs[0]]) + RegularAttrs(attrs[1..])
  }

  function LocalBinding(a: Attr): Binding {
    Binding(if IsDefaultDecl(a) then "" else a.name.local, a.value)
  }

  function LocalBindings(nsAttrs: seq<Attr>): seq<Binding> {
    if nsAttrs == [] then [] else [LocalBinding(nsAttrs[0])] + LocalBindings(nsAttrs[1..])
  }

  /** The binding the element's own name uses, if it is in a namespace. */
  function OwnUse(name: Name, attrs: seq<Attr>): seq<Binding> {
    if name.space == "" then [] else [Binding(PrefixOf(name.space, attrs), name.space)]
  }

  function AttrUses(regular: seq<Attr>, attrs: seq<Attr>): seq<Binding> {
    if regular == [] then [] else OwnUse(regular[0].name, attrs) + AttrUses(regular[1..], attrs)
  }

  function Uses(name: Name, attrs: seq<Attr>): seq<Binding> {
    OwnUse(name, attrs) + AttrUses(RegularAttrs(attrs), attrs)
  }

  /** nsStack.needsDeclaration, with the frames below the top one flattened to a scope */
  predicate NeedsDecl(above: Scope, b: Binding) {
    if b.prefix in above then above[b.prefix] != b.uri else b.uri != ""
  }

  function Needed(above: Scope, uses: seq<Binding>): seq<Binding> {
    if uses == [] then []
    else (if NeedsDecl(above, uses[0]) then [uses[0]] else []) + Needed(above, uses[1..])
  }

  function Bind(scope: Scope, bs: seq<Binding>): Scope
    decreases bs
  {
    if bs == [] then scope else Bind(scope[bs[0].prefix := bs[0].uri], bs[1..])
  }

  /** The frame an element leaves on the stack while its children are written. */
  function Frame(above: Scope, name: Name, attrs: seq<Attr>): Scope {
    Bind(map[], LocalBindings(NsAttrs(attrs)) + OwnUse(name, attrs) + Needed(above, Uses(name, attrs)))
  }

  function DeclKey(b: Binding): Key { (b.prefix, b.uri) }
  function AttrKey(a: Attr): Key { (a.name.space, a.name.local) }

  function RenderedDecls(above: Scope, name: Name, attrs: seq<Attr>): seq<Binding> {
    SortBy(Needed(above, Uses(name, attrs)), DeclKey)
  }

  function SortedAttrs(attrs: seq<Attr>): seq<Attr> {
    SortBy(RegularAttrs(attrs), AttrKey)
  }

  // ---- Output as a tree of raw markup, and its printed form ----

  datatype RawAttr = RawAttr(name: string, value: string)
  datatype Raw = RawElem(tag: string, attrs: seq<RawAttr>, kids: seq<Raw>) | RawChar(c: char)

  function RawDecl(b: Binding): RawAttr {
    RawAttr(if b.prefix == "" then "xmlns" else "xmlns:" + b.prefix, b.uri)
  }

  function RawDecls(bs: seq<Binding>): seq<RawAttr> {
    if bs == [] then [] else [RawDecl(bs[0])] + RawDecls(bs[1..])
  }

  function RawRegular(regular: seq<Attr>, attrs: seq<Attr>): seq<RawAttr> {
    if regular == [] then []
    else [RawAttr(QualifiedName(regular[0].name, attrs), regular[0].value)] + RawRegular(regular[1..], attrs)
  }

  function RawAttrs(above: Scope, name: Name, attrs: seq<Attr>): seq<RawAttr> {
    RawDecls(RenderedDecls(above, name, attrs)) + RawRegular(SortedAttrs(attrs), attrs)
  }

  function PrintAttr(a: RawAttr): string {
    " " + a.name + "=\"" + EscapeAttr(a.value) + "\""
  }

  function PrintAttrs(attrs: seq<RawAttr>): string {
    if attrs == [] then "" else PrintAttr(attrs[0]) + PrintAttrs(attrs[1..])
  }

  function OpenText(tag: string, attrs: seq<RawAttr>): string { "<" + tag + PrintAttrs(attrs) + ">" }

  function CloseText(tag: string): string { "</" + tag + ">" }

  function Print(items: seq<Raw>): string {
    if items == [] then "" else PrintItem(items[0]) + Print(items[1..])
  }

  function PrintItem(item: Raw): string {
    match item
    case RawChar(c) => EscapeText([c])
    case RawElem(tag, attrs, kids) =>
      OpenText(tag, attrs) + Print(kids) + CloseText(tag)
  }

  // ---- The document as a tree, and the reference serialiser ----

  datatype Tree = Elem(name: Name, attrs: seq<Attr>, kids: seq<Tree>) | Text(text: string)

  /** Reads siblings up to the closing token (or the end of a truncated stream). */
  function Forest(ts: seq<Token>): (r: (seq<Tree>, seq<Token>))
    ensures |r.1| <= |ts| && (ts != [] ==> |r.1| < |ts|)
    decreases |ts|
  {
    if ts == [] then ([], [])
    else
      match ts[0]
      case End => ([], ts[1..])
      case CharData(s) => var (siblings, rest) := Forest(ts[1..]); ([Text(s)] + siblings, rest)
      case Start(name, attrs) =>
        var (kids, afterKids) := Forest(ts[1..]);
        var (siblings, rest) := Forest(afterKids);
        ([Elem(name, attrs, kids)] + siblings, rest)
      case _ => Forest(ts[1..])
  }

  function RawChars(s: string): seq<Raw> {
    if s == "" then [] else [RawChar(s[0])] + RawChars(s[1..])
  }

  /** Tree serialiser with an immutable scope: the bindings registered by all ancestors. */
  function Canon(forest: seq<Tree>, above: Scope): seq<Raw> {
    if forest == [] then []
    else CanonTree(forest[0], above) + Canon(forest[1..], above)
  }

  function CanonTree(tree: Tree, above: Scope): seq<Raw> {
    match tree
    case Text(s) => RawChars(s)
    case Elem(name, attrs, kids) =>
      [RawElem(QualifiedName(name, attrs), RawAttrs(above, name, attrs),
               Canon(kids, above + Frame(above, name, attrs)))]
  }

  // ---- Escaping a string is escaping its characters ----

  lemma {:induction false} ReplaceAllConcat(s: string, t: string, c: char, rep: string)
    ensures ReplaceAll(s + t, c, rep) == ReplaceAll(s, c, rep) + ReplaceAll(t, c, rep)
  {
    if s == "" {
      assert s + t == t;
    } else {
      assert (s + t)[1..] == s[1..] + t;
      ReplaceAllConcat(s[1..], t, c, rep);
    }
  }

  lemma EscapeTextConcat(s: string, t: string)
    ensures EscapeText(s + t) == EscapeText(s) + EscapeText(t)
  {
    ReplaceAllConcat(s, t, '&', "&amp;");
    var s1, t1 := ReplaceAll(s, '&', "&amp;"), ReplaceAll(t, '&', "&amp;");
    ReplaceAllConcat(s1, t1, '<', "&lt;");
    var s2, t2 := ReplaceAll(s1, '<', "&lt;"), ReplaceAll(t1, '<', "&lt;");
    ReplaceAllConcat(s2, t2, '>', "&gt;");
    ReplaceAllConcat(ReplaceAll(s2, '>', "&gt;"), ReplaceAll(t2, '>', "&gt;"), '\r', "&#xD;");
  }

  lemma EscapeAttrConcat(s: string, t: string)
    ensures EscapeAttr(s + t) == EscapeAttr(s) + EscapeAttr(t)
  {
    ReplaceAllConcat(s, t, '&', "&amp;");
    var s1, t1 := ReplaceAll(s, '&', "&amp;"), ReplaceAll(t, '&', "&amp;");
    ReplaceAllConcat(s1, t1, '<', "&lt;");
    var s2, t2 := ReplaceAll(s1, '<', "&lt;"), ReplaceAll(t1, '<', "&lt;");
    ReplaceAllConcat(s2, t2, '\"', "&quot;");
    var s3, t3 := ReplaceAll(s2, '\"', "&quot;"), ReplaceAll(t2, '\"', "&quot;");
    ReplaceAllConcat(s3, t3, '\t', "&#x9;");
    var s4, t4 := ReplaceAll(s3, '\t', "&#x9;"), ReplaceAll(t3, '\t', "&#x9;");
    ReplaceAllConcat(s4, t4, '\n', "&#xA;");
    ReplaceAllConcat(ReplaceAll(s4, '\n', "&#xA;"), ReplaceAll(t4, '\n', "&#xA;"), '\r', "&#xD;");
  }

  lemma {:induction false} ReplaceAllChar(c: char, d: char, rep: string)
    ensures ReplaceAll([c], d, rep) == if c == d then rep else [c]
  {
    assert [c][1..] == "";
  }

  lemma {:induction false} ReplaceAllAbsent(s: string, c: char, rep: string)
    requires c !in s
    ensures ReplaceAll(s, c, rep) == s
  {
    if s != "" {
      ReplaceAllAbsent(s[1..], c, rep);
    }
  }

  function Reference(c: char): string {
    match c
    case '&' => "&amp;"
    case '<' => "&lt;"
    case '>' => "&gt;"
    case '\"' => "&quot;"
    case '\t' => "&#x9;"
    case '\n' => "&#xA;"
    case '\r' => "&#xD;"
    case _ => [c]
  }

  predicate EscapedInText(c: char) { c == '&' || c == '<' || c == '>' || c == '\r' }

  predicate EscapedInAttr(c: char) {
    c == '&' || c == '<' || c == '\"' || c == '\t' || c == '\n' || c == '\r'
  }

  /** Only because '&' is replaced first does no replacement meet another one's output. */
  lemma EscapeTextChar(c: char)
    ensures EscapeText([c]) == if EscapedInText(c) then Reference(c) else [c]
  {
    var s1 := ReplaceAll([c], '&', "&amp;");
    assert s1 == (if c == '&' then Reference(c) else [c]) by { ReplaceAllChar(c, '&', "&amp;"); }
    EscapeAngles(c, s1);
  }

  lemma EscapeAngles(c: char, s1: string)
    requires s1 == if c == '&' then Reference(c) else [c]
    ensures ReplaceAll(ReplaceAll(ReplaceAll(s1, '<', "&lt;"), '>', "&gt;"), '\r', "&#xD;")
         == if EscapedInText(c) then Reference(c) else [c]
  {
    LaterReplacement(c, s1, '<');
    var s2 := ReplaceAll(s1, '<', "&lt;");
    LaterReplacement(c, s2, '>');
    var s3 := ReplaceAll(s2, '>', "&gt;");
    LaterReplacement(c, s3, '\r');
  }

  lemma EscapeAttrChar(c: char)
    ensures EscapeAttr([c]) == if EscapedInAttr(c) then Reference(c) else [c]
  {
    var s1 := ReplaceAll([c], '&', "&amp;");
    assert s1 == (if c == '&' then Reference(c) else [c]) by { ReplaceAllChar(c, '&', "&amp;"); }
    LaterReplacement(c, s1, '<');
    var s2 := ReplaceAll(s1, '<', "&lt;");
    LaterReplacement(c, s2, '\"');
    var s3 := ReplaceAll(s2, '\"', "&quot;");
    EscapeBlanks(c, s3);
  }

  lemma EscapeBlanks(c: char, s3: string)
    requires s3 == if c == '&' || c == '<' || c == '\"' then Reference(c) else [c]
    ensures ReplaceAll(ReplaceAll(ReplaceAll(s3, '\t', "&#x9;"), '\n', "&#xA;"), '\r', "&#xD;")
         == if EscapedInAttr(c) then Reference(c) else [c]
  {
    LaterReplacement(c, s3, '\t');
    var s4 := ReplaceAll(s3, '\t', "&#x9;");
    LaterReplacement(c, s4, '\n');
    var s5 := ReplaceAll(s4, '\n', "&#xA;");
    LaterReplacement(c, s5, '\r');
  }

  /** A later replacement sees the character itself, or a reference it leaves alone. */
  lemma LaterReplacement(c: char, s: string, d: char)
    requires d != '&' && Reference(d) != [d]
    requires s == [c] || (c != d && s == Reference(c))
    ensures ReplaceAll(s, d, Reference(d)) == if c == d then Reference(d) else s
  {
    if s == [c] {
      ReplaceAllChar(c, d, Reference(d));
    } else {
      assert d !in Reference(c);
      ReplaceAllAbsent(s, d, Reference(d));
    }
  }

  lemma {:induction false} PrintConcat(a: seq<Raw>, b: seq<Raw>)
    ensures Print(a + b) == Print(a) + Print(b)
  {
    if a == [] {
      assert a + b == b;
    } else {
      assert (a + b)[1..] == a[1..] + b;
      PrintConcat(a[1..], b);
    }
  }

  lemma {:induction false} PrintText(s: string)
    ensures Print(RawChars(s)) == EscapeText(s)
  {
    if s != "" {
      PrintText(s[1..]);
      EscapeTextConcat([s[0]], s[1..]);
      assert s == [s[0]] + s[1..];
      assert RawChars(s)[1..] == RawChars(s[1..]);
    }
  }
}
