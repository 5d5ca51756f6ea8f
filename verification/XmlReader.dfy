/**
 A reader for the markup canonical form uses: start and end tags, double-quoted
 attributes, character data, the predefined entities and hexadecimal line-end references.
 It follows XML 1.0: end tags must match (section 3), a literal line end is read as a line
 feed (section 2.11), and white space in an attribute value is read as a space (section 3.3.3).
 */
module XmlReader {
  import opened Common
  import opened C14n

  predicate NameChar(c: char) { c !in " \t\r\n<>=/\"'&" }

  predicate NameText(s: string) { s != "" && forall i | 0 <= i < |s| :: NameChar(s[i]) }

  function NameLength(s: string): (n: nat)
    ensures n <= |s|
  {
    if s == "" || !NameChar(s[0]) then 0 else 1 + NameLength(s[1..])
  }

  /** The character a reference at the head of s stands for, and the length of the reference. */
  function ReadReference(s: string): Option<(char, nat)> {
    if "&amp;" <= s then Some(('&', 5))
    else if "&lt;" <= s then Some(('<', 4))
    else if "&gt;" <= s then Some(('>', 4))
    else if "&quot;" <= s then Some(('\"', 6))
    else if "&#x9;" <= s then Some(('\t', 5))
    else if "&#xA;" <= s then Some(('\n', 5))
    else if "&#xD;" <= s then Some(('\r', 5))
    else None
  }

  /** One character of character data. */
  function ReadTextChar(s: string): (r: Option<(char, nat)>)
    requires s != ""
    ensures r.Some? ==> 0 < r.value.1 <= |s|
  {
    if s[0] == '&' then ReadReference(s)
    else if s[0] == '\r' then Some(('\n', if |s| > 1 && s[1] == '\n' then 2 else 1))
    else Some((s[0], 1))
  }

  /** One character of an attribute value. */
  function ReadValueChar(s: string): (r: Option<(char, nat)>)
    requires s != ""
    ensures r.Some? ==> 0 < r.value.1 <= |s|
  {
    if s[0] == '&' then ReadReference(s)
    else if s[0] == '<' then None
    else if s[0] == '\t' || s[0] == '\n' || s[0] == '\r' then Some((' ', 1))
    else Some((s[0], 1))
  }

  /** An attribute value up to its closing quote, and what follows the quote. */
  function ReadValue(s: string): (r: Option<(string, string)>)
    ensures r.Some? ==> |r.value.1| < |s|
    decreases |s|
  {
    if s == "" then None
    else if s[0] == '\"' then Some(("", s[1..]))
    else
      match ReadValueChar(s)
      case None => None
      case Some(cn) =>
        match ReadValue(s[cn.1..])
        case None => None
        case Some(vr) => Some(([cn.0] + vr.0, vr.1))
  }

  /** The attributes of a start tag, up to and including '>'. */
  function ReadAttrs(s: string): (r: Option<(seq<RawAttr>, string)>)
    ensures r.Some? ==> |r.value.1| < |s|
    decreases |s|
  {
    if s == "" then None
    else if s[0] == '>' then Some(([], s[1..]))
    else if s[0] == ' ' then
      var n := NameLength(s[1..]);
      var after := s[1 + n..];
      if n == 0 || !("=\"" <= after) then None
      else
        match ReadValue(after[2..])
        case None => None
        case Some(vr) =>
          match ReadAttrs(vr.1)
          case None => None
          case Some(ar) => Some(([RawAttr(s[1..1 + n], vr.0)] + ar.0, ar.1))
    else None
  }

  /** Siblings up to an end tag or the end of input. */
  function ReadItems(s: string): (r: Option<(seq<Raw>, string)>)
    ensures r.Some? ==> |r.value.1| <= |s|
    decreases |s|
  {
    if s == "" || "</" <= s then Some(([], s))
    else if s[0] == '<' then
      match ReadElem(s[1..])
      case None => None
      case Some(er) =>
        match ReadItems(er.1)
        case None => None
        case Some(ir) => Some(([er.0] + ir.0, ir.1))
    else
      match ReadTextChar(s)
      case None => None
      case Some(cn) =>
        match ReadItems(s[cn.1..])
        case None => None
        case Some(ir) => Some(([RawChar(cn.0)] + ir.0, ir.1))
  }

  /** An element, from just after its opening '<'. */
  function ReadElem(s: string): (r: Option<(Raw, string)>)
    ensures r.Some? ==> |r.value.1| <= |s|
    decreases |s|
  {
    var n := NameLength(s);
    if n == 0 then None
    else
      match ReadAttrs(s[n..])
      case None => None
      case Some(ar) =>
        match ReadItems(ar.1)
        case None => None
        case Some(kr) =>
          if CloseText(s[..n]) <= kr.1
          then Some((RawElem(s[..n], ar.0, kr.0), kr.1[|CloseText(s[..n])|..]))
          else None
  }

  function ReadDocument(s: string): Option<seq<Raw>> {
    match ReadItems(s)
    case None => None
    case Some(ir) => if ir.1 == "" then Some(ir.0) else None
  }

  // ---- Everything printed is read back ----

  predicate Printable(items: seq<Raw>) {
    forall i | 0 <= i < |items| :: PrintableItem(items[i])
  }

  predicate PrintableItem(item: Raw) {
    match item
    case RawChar(c) => true
    case RawElem(tag, attrs, kids) =>
      NameText(tag) && (forall a | a in attrs :: NameText(a.name)) && Printable(kids)
  }

  lemma {:induction false} NameLengthOf(name: string, tail: string)
    requires NameText(name) || name == ""
    requires tail == "" || !NameChar(tail[0])
    ensures NameLength(name + tail) == |name|
    ensures (name + tail)[..|name|] == name && (name + tail)[|name|..] == tail
  {
    if name == "" {
      assert name + tail == tail;
    } else {
      assert (name + tail)[1..] == name[1..] + tail;
      assert forall i | 0 <= i < |name[1..]| :: name[1..][i] == name[i + 1];
      NameLengthOf(name[1..], tail);
    }
  }

  lemma ReferenceRead(c: char, tail: string)
    requires EscapedInText(c) || EscapedInAttr(c)
    ensures ReadReference(Reference(c) + tail) == Some((c, |Reference(c)|))
    ensures Reference(c)[0] == '&'
  {
    var s := Reference(c) + tail;
    assert s[..|Reference(c)|] == Reference(c);
    assert s[1] == Reference(c)[1] && s[2] == Reference(c)[2] && s[3] == Reference(c)[3];
  }

  lemma {:induction false} ValueRead(value: string, tail: string)
    ensures ReadValue(EscapeAttr(value) + "\"" + tail) == Some((value, tail))
  {
    if value == "" {
      assert EscapeAttr("") == "";
      assert "" + "\"" + tail == "\"" + tail;
      assert ("\"" + tail)[1..] == tail;
    } else {
      var c := value[0];
      var e, rest := EscapeAttr([c]), EscapeAttr(value[1..]) + "\"" + tail;
      assert value == [c] + value[1..];
      EscapeAttrConcat([c], value[1..]);
      assert EscapeAttr(value) + "\"" + tail == e + rest;
      ValueCharRead(c, rest);
      ValueRead(value[1..], tail);
    }
  }

  lemma ValueCharRead(c: char, rest: string)
    ensures var e := EscapeAttr([c]);
            e != "" && (e + rest)[0] != '\"' && (e + rest)[|e|..] == rest
            && ReadValueChar(e + rest) == Some((c, |e|))
  {
    EscapeAttrChar(c);
    if EscapedInAttr(c) {
      ReferenceRead(c, rest);
    }
  }

  lemma TextCharRead(c: char, rest: string)
    ensures var e := EscapeText([c]);
            e != "" && (e + rest)[0] != '<' && (e + rest)[|e|..] == rest
            && ReadTextChar(e + rest) == Some((c, |e|))
  {
    EscapeTextChar(c);
    if EscapedInText(c) {
      ReferenceRead(c, rest);
    }
  }

  lemma {:induction false} AttrsRead(attrs: seq<RawAttr>, tail: string)
    requires forall a | a in attrs :: NameText(a.name)
    ensures ReadAttrs(PrintAttrs(attrs) + ">" + tail) == Some((attrs, tail))
  {
    if attrs == [] {
      NoAttrsRead(tail);
    } else {
      AttrsRead(attrs[1..], tail);
      FirstAttrRead(attrs[0], attrs[1..], PrintAttrs(attrs[1..]) + ">" + tail, tail);
      Regroup(PrintAttr(attrs[0]), PrintAttrs(attrs[1..]), ">", tail);
      assert attrs == [attrs[0]] + attrs[1..];
    }
  }

  lemma NoAttrsRead(tail: string)
    ensures ReadAttrs(PrintAttrs([]) + ">" + tail) == Some(([], tail))
  {
    assert "" + ">" + tail == ">" + tail;
    assert (">" + tail)[1..] == tail;
  }

  lemma Regroup(a: string, b: string, c: string, d: string)
    ensures (a + b) + c + d == a + (b + c + d)
  {
  }

  lemma FirstAttrRead(a: RawAttr, more: seq<RawAttr>, rest: string, tail: string)
    requires NameText(a.name) && ReadAttrs(rest) == Some((more, tail))
    ensures ReadAttrs(PrintAttr(a) + rest) == Some(([a] + more, tail))
  {
    AttrRead(a, rest);
  }

  /** Where the pieces of one printed attribute are found. */
  lemma AttrRead(a: RawAttr, rest: string)
    requires NameText(a.name)
    ensures var s := PrintAttr(a) + rest;
            var n := |a.name|;
            s[0] == ' ' && NameLength(s[1..]) == n && s[1..1 + n] == a.name
            && "=\"" <= s[1 + n..] && ReadValue(s[1 + n..][2..]) == Some((a.value, rest))
  {
    var value := EscapeAttr(a.value);
    var s := PrintAttr(a) + rest;
    AttrText(a.name, value, rest);
    NameLengthOf(a.name, "=\"" + (value + "\"" + rest));
    assert s[1 + |a.name|..] == s[1..][|a.name|..];
    ValueRead(a.value, rest);
  }

  lemma AttrText(name: string, value: string, rest: string)
    ensures var s := " " + name + "=\"" + value + "\"" + rest;
            s[1..] == name + ("=\"" + (value + "\"" + rest))
    ensures ("=\"" + (value + "\"" + rest))[2..] == value + "\"" + rest
  {
  }

  lemma {:induction false} ItemsRead(items: seq<Raw>, tail: string)
    requires Printable(items) && (tail == "" || "</" <= tail)
    ensures ReadItems(Print(items) + tail) == Some((items, tail))
    decreases items, 1
  {
    if items == [] {
      assert "" + tail == tail;
    } else {
      var rest := Print(items[1..]) + tail;
      ItemsRead(items[1..], tail);
      PrintFirst(items, tail);
      assert items == [items[0]] + items[1..];
      match items[0]
      case RawChar(c) => FirstCharRead(c, items[1..], rest, tail);
      case RawElem(_, _, _) =>
        ElemRead(items[0], rest);
        FirstElemRead(items[0], items[1..], rest, tail);
    }
  }

  lemma PrintFirst(items: seq<Raw>, tail: string)
    requires items != []
    ensures Print(items) + tail == PrintItem(items[0]) + (Print(items[1..]) + tail)
  {
    Regroup(PrintItem(items[0]), Print(items[1..]), tail, "");
  }

  lemma FirstCharRead(c: char, more: seq<Raw>, rest: string, tail: string)
    requires ReadItems(rest) == Some((more, tail))
    ensures ReadItems(EscapeText([c]) + rest) == Some(([RawChar(c)] + more, tail))
  {
    TextCharRead(c, rest);
  }

  lemma FirstElemRead(item: Raw, more: seq<Raw>, rest: string, tail: string)
    requires item.RawElem? && NameText(item.tag) && ReadItems(rest) == Some((more, tail))
    requires "<" + item.tag <= PrintItem(item) + rest
    requires ReadElem((PrintItem(item) + rest)[1..]) == Some((item, rest))
    ensures ReadItems(PrintItem(item) + rest) == Some(([item] + more, tail))
  {
    NotAnEndTag(item.tag, PrintItem(item) + rest);
  }

  lemma NotAnEndTag(tag: string, s: string)
    requires NameText(tag) && ("<" + tag) <= s
    ensures s[0] == '<' && !("</" <= s)
  {
    assert s[1] == ("<" + tag)[1] == tag[0];
    assert NameChar(tag[0]);
    assert s[1] != '/';
  }

  lemma ElemRead(item: Raw, rest: string)
    requires item.RawElem? && PrintableItem(item)
    ensures var s := PrintItem(item) + rest;
            "<" + item.tag <= s && ReadElem(s[1..]) == Some((item, rest))
    decreases item, 0
  {
    var inner := Print(item.kids) + (CloseText(item.tag) + rest);
    ElemText(item.tag, PrintAttrs(item.attrs), Print(item.kids), rest);
    assert PrintAttrs(item.attrs) == "" || PrintAttrs(item.attrs)[0] == ' ' by {
      if item.attrs != [] { assert PrintAttr(item.attrs[0])[0] == ' '; }
    }
    NameLengthOf(item.tag, PrintAttrs(item.attrs) + ">" + inner);
    AttrsRead(item.attrs, inner);
    ItemsRead(item.kids, CloseText(item.tag) + rest);
    CloseRead(item.tag, rest);
  }

  lemma ElemText(tag: string, attrs: string, kids: string, rest: string)
    ensures var s := "<" + tag + attrs + ">" + kids + CloseText(tag) + rest;
            "<" + tag <= s && s[1..] == tag + (attrs + ">" + (kids + (CloseText(tag) + rest)))
  {
    var close := CloseText(tag);
    var s := "<" + tag + attrs + ">" + kids + close + rest;
    assert s == ("<" + tag) + (attrs + ">" + (kids + (close + rest)));
    assert s[..|tag| + 1] == "<" + tag;
  }

  lemma CloseRead(tag: string, rest: string)
    ensures var close := CloseText(tag);
            "</" <= close + rest && close <= close + rest && (close + rest)[|close|..] == rest
  {
  }

  /** Printing then reading is the identity: the output is always well nested. */
  lemma DocumentRead(items: seq<Raw>)
    requires Printable(items)
    ensures ReadDocument(Print(items)) == Some(items)
  {
    ItemsRead(items, "");
    assert Print(items) + "" == Print(items);
  }
}
