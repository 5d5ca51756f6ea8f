/**
 What the canonicaliser does to the bytes before it decodes them: blanks around the document
 and one XML declaration in front of it are cut off. Blanks are the six ASCII ones.
 */
module C14nPrelude {
  import opened Common

  function TrimLeft(s: string): string {
    if s != "" && Space(s[0]) then TrimLeft(s[1..]) else s
  }

  function TrimRight(s: string): string {
    if s != "" && Space(s[|s| - 1]) then TrimRight(s[..|s| - 1]) else s
  }

  function TrimSpace(s: string): string { TrimRight(TrimLeft(s)) }

  predicate Trimmed(s: string) { s != "" ==> !Space(s[0]) && !Space(s[|s| - 1]) }

  /** Where sep first occurs in s. */
  function Index(s: string, sep: string): Option<nat> {
    if sep <= s then Some(0)
    else if s == "" then None
    else match Index(s[1..], sep)
      case None => None
      case Some(i) => Some(i + 1)
  }

  /** What is decoded, or None for a declaration that does not end. */
  function Payload(data: string): Option<string> {
    var trimmed := TrimSpace(data);
    if !("<?xml" <= trimmed) then Some(trimmed)
    else match Index(trimmed, "?>")
      case None => None
      case Some(end) =>
        IndexIsFirst(trimmed);
        Some(TrimSpace(trimmed[end + 2..]))
  }

  /** "?>" stands at position i. */
  predicate EndsAt(s: string, i: int) { 0 <= i < |s| - 1 && s[i] == '?' && s[i + 1] == '>' }

  lemma {:induction false} IndexIsFirst(s: string)
    ensures match Index(s, "?>")
            case None => forall i :: !EndsAt(s, i)
            case Some(k) => EndsAt(s, k) && forall i | i < k :: !EndsAt(s, i)
  {
    if !("?>" <= s) && s != "" {
      IndexIsFirst(s[1..]);
      assert !EndsAt(s, 0);
      assert forall i | 0 < i :: EndsAt(s, i) <==> EndsAt(s[1..], i - 1);
    }
  }

  // ---- Trimming finds the text between the blanks ----

  lemma {:induction false} TrimLeftBlanks(blanks: string, s: string)
    requires Blank(blanks) && (s != "" ==> !Space(s[0]))
    ensures TrimLeft(blanks + s) == s
  {
    if blanks == "" {
      assert blanks + s == s;
    } else {
      assert (blanks + s)[1..] == blanks[1..] + s;
      TrimLeftBlanks(blanks[1..], s);
    }
  }

  lemma {:induction false} TrimRightBlanks(s: string, blanks: string)
    requires Blank(blanks) && (s != "" ==> !Space(s[|s| - 1]))
    ensures TrimRight(s + blanks) == s
    decreases |blanks|
  {
    if blanks == "" {
      assert s + blanks == s;
    } else {
      var last := |blanks| - 1;
      assert (s + blanks)[..|s + blanks| - 1] == s + blanks[..last];
      assert blanks[last] in blanks;
      TrimRightBlanks(s, blanks[..last]);
    }
  }

  lemma TrimSpaceFinds(before: string, s: string, after: string)
    requires Blank(before) && Blank(after) && Trimmed(s)
    ensures TrimSpace(before + s + after) == s
  {
    if s == "" {
      assert before + s + after == before + after + "";
      TrimLeftBlanks(before + after, "");
    } else {
      assert before + s + after == before + (s + after);
      TrimLeftBlanks(before, s + after);
      TrimRightBlanks(s, after);
    }
  }

  /** Every text is blanks around a trimmed text, so the above says what trimming does to any text. */
  lemma {:induction false} TrimSpaceSplits(s: string) returns (before: string, after: string)
    ensures Blank(before) && Blank(after) && Trimmed(TrimSpace(s))
    ensures s == before + TrimSpace(s) + after
  {
    if s != "" && Space(s[0]) {
      var rest;
      rest, after := TrimSpaceSplits(s[1..]);
      before := [s[0]] + rest;
      assert s == [s[0]] + s[1..];
    } else {
      before := "";
      after := TrimRightSplits(s);
    }
  }

  lemma {:induction false} TrimRightSplits(s: string) returns (after: string)
    requires s != "" ==> !Space(s[0])
    ensures Blank(after) && Trimmed(TrimRight(s)) && s == TrimRight(s) + after
    decreases |s|
  {
    if s != "" && Space(s[|s| - 1]) {
      after := TrimRightSplits(s[..|s| - 1]);
      after := after + [s[|s| - 1]];
      assert s == s[..|s| - 1] + [s[|s| - 1]];
    } else {
      after := "";
    }
  }

  // ---- A declaration never shows ----

  /** Whatever the declaration says and whatever blanks surround the parts, the document alone is decoded. */
  lemma DeclarationNeverShows(b1: string, inner: string, b2: string, doc: string, b3: string)
    requires Blank(b1) && Blank(b2) && Blank(b3) && Trimmed(doc)
    requires forall i :: !EndsAt(inner, i)
    ensures Payload(b1 + "<?xml" + inner + "?>" + b2 + doc + b3) == Some(doc)
  {
    var between, after := if doc == "" then "" else b2, if doc == "" then b2 + b3 else b3;
    var trimmed := "<?xml" + inner + "?>" + (between + doc);
    assert b1 + "<?xml" + inner + "?>" + b2 + doc + b3 == b1 + trimmed + after;
    TrimSpaceFinds(b1, trimmed, after);
    FirstEnd(inner, between + doc);
    TrimSpaceFinds(between, doc, "");
    assert trimmed[5 + |inner| + 2..] == between + doc + "";
  }

  lemma FirstEnd(inner: string, tail: string)
    requires forall i :: !EndsAt(inner, i)
    ensures Index("<?xml" + inner + "?>" + tail, "?>") == Some(5 + |inner|)
  {
    var s := "<?xml" + inner + "?>" + tail;
    IndexIsFirst(s);
    assert EndsAt(s, 5 + |inner|);
    forall i | i < 5 + |inner| ensures !EndsAt(s, i) {
      assert 5 <= i ==> !EndsAt(inner, i - 5);
    }
  }

  /** Without a declaration only the blanks go. */
  lemma BlanksNeverShow(before: string, doc: string, after: string)
    requires Blank(before) && Blank(after) && Trimmed(doc) && !("<?xml" <= doc)
    ensures Payload(before + doc + after) == Some(doc)
  {
    TrimSpaceFinds(before, doc, after);
  }

  /** The data begins, blanks aside, with a declaration that nothing ends. */
  predicate Unended(data: string, before: string, inner: string) {
    Blank(before) && data == before + "<?xml" + inner && forall i | 0 <= i < |inner| :: !EndsAt(inner, i)
  }

  lemma MalformedExactly(data: string)
    ensures Payload(data) == None <==> exists before, inner :: Unended(data, before, inner)
  {
    var before, after := TrimSpaceSplits(data);
    var trimmed := TrimSpace(data);
    IndexIsFirst(trimmed);
    if Payload(data) == None {
      var inner := trimmed[5..] + after;
      assert data == before + "<?xml" + inner;
      forall i | 0 <= i < |inner| ensures !EndsAt(inner, i) {
        assert !EndsAt(trimmed, i + 5);
        assert i + 1 < |inner| && i + 1 >= |trimmed| - 5 ==> inner[i + 1] in after;
      }
      assert Unended(data, before, inner);
    }
    if b, inner :| Unended(data, b, inner) {
      UnendedTrimmed(b, inner);
    }
  }

  lemma UnendedTrimmed(before: string, inner: string)
    requires Blank(before) && forall i | 0 <= i < |inner| :: !EndsAt(inner, i)
    ensures Payload(before + "<?xml" + inner) == None
  {
    var full := "<?xml" + inner;
    var after := TrimRightSplits(full);
    var trimmed := TrimRight(full);
    NotCut(full, trimmed, after, 4);
    assert "<?xml" <= trimmed by { assert trimmed[..5] == full[..5] == "<?xml"; }
    assert before + "<?xml" + inner == before + full == before + trimmed + after;
    TrimSpaceFinds(before, trimmed, after);
    IndexIsFirst(trimmed);
    forall i ensures !EndsAt(full, i) {
      assert EndsAt(full, i) <==> EndsAt(inner, i - 5);
    }
    assert forall i | EndsAt(trimmed, i) :: EndsAt(full, i);
  }

  lemma NotCut(s: string, kept: string, blanks: string, k: nat)
    requires s == kept + blanks && Blank(blanks) && k < |s| && !Space(s[k])
    ensures k < |kept|
  {
  }
}
