/**
 The audit log's hash chain (server/internal/store/sqlite/audit.go) over a table of rows in
 rowid order. The digest is a parameter: nothing is assumed of it beyond what a theorem
 says, so what tampering leaves undetected is stated as a collision that the proof exhibits.
 */
module AuditChain {
  import opened Common

  type Digest = string -> string

  datatype Event = Event(id: string, json: string)

  datatype Row = Row(id: string, json: string, hash: string)

  datatype Report = Report(ok: bool, checked: nat, brokenAt: string)

  // ---- The chain on values ----

  function ChainHash(h: Digest, prev: string, json: string): string {
    h(prev + json)
  }

  /** The hash the first n rows end in; the empty string when there are none. */
  function LastHash(rows: seq<Row>, n: nat): string
    requires n <= |rows|
  {
    if n == 0 then "" else rows[n - 1].hash
  }

  /** Row i holds the hash of its JSON after the row before it. */
  predicate Link(h: Digest, rows: seq<Row>, i: nat)
    requires i < |rows|
  {
    rows[i].hash == ChainHash(h, LastHash(rows, i), rows[i].json)
  }

  predicate Chained(h: Digest, rows: seq<Row>, n: nat)
    requires n <= |rows|
  {
    forall i | 0 <= i < n :: Link(h, rows, i)
  }

  function Jsons(rows: seq<Row>): (jsons: seq<string>)
    ensures |jsons| == |rows| && forall i | 0 <= i < |rows| :: jsons[i] == rows[i].json
  {
    seq(|rows|, i requires 0 <= i < |rows| => rows[i].json)
  }

  predicate Known(rows: seq<Row>, id: string) {
    exists r | r in rows :: r.id == id
  }

  function Appended(h: Digest, rows: seq<Row>, e: Event): seq<Row> {
    if Known(rows, e.id) then rows
    else rows + [Row(e.id, e.json, ChainHash(h, LastHash(rows, |rows|), e.json))]
  }

  function Log(h: Digest, events: seq<Event>): seq<Row> {
    if events == [] then []
    else Appended(h, Log(h, events[..|events| - 1]), events[|events| - 1])
  }

  // ---- The store ----

  class AuditStore {
    var rows: seq<Row>
    const h: Digest

    constructor (h: Digest)
      ensures rows == [] && this.h == h
    {
      rows := [];
      this.h := h;
    }

    /** INSERT OR IGNORE on the id, after reading the newest row's hash. */
    method Append(e: Event)
      modifies this
      ensures rows == Appended(h, old(rows), e)
      ensures (exists r :: r in old(rows) && r.id == e.id) ==> rows == old(rows)
      ensures (forall r | r in old(rows) :: r.id != e.id) ==>
                var prev := if old(rows) == [] then "" else old(rows)[|old(rows)| - 1].hash;
                rows == old(rows) + [Row(e.id, e.json, h(prev + e.json))]
    {
      var prev := "";
      if rows != [] { prev := rows[|rows| - 1].hash; }
      var hash := h(prev + e.json);
      var present := Contains(e.id);
      if !present { rows := rows + [Row(e.id, e.json, hash)]; }
    }

    method Contains(id: string) returns (present: bool)
      ensures present == Known(rows, id)
    {
      for i := 0 to |rows|
        invariant forall j | 0 <= j < i :: rows[j].id != id
      {
        if rows[i].id == id { return true; }
      }
      return false;
    }

    /** The report is positive exactly for a chained table, and otherwise names the first row that breaks it. */
    method Verify() returns (report: Report)
      ensures report.ok <==> Chained(h, rows, |rows|)
      ensures report.checked <= |rows| && Chained(h, rows, report.checked)
      ensures report.ok ==> report.checked == |rows|
      ensures !report.ok ==> report.checked < |rows| && report.brokenAt == rows[report.checked].id
      ensures !report.ok ==> !Link(h, rows, report.checked)
    {
      var prev := "";
      for i := 0 to |rows|
        invariant prev == LastHash(rows, i) && Chained(h, rows, i)
      {
        var expected := h(prev + rows[i].json);
        if expected != rows[i].hash {
          assert !Link(h, rows, i);
          return Report(false, i, rows[i].id);
        }
        prev := rows[i].hash;
      }
      return Report(true, |rows|, "");
    }
  }

  // ---- What appending builds ----

  lemma AppendedChained(h: Digest, rows: seq<Row>, e: Event)
    requires Chained(h, rows, |rows|)
    ensures var after := Appended(h, rows, e); Chained(h, after, |after|)
  {
    var after := Appended(h, rows, e);
    forall i | 0 <= i < |after| ensures Link(h, after, i) {
      if i < |rows| { assert Link(h, rows, i); }
    }
  }

  /** Any sequence of appends, repeated ids included, leaves a table that verifies. */
  lemma {:induction false} LogChained(h: Digest, events: seq<Event>)
    ensures var log := Log(h, events); Chained(h, log, |log|)
  {
    if events == [] {
    } else {
      var n := |events| - 1;
      LogChained(h, events[..n]);
      AppendedChained(h, Log(h, events[..n]), events[n]);
    }
  }

  /** The first event with an id is the one kept. */
  function FirstOf(events: seq<Event>, id: string): Option<Event> {
    if events == [] then None
    else if events[0].id == id then Some(events[0]) else FirstOf(events[1..], id)
  }

  predicate Holds(rows: seq<Row>, id: string, json: string) {
    exists r | r in rows :: r.id == id && r.json == json
  }

  /** A log holds, for each id, the JSON of the first event appended with it and no other. */
  lemma {:induction false} LogKeepsFirst(h: Digest, events: seq<Event>, id: string, json: string)
    ensures Holds(Log(h, events), id, json) <==> FirstOf(events, id) == Some(Event(id, json))
    ensures Known(Log(h, events), id) <==> FirstOf(events, id).Some?
  {
    if events == [] {
    } else {
      var n := |events| - 1;
      LogKeepsFirst(h, events[..n], id, json);
      FirstOfAppend(events[..n], events[n], id);
      assert events == events[..n] + [events[n]];
    }
  }

  /** No event before number i has its id. */
  predicate FirstUse(events: seq<Event>, i: nat)
    requires i < |events|
  {
    forall j | 0 <= j < i :: events[j].id != events[i].id
  }

  /** The numbers of the events that use their id first, in order. */
  function FirstUses(events: seq<Event>): (firsts: seq<nat>)
    ensures forall k | 0 <= k < |firsts| :: firsts[k] < |events|
  {
    if events == [] then []
    else
      var n := |events| - 1;
      FirstUses(events[..n]) + if FirstUse(events, n) then [n] else []
  }

  /** They are all of them, each once, in order. */
  lemma {:induction false} FirstUsesExactly(events: seq<Event>)
    ensures forall j, k | 0 <= j < k < |FirstUses(events)| :: FirstUses(events)[j] < FirstUses(events)[k]
    ensures forall i: nat :: i in FirstUses(events) <==> i < |events| && FirstUse(events, i)
  {
    if events != [] {
      var n := |events| - 1;
      FirstUsesExactly(events[..n]);
      forall i: nat ensures i in FirstUses(events) <==> i < |events| && FirstUse(events, i) {
        if i < n {
          assert FirstUse(events[..n], i) <==> FirstUse(events, i);
        }
      }
    }
  }

  /** The rows hold the ids and the JSON of those events, in that order. */
  predicate RowsOf(rows: seq<Row>, events: seq<Event>, numbers: seq<nat>) {
    && |rows| == |numbers|
    && forall k | 0 <= k < |rows| :: RowOf(rows[k], events, numbers[k])
  }

  predicate RowOf(row: Row, events: seq<Event>, i: nat) {
    i < |events| && row.id == events[i].id && row.json == events[i].json
  }

  /** A log's rows are the events that use their id first, in the order they were appended. */
  lemma {:induction false} LogIsFirsts(h: Digest, events: seq<Event>)
    ensures RowsOf(Log(h, events), events, FirstUses(events))
  {
    if events != [] {
      var n := |events| - 1;
      var before := Log(h, events[..n]);
      LogIsFirsts(h, events[..n]);
      assert RowsOf(before, events, FirstUses(events[..n])) by {
        assert forall k | 0 <= k < |before| :: RowOf(before[k], events[..n], FirstUses(events[..n])[k]);
      }
      KnownIsUsed(h, events[..n], events[n].id);
      assert FirstUse(events, n) <==> !Known(before, events[n].id);
      if FirstUse(events, n) {
        assert Log(h, events) == before + [Row(events[n].id, events[n].json, ChainHash(h, LastHash(before, |before|), events[n].json))];
      } else {
        assert FirstUses(events) == FirstUses(events[..n]);
      }
    }
  }

  lemma KnownIsUsed(h: Digest, events: seq<Event>, id: string)
    ensures Known(Log(h, events), id) <==> exists i :: 0 <= i < |events| && events[i].id == id
  {
    LogKeepsFirst(h, events, id, "");
    FirstOfUsed(events, id);
  }

  lemma {:induction false} FirstOfUsed(events: seq<Event>, id: string)
    ensures FirstOf(events, id).Some? <==> exists i :: 0 <= i < |events| && events[i].id == id
  {
    if events != [] {
      FirstOfUsed(events[1..], id);
      assert forall i | 1 <= i < |events| :: events[i] == events[1..][i - 1];
    }
  }

  lemma {:induction false} FirstOfAppend(events: seq<Event>, e: Event, id: string)
    ensures FirstOf(events + [e], id) ==
            (if FirstOf(events, id).Some? then FirstOf(events, id) else if e.id == id then Some(e) else None)
  {
    if events == [] {
      assert [] + [e] == [e];
    } else {
      assert (events + [e])[1..] == events[1..] + [e];
      FirstOfAppend(events[1..], e, id);
    }
  }

  // ---- Tamper evidence ----

  datatype Collision = Collision(left: string, right: string)

  predicate Collides(h: Digest, c: Collision) {
    c.left != c.right && h(c.left) == h(c.right)
  }

  /** Digests of one length, that cannot be the start of an event's JSON. */
  ghost predicate HexDigest(h: Digest) {
    forall s :: |h(s)| == 64 && h(s)[0] != '{'
  }

  /** An event marshals to a JSON object. */
  predicate ObjectJson(json: string) {
    json != "" && json[0] == '{'
  }

  /** What was hashed for row i. */
  function Input(rows: seq<Row>, i: nat): string
    requires i < |rows|
  {
    LastHash(rows, i) + rows[i].json
  }

  /** Walks two logs back from their common last hash to where they differ. */
  function FindCollision(left: seq<Row>, l: nat, right: seq<Row>, r: nat): Collision
    requires l <= |left| && r <= |right|
  {
    if l == 0 || r == 0 then Collision("", "")
    else if Input(left, l - 1) != Input(right, r - 1) then Collision(Input(left, l - 1), Input(right, r - 1))
    else FindCollision(left, l - 1, right, r - 1)
  }

  lemma SplitInput(p: string, a: string, q: string, b: string)
    requires |p| == |q| && p + a == q + b
    ensures p == q && a == b
  {
    assert p == (p + a)[..|p|] && q == (q + b)[..|q|];
    assert a == (p + a)[|p|..] && b == (q + b)[|q|..];
  }

  /** When no prefix can be mistaken for the JSON after it, equal inputs have equal parts. */
  lemma SplitMarked(p: string, a: string, q: string, b: string)
    requires p + a == q + b && ObjectJson(a) && ObjectJson(b)
    requires p == "" || (|p| == 64 && p[0] != '{')
    requires q == "" || (|q| == 64 && q[0] != '{')
    ensures p == q && a == b
  {
    assert (p + a)[0] == if p == "" then '{' else p[0];
    assert (q + b)[0] == if q == "" then '{' else q[0];
    SplitInput(p, a, q, b);
  }

  predicate SameJson(left: seq<Row>, l: nat, right: seq<Row>, r: nat)
    requires l <= |left| && r <= |right|
  {
    l == r && forall i | 0 <= i < l :: left[i].json == right[i].json
  }

  lemma LastHashShape(h: Digest, rows: seq<Row>, n: nat)
    requires HexDigest(h) && n <= |rows| && Chained(h, rows, n)
    ensures n == 0 <==> LastHash(rows, n) == ""
    ensures n > 0 ==> |LastHash(rows, n)| == 64 && LastHash(rows, n)[0] != '{'
  {
    if n > 0 { assert Link(h, rows, n - 1); }
  }

  lemma {:induction false} SameHashWalk(h: Digest, left: seq<Row>, l: nat, right: seq<Row>, r: nat)
    requires l <= |left| && r <= |right| && LastHash(left, l) == LastHash(right, r)
    requires HexDigest(h) && Chained(h, left, l) && Chained(h, right, r)
    requires forall i | 0 <= i < l :: ObjectJson(left[i].json)
    requires forall i | 0 <= i < r :: ObjectJson(right[i].json)
    ensures SameJson(left, l, right, r) || Collides(h, FindCollision(left, l, right, r))
    decreases l
  {
    LastHashShape(h, left, l);
    LastHashShape(h, right, r);
    if l > 0 {
      assert Link(h, left, l - 1) && Link(h, right, r - 1);
      if Input(left, l - 1) == Input(right, r - 1) {
        LastHashShape(h, left, l - 1);
        LastHashShape(h, right, r - 1);
        SplitMarked(LastHash(left, l - 1), left[l - 1].json, LastHash(right, r - 1), right[r - 1].json);
        SameHashWalk(h, left, l - 1, right, r - 1);
      }
    }
  }

  /**
   Two tables that verify and end in the same hash hold the same JSON in the same order, or
   the walk back finds two different strings with one digest. The lengths may differ.
   */
  lemma SameHashSameLog(h: Digest, left: seq<Row>, right: seq<Row>)
    requires HexDigest(h) && Chained(h, left, |left|) && Chained(h, right, |right|)
    requires forall i | 0 <= i < |left| :: ObjectJson(left[i].json)
    requires forall i | 0 <= i < |right| :: ObjectJson(right[i].json)
    requires LastHash(left, |left|) == LastHash(right, |right|)
    ensures Jsons(left) == Jsons(right) || Collides(h, FindCollision(left, |left|, right, |right|))
  {
    SameHashWalk(h, left, |left|, right, |right|);
  }

  /**
   For tables of one length nothing is asked of the JSON, and of the digest only that its
   results have one length.
   */
  lemma {:induction false} SameLengthWalk(h: Digest, left: seq<Row>, right: seq<Row>, n: nat)
    requires n <= |left| && n <= |right| && LastHash(left, n) == LastHash(right, n)
    requires (forall s :: |h(s)| == 64) && Chained(h, left, n) && Chained(h, right, n)
    ensures SameJson(left, n, right, n) || Collides(h, FindCollision(left, n, right, n))
  {
    if n > 0 {
      assert Link(h, left, n - 1) && Link(h, right, n - 1);
      if Input(left, n - 1) == Input(right, n - 1) {
        assert n > 1 ==> Link(h, left, n - 2) && Link(h, right, n - 2);
        SplitInput(LastHash(left, n - 1), left[n - 1].json, LastHash(right, n - 1), right[n - 1].json);
        SameLengthWalk(h, left, right, n - 1);
      }
    }
  }

  /** Two tables of the same length that verify, differ in some JSON and end in the same hash yield a collision. */
  lemma SameLengthCollision(h: Digest, left: seq<Row>, right: seq<Row>)
    requires (forall s :: |h(s)| == 64) && Chained(h, left, |left|) && Chained(h, right, |right|)
    requires |left| == |right| && LastHash(left, |left|) == LastHash(right, |right|)
    requires Jsons(left) != Jsons(right)
    ensures Collides(h, FindCollision(left, |left|, right, |right|))
  {
    SameLengthWalk(h, left, right, |left|);
  }

  // ---- Exactly which changes of a stored log go unreported ----

  /** The links of the other rows do not depend on row i, except that of the row after it. */
  lemma OtherLinks(h: Digest, rows: seq<Row>, i: nat, r: Row, j: nat)
    requires i < |rows| && j < |rows| && j != i && j != i + 1
    ensures Link(h, rows[i := r], j) <==> Link(h, rows, j)
  {
  }

  lemma PrefixCancels(p: string, q: string, tail: string)
    requires p + tail == q + tail
    ensures p == q
  {
    assert |p| == |q|;
    assert p == (p + tail)[..|p|] && q == (q + tail)[..|q|];
  }

  /** The strings hashed for the row after row i, as stored and with r in place of row i. */
  function NextInputs(rows: seq<Row>, i: nat, r: Row): Collision
    requires i + 1 < |rows|
  {
    Collision(rows[i].hash + rows[i + 1].json, r.hash + rows[i + 1].json)
  }

  lemma NextLink(h: Digest, rows: seq<Row>, i: nat, r: Row)
    requires Chained(h, rows, |rows|) && i + 1 < |rows|
    ensures Link(h, rows[i := r], i + 1) <==> r.hash == rows[i].hash || Collides(h, NextInputs(rows, i, r))
  {
    assert Link(h, rows, i + 1);
    if rows[i].hash + rows[i + 1].json == r.hash + rows[i + 1].json {
      PrefixCancels(rows[i].hash, r.hash, rows[i + 1].json);
    }
  }

  /**
   Any rewriting of one row of a verifying log goes unreported exactly when the row's hash is that of its
   new JSON after the row before it, and the row after it, if there is one, cannot tell.
   */
  lemma RewriteExact(h: Digest, rows: seq<Row>, i: nat, r: Row)
    requires Chained(h, rows, |rows|) && i < |rows|
    ensures Chained(h, rows[i := r], |rows|) <==>
            (r.hash == ChainHash(h, LastHash(rows, i), r.json)
             && (i == |rows| - 1 || r.hash == rows[i].hash || Collides(h, NextInputs(rows, i, r))))
  {
    var edited := rows[i := r];
    assert Link(h, edited, i) <==> r.hash == ChainHash(h, LastHash(rows, i), r.json);
    if i + 1 < |rows| { NextLink(h, rows, i, r); }
    if Link(h, edited, i) && (i + 1 < |rows| ==> Link(h, edited, i + 1)) {
      forall j | 0 <= j < |rows| ensures Link(h, edited, j) {
        assert Link(h, rows, j);
        if j != i && j != i + 1 { OtherLinks(h, rows, i, r, j); }
      }
    }
  }

  /** Rewriting one row's JSON breaks the chain at that row, unless the new text collides with the old. */
  lemma EditReported(h: Digest, rows: seq<Row>, i: nat, json: string)
    requires Chained(h, rows, |rows|) && i < |rows| && json != rows[i].json
    ensures var edited := rows[i := rows[i].(json := json)];
      && Chained(h, edited, i)
      && (Link(h, edited, i) <==> Collides(h, Collision(Input(rows, i), Input(edited, i))))
      && (Chained(h, edited, |rows|) <==> Link(h, edited, i))
  {
    var edited := rows[i := rows[i].(json := json)];
    var prev := LastHash(rows, i);
    assert Link(h, rows, i);
    forall j | 0 <= j < i ensures Link(h, edited, j) {
      assert Link(h, rows, j);
    }
    if prev + json == prev + rows[i].json { SplitInput(prev, json, prev, rows[i].json); }
    RewriteExact(h, rows, i, rows[i].(json := json));
  }

  /** Rewriting a stored hash alone is always reported. */
  lemma HashRewriteReported(h: Digest, rows: seq<Row>, i: nat, hash: string)
    requires Chained(h, rows, |rows|) && i < |rows| && hash != rows[i].hash
    ensures !Chained(h, rows[i := rows[i].(hash := hash)], |rows|)
  {
    assert Link(h, rows, i);
    RewriteExact(h, rows, i, rows[i].(hash := hash));
  }

  /** Rewriting an id, and dropping any number of the newest rows, go unreported. */
  lemma NotCovered(h: Digest, rows: seq<Row>, i: nat, id: string)
    requires Chained(h, rows, |rows|) && i < |rows|
    ensures Chained(h, rows[i := rows[i].(id := id)], |rows|)
    ensures Chained(h, rows[..i], i)
  {
    assert Link(h, rows, i);
    RewriteExact(h, rows, i, rows[i].(id := id));
    forall j | 0 <= j < i ensures Link(h, rows[..i], j) {
      assert Link(h, rows, j);
    }
  }

  /** The newest row can be replaced by any event whatever, with the hash that fits. */
  lemma NewestRewritten(h: Digest, rows: seq<Row>, e: Event)
    requires Chained(h, rows, |rows|) && rows != []
    ensures var i := |rows| - 1;
      Chained(h, rows[i := Row(e.id, e.json, ChainHash(h, LastHash(rows, i), e.json))], |rows|)
  {
    var i := |rows| - 1;
    RewriteExact(h, rows, i, Row(e.id, e.json, ChainHash(h, LastHash(rows, i), e.json)));
  }

  /**
   Deleting one row goes unreported exactly when it is the newest, or the row after it cannot
   tell its hash from that of the row before it.
   */
  lemma DeletionExact(h: Digest, rows: seq<Row>, i: nat)
    requires Chained(h, rows, |rows|) && i < |rows|
    ensures Chained(h, rows[..i] + rows[i + 1..], |rows| - 1) <==>
            (i == |rows| - 1 || LastHash(rows, i) == rows[i].hash
             || Collides(h, Collision(Input(rows, i + 1), LastHash(rows, i) + rows[i + 1].json)))
  {
    var left := rows[..i] + rows[i + 1..];
    forall j | 0 <= j < |left| && j != i ensures Link(h, left, j) {
      assert Link(h, rows, if j < i then j else j + 1);
    }
    if i < |left| {
      assert Link(h, rows, i + 1);
      assert Link(h, left, i) <==> rows[i + 1].hash == h(LastHash(rows, i) + rows[i + 1].json);
      if rows[i].hash + rows[i + 1].json == LastHash(rows, i) + rows[i + 1].json {
        PrefixCancels(rows[i].hash, LastHash(rows, i), rows[i + 1].json);
      }
    }
  }
}
