/**
 Per-tenant stores over one shared store (server/internal/store/tenanted/tenanted.go, on
 server/internal/store/memory/groups.go). Groups, sessions and flows are wrapped alike: the
 wrapper reads and writes a record's id and passes the rest through, here `body`.
 */
module Tenanted {
  import opened Common

  datatype Rec = Rec(id: string, body: string)

  type Table = map<string, Rec>

  predicate Keyed(t: Table) {
    forall id | id in t :: t[id].id == id
  }

  // ---- Ids ----

  const SEP := "::"

  function AddPrefix(tenant: string, id: string): string {
    tenant + SEP + id
  }

  predicate HasPrefix(tenant: string, id: string) {
    tenant + SEP <= id
  }

  function StripPrefix(tenant: string, id: string): string {
    if HasPrefix(tenant, id) then id[|tenant + SEP|..] else id
  }

  function Strip(tenant: string, r: Rec): Rec {
    r.(id := StripPrefix(tenant, r.id))
  }

  function Prefixed(tenant: string, r: Rec): Rec {
    r.(id := AddPrefix(tenant, r.id))
  }

  lemma PrefixRoundTrip(tenant: string, id: string)
    ensures HasPrefix(tenant, AddPrefix(tenant, id))
    ensures StripPrefix(tenant, AddPrefix(tenant, id)) == id
    ensures HasPrefix(tenant, id) ==> AddPrefix(tenant, StripPrefix(tenant, id)) == id
  {
  }

  // ---- One store, as operations with answers ----

  datatype Op = Create(r: Rec) | GetByID(id: string) | List | Update(r: Rec) | Delete(id: string)

  datatype Answer = Found(r: Rec) | NotFound | Listed(all: seq<Rec>) | Done

  predicate Ascending(all: seq<Rec>) {
    forall i, j | 0 <= i < j < |all| :: Less(all[i].id, all[j].id)
  }

  /** All records of the table, in id order. */
  ghost predicate Lists(t: Table, all: seq<Rec>) {
    Ascending(all) && forall r: Rec :: r in all <==> r.id in t && t[r.id] == r
  }

  /** The store at `t` answers `op` with `a` and is then `after`. */
  ghost predicate Answers(t: Table, op: Op, a: Answer, after: Table) {
    match op
    case Create(r) => a == Found(r) && after == t[r.id := r]
    case GetByID(id) => after == t && a == (if id in t then Found(t[id]) else NotFound)
    case List => after == t && a.Listed? && Lists(t, a.all)
    case Update(r) => if r.id in t then a == Found(r) && after == t[r.id := r] else a == NotFound && after == t
    case Delete(id) => a == (if id in t then Done else NotFound) && after == t - {id}
  }

  class MemoryStore {
    var records: Table

    constructor ()
      ensures records == map[]
    {
      records := map[];
    }

    method Create(r: Rec) returns (created: Rec)
      modifies this
      ensures Answers(old(records), Op.Create(r), Found(created), records)
      ensures created == r && records == old(records)[r.id := r]
    {
      records := records[r.id := r];
      created := r;
    }

    method GetByID(id: string) returns (r: Option<Rec>)
      ensures Answers(records, Op.GetByID(id), if r.Some? then Found(r.value) else NotFound, records)
      ensures r == if id in records then Some(records[id]) else None
    {
      r := if id in records then Some(records[id]) else None;
    }

    method List() returns (all: seq<Rec>)
      requires Keyed(records)
      ensures Answers(records, Op.List, Listed(all), records)
      ensures forall r: Rec :: r in all <==> r.id in records && records[r.id] == r
      ensures forall i, j | 0 <= i < j < |all| :: Less(all[i].id, all[j].id)
    {
      var ids, unsorted := records.Keys, [];
      while ids != {}
        invariant ids <= records.Keys
        invariant NoRepeats(unsorted)
        invariant forall r: Rec :: r in unsorted <==> r.id in records.Keys - ids && records[r.id] == r
        decreases |ids|
      {
        var id :| id in ids;
        ids := ids - {id};
        unsorted := unsorted + [records[id]];
      }
      all := SortBy(unsorted, RecKey);
      SortedAscending(unsorted, records);
    }

    method Update(r: Rec) returns (ok: bool)
      modifies this
      ensures Answers(old(records), Op.Update(r), if ok then Found(r) else NotFound, records)
      ensures ok == (r.id in old(records)) && records == if ok then old(records)[r.id := r] else old(records)
    {
      ok := r.id in records;
      if ok { records := records[r.id := r]; }
    }

    method Delete(id: string) returns (ok: bool)
      modifies this
      ensures Answers(old(records), Op.Delete(id), if ok then Done else NotFound, records)
      ensures ok == (id in old(records)) && records == old(records) - {id}
    {
      ok := id in records;
      records := records - {id};
    }
  }

  function RecKey(r: Rec): Key { (r.id, "") }

  lemma SortedAscending(unsorted: seq<Rec>, t: Table)
    requires NoRepeats(unsorted) && forall r | r in unsorted :: r.id in t && t[r.id] == r
    ensures Ascending(SortBy(unsorted, RecKey))
    ensures forall r :: r in SortBy(unsorted, RecKey) <==> r in unsorted
  {
    var all := SortBy(unsorted, RecKey);
    SortBySorts(unsorted, RecKey);
    NoRepeatsPermute(unsorted, all);
    forall i, j | 0 <= i < j < |all| ensures Less(all[i].id, all[j].id) {
      assert all[i] in unsorted && all[j] in unsorted;
      LessTrichotomy(all[i].id, all[j].id);
      assert !KeyLess(RecKey(all[j]), RecKey(all[i]));
    }
  }

  // ---- The wrapper ----

  function WrapOp(tenant: string, op: Op): Op {
    match op
    case Create(r) => Create(Prefixed(tenant, r))
    case GetByID(id) => GetByID(AddPrefix(tenant, id))
    case List => List
    case Update(r) => Update(Prefixed(tenant, r))
    case Delete(id) => Delete(AddPrefix(tenant, id))
  }

  function OwnRecords(tenant: string, all: seq<Rec>): seq<Rec> {
    if all == [] then []
    else (if HasPrefix(tenant, all[0].id) then [Strip(tenant, all[0])] else []) + OwnRecords(tenant, all[1..])
  }

  function UnwrapAnswer(tenant: string, a: Answer): Answer {
    match a
    case Found(r) => Found(Strip(tenant, r))
    case Listed(all) => Listed(OwnRecords(tenant, all))
    case _ => a
  }

  /** What a tenant's wrapper answers over the shared store. */
  ghost predicate TenantAnswers(shared: Table, tenant: string, op: Op, a: Answer, after: Table) {
    exists inner :: Answers(shared, WrapOp(tenant, op), inner, after) && a == UnwrapAnswer(tenant, inner)
  }

  class TenantStore {
    const inner: MemoryStore
    const tenantID: string

    constructor (inner: MemoryStore, tenantID: string)
      ensures this.inner == inner && this.tenantID == tenantID
    {
      this.inner := inner;
      this.tenantID := tenantID;
    }

    method Create(r: Rec) returns (created: Rec)
      modifies inner
      ensures TenantAnswers(old(inner.records), tenantID, Op.Create(r), Found(created), inner.records)
    {
      var stored := inner.Create(r.(id := tenantID + SEP + r.id));
      created := stored.(id := StripPrefix(tenantID, stored.id));
      assert UnwrapAnswer(tenantID, Found(stored)) == Found(created);
    }

    method GetByID(id: string) returns (r: Option<Rec>)
      ensures TenantAnswers(inner.records, tenantID, Op.GetByID(id), if r.Some? then Found(r.value) else NotFound, inner.records)
    {
      var stored := inner.GetByID(tenantID + SEP + id);
      if stored.None? {
        assert UnwrapAnswer(tenantID, NotFound) == NotFound;
        return None;
      }
      r := Some(stored.value.(id := StripPrefix(tenantID, stored.value.id)));
      assert UnwrapAnswer(tenantID, Found(stored.value)) == Found(r.value);
    }

    method List() returns (out: seq<Rec>)
      requires Keyed(inner.records)
      ensures TenantAnswers(inner.records, tenantID, Op.List, Listed(out), inner.records)
    {
      var all := inner.List();
      out := [];
      for i := 0 to |all|
        invariant out == OwnRecords(tenantID, all[..i])
      {
        assert all[..i + 1] == all[..i] + [all[i]];
        OwnRecordsAppend(tenantID, all[..i], all[i]);
        if HasPrefix(tenantID, all[i].id) { out := out + [all[i].(id := StripPrefix(tenantID, all[i].id))]; }
      }
      assert all[..|all|] == all;
      assert UnwrapAnswer(tenantID, Listed(all)) == Listed(out);
    }

    method Update(r: Rec) returns (updated: Option<Rec>)
      modifies inner
      ensures TenantAnswers(old(inner.records), tenantID, Op.Update(r),
                            if updated.Some? then Found(updated.value) else NotFound, inner.records)
    {
      var stored := r.(id := tenantID + SEP + r.id);
      var ok := inner.Update(stored);
      if !ok {
        assert UnwrapAnswer(tenantID, NotFound) == NotFound;
        return None;
      }
      updated := Some(stored.(id := StripPrefix(tenantID, stored.id)));
      assert UnwrapAnswer(tenantID, Found(stored)) == Found(updated.value);
    }

    method Delete(id: string) returns (ok: bool)
      modifies inner
      ensures TenantAnswers(old(inner.records), tenantID, Op.Delete(id), if ok then Done else NotFound, inner.records)
    {
      ok := inner.Delete(tenantID + SEP + id);
      var a := if ok then Done else NotFound;
      assert UnwrapAnswer(tenantID, a) == a;
    }
  }

  lemma {:induction false} OwnRecordsAppend(tenant: string, all: seq<Rec>, r: Rec)
    ensures OwnRecords(tenant, all + [r]) ==
            OwnRecords(tenant, all) + (if HasPrefix(tenant, r.id) then [Strip(tenant, r)] else [])
  {
    if all == [] {
      assert [] + [r] == [r];
    } else {
      assert (all + [r])[1..] == all[1..] + [r];
      OwnRecordsAppend(tenant, all[1..], r);
    }
  }

  // ---- A tenant's private store ----

  /** `own` is the private store of `tenant` inside the shared one. */
  ghost predicate Private(shared: Table, tenant: string, own: Table) {
    && (forall id :: id in own <==> AddPrefix(tenant, id) in shared)
    && (forall id | id in own :: own[id] == shared[AddPrefix(tenant, id)].(id := id))
  }

  /** Neither tenant's ids can begin like the other's. */
  predicate Separate(t: string, u: string) {
    !(t + SEP <= u + SEP) && !(u + SEP <= t + SEP)
  }

  /** Tenant ids without a colon are separate when they differ. */
  lemma ColonFreeSeparate(t: string, u: string)
    requires ':' !in t && ':' !in u && t != u
    ensures Separate(t, u)
  {
    if t + SEP <= u + SEP { PrefixSame(t, u); }
    if u + SEP <= t + SEP { PrefixSame(u, t); }
  }

  lemma PrefixSame(t: string, u: string)
    requires ':' !in t && ':' !in u && t + SEP <= u + SEP
    ensures t == u
  {
    var s := u + SEP;
    assert s[|t|] == (t + SEP)[|t|] == ':';
    assert forall k | 0 <= k < |u| :: s[k] == u[k];
    assert t == s[..|t|] && u == s[..|u|];
  }

  lemma SeparateIds(t: string, u: string, x: string, y: string)
    requires Separate(t, u)
    ensures AddPrefix(t, x) != AddPrefix(u, y)
  {
    var a, b := t + SEP, u + SEP;
    assert a == (a + x)[..|a|] && b == (b + y)[..|b|];
    assert |a| <= |b| ==> b[..|a|] == (b + y)[..|a|];
    assert |b| <= |a| ==> a[..|b|] == (a + x)[..|b|];
  }

  /** Filtering the shared listing gives the private one, still in id order. */
  lemma {:induction false} OwnAscending(tenant: string, all: seq<Rec>)
    requires Ascending(all)
    ensures Ascending(OwnRecords(tenant, all))
    ensures forall r: Rec :: r in OwnRecords(tenant, all) <==> Prefixed(tenant, r) in all
  {
    if all == [] {
    } else {
      var own, rest := OwnRecords(tenant, all), OwnRecords(tenant, all[1..]);
      OwnAscending(tenant, all[1..]);
      assert all == [all[0]] + all[1..];
      if HasPrefix(tenant, all[0].id) {
        var first := Strip(tenant, all[0]);
        PrefixRoundTrip(tenant, all[0].id);
        forall j | 0 <= j < |rest| ensures Less(first.id, rest[j].id) {
          assert rest[j] in rest;
          OwnBelow(tenant, all, rest[j]);
        }
        assert own == [first] + rest;
        forall r: Rec ensures r in own <==> Prefixed(tenant, r) in all {
          PrefixRoundTrip(tenant, r.id);
        }
      } else {
        assert own == rest;
        forall r: Rec ensures r in own <==> Prefixed(tenant, r) in all {
          PrefixRoundTrip(tenant, r.id);
        }
      }
    }
  }

  lemma OwnBelow(tenant: string, all: seq<Rec>, r: Rec)
    requires Ascending(all) && all != [] && HasPrefix(tenant, all[0].id) && Prefixed(tenant, r) in all[1..]
    ensures Less(StripPrefix(tenant, all[0].id), r.id)
  {
    var k :| 0 <= k < |all[1..]| && all[1..][k] == Prefixed(tenant, r);
    assert Less(all[0].id, all[k + 1].id);
    PrefixRoundTrip(tenant, all[0].id);
    LessSamePrefix(tenant + SEP, StripPrefix(tenant, all[0].id), r.id);
  }

  lemma OwnLists(shared: Table, tenant: string, own: Table, all: seq<Rec>)
    requires Keyed(shared) && Private(shared, tenant, own) && Lists(shared, all)
    ensures Lists(own, OwnRecords(tenant, all))
  {
    OwnAscending(tenant, all);
    forall r: Rec ensures r in OwnRecords(tenant, all) <==> r.id in own && own[r.id] == r {
      var p := Prefixed(tenant, r);
      if r.id in own && own[r.id] == r {
        assert shared[p.id].(id := r.id) == r;
        assert shared[p.id] == p;
      }
    }
  }

  lemma OwnWrite(shared: Table, tenant: string, own: Table, r: Rec)
    requires Private(shared, tenant, own)
    ensures Private(shared[AddPrefix(tenant, r.id) := Prefixed(tenant, r)], tenant, own[r.id := r])
    ensures Strip(tenant, Prefixed(tenant, r)) == r
  {
    PrefixRoundTrip(tenant, r.id);
    SamePrefixedId(tenant, r.id);
    assert Prefixed(tenant, r).(id := r.id) == r;
  }

  /** Different ids stay different under the prefix. */
  lemma SamePrefixedId(tenant: string, id: string)
    ensures forall x :: AddPrefix(tenant, x) == AddPrefix(tenant, id) <==> x == id
  {
    PrefixRoundTrip(tenant, id);
    forall x ensures AddPrefix(tenant, x) == AddPrefix(tenant, id) <==> x == id {
      PrefixRoundTrip(tenant, x);
    }
  }

  /** The caller's private store takes the same step, with the same answer. */
  lemma OwnStep(shared: Table, tenant: string, op: Op, a: Answer, after: Table, own: Table) returns (next: Table)
    requires Keyed(shared) && Private(shared, tenant, own) && TenantAnswers(shared, tenant, op, a, after)
    ensures Keyed(after) && Private(after, tenant, next) && Answers(own, op, a, next)
  {
    var inner :| Answers(shared, WrapOp(tenant, op), inner, after) && a == UnwrapAnswer(tenant, inner);
    match op
    case Create(r) =>
      next := own[r.id := r];
      OwnWrite(shared, tenant, own, r);
    case GetByID(id) =>
      next := own;
      OwnRead(shared, tenant, own, id);
    case List =>
      next := own;
      OwnLists(shared, tenant, own, inner.all);
    case Update(r) =>
      next := if r.id in own then own[r.id := r] else own;
      OwnWrite(shared, tenant, own, r);
    case Delete(id) =>
      next := own - {id};
      OwnDelete(shared, tenant, own, id);
  }

  lemma OwnRead(shared: Table, tenant: string, own: Table, id: string)
    requires Keyed(shared) && Private(shared, tenant, own)
    ensures id in own ==> Strip(tenant, shared[AddPrefix(tenant, id)]) == own[id]
  {
    PrefixRoundTrip(tenant, id);
  }

  lemma OwnDelete(shared: Table, tenant: string, own: Table, id: string)
    requires Private(shared, tenant, own)
    ensures Private(shared - {AddPrefix(tenant, id)}, tenant, own - {id})
  {
    SamePrefixedId(tenant, id);
  }

  /** No other tenant's private store moves. */
  lemma OtherStep(shared: Table, tenant: string, op: Op, a: Answer, after: Table, other: string, own: Table)
    requires TenantAnswers(shared, tenant, op, a, after) && Separate(tenant, other) && Private(shared, other, own)
    ensures Private(after, other, own)
  {
    var inner :| Answers(shared, WrapOp(tenant, op), inner, after) && a == UnwrapAnswer(tenant, inner);
    forall x, y ensures AddPrefix(tenant, x) != AddPrefix(other, y) {
      SeparateIds(tenant, other, x, y);
    }
    forall y ensures (AddPrefix(other, y) in after <==> AddPrefix(other, y) in shared)
        && (AddPrefix(other, y) in after ==> after[AddPrefix(other, y)] == shared[AddPrefix(other, y)])
    {
    }
  }

  // ---- Whole runs ----

  datatype Event = Event(tenant: string, op: Op, answer: Answer)

  ghost predicate SharedRun(shared: Table, events: seq<Event>, after: Table)
    decreases events
  {
    if events == [] then after == shared
    else exists mid ::
      TenantAnswers(shared, events[0].tenant, events[0].op, events[0].answer, mid) && SharedRun(mid, events[1..], after)
  }

  ghost predicate PrivateRun(own: Table, events: seq<Event>, after: Table)
    decreases events
  {
    if events == [] then after == own
    else exists mid :: Answers(own, events[0].op, events[0].answer, mid) && PrivateRun(mid, events[1..], after)
  }

  function Calls(events: seq<Event>, tenant: string): seq<Event> {
    if events == [] then []
    else (if events[0].tenant == tenant then [events[0]] else []) + Calls(events[1..], tenant)
  }

  lemma {:induction false} RunRefines(shared: Table, events: seq<Event>, after: Table, tenant: string, own: Table) returns (end: Table)
    requires Keyed(shared) && Private(shared, tenant, own) && SharedRun(shared, events, after)
    requires forall e | e in events :: e.tenant == tenant || Separate(e.tenant, tenant)
    ensures PrivateRun(own, Calls(events, tenant), end) && Private(after, tenant, end)
    decreases |events|
  {
    if events == [] {
      end := own;
    } else {
      var e := events[0];
      var mid :| TenantAnswers(shared, e.tenant, e.op, e.answer, mid) && SharedRun(mid, events[1..], after);
      assert events == [e] + events[1..];
      if e.tenant == tenant {
        var next := OwnStep(shared, tenant, e.op, e.answer, mid, own);
        end := RunRefines(mid, events[1..], after, tenant, next);
        assert Calls(events, tenant)[1..] == Calls(events[1..], tenant);
      } else {
        StepKeyed(shared, e.tenant, e.op, e.answer, mid);
        OtherStep(shared, e.tenant, e.op, e.answer, mid, tenant, own);
        end := RunRefines(mid, events[1..], after, tenant, own);
        assert Calls(events, tenant) == Calls(events[1..], tenant);
      }
    }
  }

  lemma StepKeyed(shared: Table, tenant: string, op: Op, a: Answer, after: Table)
    requires Keyed(shared) && TenantAnswers(shared, tenant, op, a, after)
    ensures Keyed(after)
  {
  }

  /**
   Any number of tenants with colon-free ids, in any interleaving of their operations over
   one shared store: each of them gets exactly the answers of a run on a store of its own.
   */
  lemma TenantsAreIsolated(events: seq<Event>, after: Table, tenant: string)
    requires SharedRun(map[], events, after)
    requires ':' !in tenant && forall e | e in events :: ':' !in e.tenant
    ensures exists end :: PrivateRun(map[], Calls(events, tenant), end) && Private(after, tenant, end)
  {
    forall e | e in events ensures e.tenant == tenant || Separate(e.tenant, tenant) {
      if e.tenant != tenant { ColonFreeSeparate(e.tenant, tenant); }
    }
    var end := RunRefines(map[], events, after, tenant, map[]);
  }

  /** A store leaves no choice of answer, so "the answers of a store of its own" is one thing only. */
  lemma AnswerDetermined(t: Table, op: Op, a: Answer, after: Table, b: Answer, other: Table)
    requires Answers(t, op, a, after) && Answers(t, op, b, other)
    ensures a == b && after == other
  {
    if op.List? { ListingUnique(a.all, b.all); }
  }

  lemma {:induction false} ListingUnique(a: seq<Rec>, b: seq<Rec>)
    requires Ascending(a) && Ascending(b) && forall r: Rec :: r in a <==> r in b
    ensures a == b
  {
    assert a != [] ==> a[0] in b;
    assert b != [] ==> b[0] in a;
    if a != [] {
      var i :| 0 <= i < |b| && b[i] == a[0];
      var j :| 0 <= j < |a| && a[j] == b[0];
      LessTrichotomy(a[0].id, b[0].id);
      assert a[0] == b[0];
      assert a == [a[0]] + a[1..] && b == [b[0]] + b[1..];
      forall r: Rec ensures r in a[1..] <==> r in b[1..] {
        HeadOnce(a, r);
        HeadOnce(b, r);
      }
      ListingUnique(a[1..], b[1..]);
    }
  }

  lemma HeadOnce(a: seq<Rec>, r: Rec)
    requires a != [] && Ascending(a)
    ensures r in a[1..] <==> r in a && r != a[0]
  {
    if r in a[1..] {
      var k :| 0 <= k < |a[1..]| && a[1..][k] == r;
      assert Less(a[0].id, a[k + 1].id);
      LessTrichotomy(a[0].id, r.id);
    }
    assert a == [a[0]] + a[1..];
  }

  // ---- How far separation is needed ----

  ghost predicate NeverDisturbs(tenant: string, other: string) {
    forall shared, op, a, after, own |
      TenantAnswers(shared, tenant, op, a, after) && Private(shared, other, own) :: Private(after, other, own)
  }

  /** An id of `tenant` that `other` sees as its own. */
  function SharedId(tenant: string, other: string): string
    requires !Separate(tenant, other)
  {
    if other + SEP <= tenant + SEP then "" else (other + SEP)[|tenant + SEP|..]
  }

  /** Two tenants never disturb each other exactly when neither prefix begins the other. */
  lemma IsolationExact(tenant: string, other: string)
    ensures NeverDisturbs(tenant, other) <==> Separate(tenant, other)
  {
    if Separate(tenant, other) {
      forall shared, op, a, after, own | TenantAnswers(shared, tenant, op, a, after) && Private(shared, other, own)
        ensures Private(after, other, own)
      {
        OtherStep(shared, tenant, op, a, after, other, own);
      }
    } else {
      var r := Rec(SharedId(tenant, other), "");
      var stored := Prefixed(tenant, r);
      var after: Table := map[][stored.id := stored];
      assert Answers(map[], WrapOp(tenant, Create(r)), Found(stored), after);
      var a := UnwrapAnswer(tenant, Found(stored));
      assert TenantAnswers(map[], tenant, Create(r), a, after);
      assert Private(map[], other, map[]);
      assert HasPrefix(other, stored.id);
      var seen := StripPrefix(other, stored.id);
      PrefixRoundTrip(other, stored.id);
      assert AddPrefix(other, seen) in after;
      assert !Private(after, other, map[]);
    }
  }

  /** "a" and "a::b": the second tenant's group "g" is listed to the first as "b::g". */
  lemma NestedTenantLeaks()
    ensures ':' in "a::b" && !Separate("a::b", "a")
    ensures TenantAnswers(map["a::b::g" := Rec("a::b::g", "")], "a", GetByID("b::g"), Found(Rec("b::g", "")),
                          map["a::b::g" := Rec("a::b::g", "")])
  {
    var t: Table := map["a::b::g" := Rec("a::b::g", "")];
    assert AddPrefix("a", "b::g") == "a::b::g";
    assert "a" + SEP <= "a::b" + SEP;
    assert StripPrefix("a", "a::b::g") == "b::g";
    assert Answers(t, WrapOp("a", GetByID("b::g")), Found(Rec("a::b::g", "")), t);
    assert UnwrapAnswer("a", Found(Rec("a::b::g", ""))) == Found(Rec("b::g", ""));
    assert "a::b"[1] == ':';
  }
}
