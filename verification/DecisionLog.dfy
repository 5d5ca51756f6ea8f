/**
 The decision log's clone-then-redact on mutable maps (server/internal/opa/engine.go). The
 input may share maps between places; the clone does not, so redacting it in place at one path
 is redacting the tree it stands for.
 */
module DecisionLog {
  import opened Common
  import opened Redaction

  datatype Any = Text(text: string) | Nested(m: JsonMap)

  ghost predicate Apart(a: Any, b: Any)
    reads if a.Nested? then {a.m} else {}, if b.Nested? then {b.m} else {}
  {
    a.Nested? && b.Nested? ==> a.m.Repr !! b.m.Repr
  }

  class JsonMap {
    var entries: map<string, Any>
    ghost var Repr: set<JsonMap>
    ghost var tree: Tree  // what the entries stand for

    constructor ()
      ensures Valid() && fresh(Repr) && tree == Object(map[])
    {
      entries := map[];
      Repr := {this};
      tree := Object(map[]);
    }

    /** A tree of maps, where no map is reached in two ways. */
    ghost predicate Valid()
      reads this, Repr
      decreases Repr
    {
      && this in Repr && tree.Object? && tree.fields.Keys == entries.Keys
      && (forall k | k in entries :: StandsFor(entries[k], tree.fields[k]))
      && (forall j, k | j in entries && k in entries && j != k :: Apart(entries[j], entries[k]))
    }

    ghost predicate StandsFor(a: Any, t: Tree)
      requires this in Repr
      reads this, Repr
      decreases Repr, 0
    {
      match a
      case Text(s) => t == Value(s)
      case Nested(c) => c in Repr && c in c.Repr && c.Repr < Repr && this !in c.Repr && c.Valid() && c.tree == t
    }

    /** Sets the value at the path, in place; a missing intermediate map is ignored. */
    method RedactPath(path: string)
      requires Valid()
      modifies Repr
      ensures Valid() && Repr == old(Repr)
      ensures tree == RedactAt(old(tree), Segments(path))
      decreases |path|, 1
    {
      var i := FirstDot(path);
      if i == |path| {
        if path in entries { SetText(path, "[REDACTED]"); }
        return;
      }
      var key, rest := path[..i], path[i + 1..];
      if key in entries && entries[key].Nested? {
        assert StandsFor(entries[key], tree.fields[key]);
        assert Segments(path) == [key] + Segments(rest);
        RedactChild(key, rest);
      }
    }

    method RedactChild(key: string, rest: string)
      requires Valid() && key in entries && entries[key].Nested?
      modifies entries[key].m.Repr, this`tree
      ensures Valid() && Repr == old(Repr)
      ensures tree == Object(old(tree).fields[key := RedactAt(old(tree).fields[key], Segments(rest))])
      decreases |rest|, 2
    {
      var c := entries[key].m;
      assert StandsFor(entries[key], tree.fields[key]);
      c.RedactPath(rest);
      forall k | k in entries && k != key ensures StandsFor(entries[k], tree.fields[k]) {
        assert old(StandsFor(entries[k], tree.fields[k]));
        assert old(Apart(entries[k], entries[key]));
      }
      Refresh(key, c);
    }

    /** Brings `tree` up to date after a change below `key`. */
    ghost method Refresh(key: string, c: JsonMap)
      requires this in Repr && tree.Object? && tree.fields.Keys == entries.Keys
      requires key in entries && entries[key] == Nested(c) && StandsFor(entries[key], c.tree)
      requires forall k | k in entries && k != key :: StandsFor(entries[k], tree.fields[k])
      requires forall j, k | j in entries && k in entries && j != k :: Apart(entries[j], entries[k])
      modifies this`tree
      ensures Valid() && tree == Object(old(tree).fields[key := c.tree])
    {
      tree := Object(tree.fields[key := c.tree]);
      forall k | k in entries ensures StandsFor(entries[k], tree.fields[k]) {
        assert old(StandsFor(entries[k], if k == key then c.tree else tree.fields[k]));
      }
    }

    method Adopt(key: string, c: JsonMap)
      requires Valid() && c.Valid() && c.Repr !! Repr && key !in tree.fields
      modifies this
      ensures Valid() && Repr == old(Repr) + c.Repr
      ensures tree == Object(old(tree).fields[key := c.tree])
    {
      entries := entries[key := Nested(c)];
      Repr := Repr + c.Repr;
      tree := Object(tree.fields[key := c.tree]);
      forall k | k in entries ensures StandsFor(entries[k], tree.fields[k]) {
        assert k != key ==> old(StandsFor(entries[k], tree.fields[k]));
      }
    }

    method SetText(key: string, text: string)
      requires Valid()
      modifies this`entries, this`tree
      ensures Valid() && tree == Object(old(tree).fields[key := Value(text)])
    {
      entries := entries[key := Text(text)];
      tree := Object(tree.fields[key := Value(text)]);
      forall k | k in entries ensures StandsFor(entries[k], tree.fields[k]) {
        assert k != key ==> old(StandsFor(entries[k], tree.fields[k]));
      }
    }
  }

  /** `a` stands for the finite tree `t`, within the maps of `reach`; maps may be shared. */
  ghost predicate Denotes(a: Any, t: Tree, reach: set<JsonMap>)
    reads reach
    decreases t
  {
    match a
    case Text(s) => t == Value(s)
    case Nested(m) =>
      && m in reach && t.Object? && t.fields.Keys == m.entries.Keys
      && forall k | k in t.fields :: Denotes(m.entries[k], t.fields[k], reach)
  }

  /** `a` is `t` without the keys still to do. */
  ghost predicate PartOf(a: Tree, t: Tree, todo: set<string>) {
    && a.Object? && t.Object? && todo <= t.fields.Keys
    && (forall k :: k in a.fields <==> k in t.fields && k !in todo)
    && forall k | k in a.fields :: a.fields[k] == t.fields[k]
  }

  lemma PartStep(a: Tree, t: Tree, todo: set<string>, k: string)
    requires PartOf(a, t, todo) && k in todo
    ensures PartOf(Object(a.fields[k := t.fields[k]]), t, todo - {k})
  {
  }

  lemma PartWhole(a: Tree, t: Tree)
    ensures PartOf(a, t, {}) ==> a == t
  {
    if PartOf(a, t, {}) { assert a.fields == t.fields; }
  }

  method DeepClone(m: JsonMap, ghost t: Tree, ghost reach: set<JsonMap>) returns (out: JsonMap)
    requires Denotes(Nested(m), t, reach)
    ensures fresh(out.Repr) && out.Valid() && out.tree == t
    decreases t, 1
  {
    var entries := m.entries;
    out := new JsonMap();
    var keys := entries.Keys;
    while keys != {}
      invariant fresh(out.Repr) && out.Valid() && PartOf(out.tree, t, keys)
      invariant forall k | k in keys :: k in entries && Denotes(entries[k], t.fields[k], reach)
      decreases |keys|
    {
      var k :| k in keys;
      PartStep(out.tree, t, keys, k);
      keys := keys - {k};
      CloneEntry(entries[k], t.fields[k], reach, out, k);
    }
    PartWhole(out.tree, t);
  }

  method CloneEntry(a: Any, ghost t: Tree, ghost reach: set<JsonMap>, out: JsonMap, k: string)
    requires Denotes(a, t, reach) && out.Valid() && k !in out.tree.fields
    modifies out
    ensures out.Valid() && fresh(out.Repr - old(out.Repr))
    ensures out.tree == Object(old(out.tree).fields[k := t])
    decreases t, 2
  {
    match a {
      case Text(s) =>
        out.SetText(k, s);
      case Nested(n) =>
        var c := DeepClone(n, t, reach);
        out.Adopt(k, c);
    }
  }

  // ---- Writing an entry ----

  datatype Overrides = Overrides(additionalRedactFields: seq<string>, scrubPolicyCredentials: bool)

  datatype Config = Config(
    enabled: bool, includeInput: bool, includePolicy: bool,
    redactFields: seq<string>, scrubPolicyCredentials: bool)

  lemma MergedPaths(fields: seq<string>, overrides: Option<Overrides>, merged: seq<string>)
    requires merged == fields + if overrides.Some? then overrides.value.additionalRedactFields else []
    ensures Paths(merged) == Paths(fields) + if overrides.Some? then Paths(overrides.value.additionalRedactFields) else {}
    ensures merged == [] <==> Paths(merged) == {}
  {
    if merged != [] { assert Segments(merged[0]) in Paths(merged); }
  }

  datatype Logged = Logged(input: JsonMap?, policy: string)

  /**
   The input and the policy text as they are encoded, or None when the log is off. `scrub` is
   the credential scrubber. No map that existed before is changed; what is logged is the
   input less the set of listed paths.
   */
  method Write(cfg: Config, overrides: Option<Overrides>, input: JsonMap?, policy: string, scrub: string -> string,
               ghost t: Tree, ghost reach: set<JsonMap>)
    returns (r: Option<Logged>)
    requires input != null ==> Denotes(Nested(input), t, reach)
    ensures r.Some? <==> cfg.enabled
    ensures r.Some? && !(cfg.includeInput && input != null) ==> r.value.input == null
    ensures r.Some? && cfg.includeInput && input != null ==> r.value.input != null
    ensures r.Some? && cfg.includeInput && input != null ==>
              var paths := Paths(cfg.redactFields) + if overrides.Some? then Paths(overrides.value.additionalRedactFields) else {};
              if paths == {} then r.value.input == input
              else fresh(r.value.input.Repr) && r.value.input.Valid() && r.value.input.tree == RedactSet(t, paths)
    ensures r.Some? && (!cfg.includePolicy || policy == "") ==> r.value.policy == ""
    ensures r.Some? && cfg.includePolicy && policy != "" ==>
              var scrubs := cfg.scrubPolicyCredentials || (overrides.Some? && overrides.value.scrubPolicyCredentials);
              r.value.policy == if scrubs then scrub(policy) else policy
  {
    if !cfg.enabled { return None; }
    var fields, doScrub := cfg.redactFields, cfg.scrubPolicyCredentials;
    if overrides.Some? {
      if |overrides.value.additionalRedactFields| > 0 { fields := fields + overrides.value.additionalRedactFields; }
      if overrides.value.scrubPolicyCredentials { doScrub := true; }
    }
    MergedPaths(cfg.redactFields, overrides, fields);
    var logged, loggedPolicy := input, policy;
    if !cfg.includeInput {
      logged := null;
    } else if |fields| > 0 && input != null {
      logged := DeepClone(input, t, reach);
      RedactFieldsInPlace(logged, fields);
    }
    if !cfg.includePolicy {
      loggedPolicy := "";
    } else if doScrub && policy != "" {
      loggedPolicy := scrub(policy);
    }
    return Some(Logged(logged, loggedPolicy));
  }

  method RedactFieldsInPlace(m: JsonMap, fields: seq<string>)
    requires m.Valid()
    modifies m.Repr
    ensures m.Valid() && m.Repr == old(m.Repr) && m.tree == RedactSet(old(m.tree), Paths(fields))
  {
    ghost var repr, before := m.Repr, m.tree;
    for i := 0 to |fields|
      invariant m.Valid() && m.Repr == repr && m.tree == RedactAll(before, fields[..i])
    {
      assert fields[..i + 1][..i] == fields[..i];
      m.RedactPath(fields[i]);
    }
    assert fields[..|fields|] == fields;
    RedactionIsOfTheSet(before, fields);
  }

  /**
   Whatever else is listed, a value at or under one of a tenant's paths is logged as "[REDACTED]" or not at
   all, and one that nobody's paths reach is logged as it is.
   */
  lemma TenantPathsHidden(t: Tree, q: Path, fields: seq<string>, tenant: seq<string>)
    requires Get(t, q).Some? && Get(t, q).value.Value?
    ensures var logged := Get(RedactSet(t, Paths(fields) + Paths(tenant)), q);
      && (Listed(q, Paths(fields)) || Listed(q, Paths(tenant)) ==> logged in {None, Some(Value("[REDACTED]"))})
      && (!Listed(q, Paths(fields)) && !Listed(q, Paths(tenant)) ==> logged == Get(t, q))
  {
    HiddenExactlyWhenListed(t, q, Paths(fields) + Paths(tenant));
  }
}
