/**
 Redaction in the decision log (server/internal/opa/engine.go). An input document is a graph of
 mutable maps; whatever is not a map, lists included, is one opaque value. Here: what
 redaction means on trees.
 */
module Redaction {
  import opened Common

  datatype Tree = Value(text: string) | Object(fields: map<string, Tree>)

  /** The segments of a dot-separated path. */
  type Path = seq<string>

  const REDACTED := Value("[REDACTED]")

  // ---- Paths as strings ----

  /** The first segment, and the rest of the path when there is a dot. */
  function FirstDot(path: string): (i: nat)
    ensures i <= |path| && '.' !in path[..i]
    ensures i < |path| ==> path[i] == '.'
  {
    if path == "" || path[0] == '.' then 0 else 1 + FirstDot(path[1..])
  }

  function Segments(path: string): (p: Path)
    ensures p != []
    decreases |path|
  {
    var i := FirstDot(path);
    if i == |path| then [path] else [path[..i]] + Segments(path[i + 1..])
  }

  /** The segments with dots between them. */
  function Joined(p: Path): string
    requires p != []
  {
    if |p| == 1 then p[0] else p[0] + "." + Joined(p[1..])
  }

  /** A path's segments hold no dot, and joined by dots they are the path: there is no other way to split it. */
  lemma {:induction false} SegmentsSplit(path: string)
    ensures Joined(Segments(path)) == path
    ensures forall s | s in Segments(path) :: '.' !in s
    decreases |path|
  {
    var i := FirstDot(path);
    if i < |path| {
      SegmentsSplit(path[i + 1..]);
      assert Segments(path)[1..] == Segments(path[i + 1..]);
      assert path == path[..i] + "." + path[i + 1..];
    } else {
      assert path[..i] == path;
    }
  }

  /** One path, as redactPath walks it. */
  function RedactAt(t: Tree, p: Path): Tree
    requires p != []
  {
    match t
    case Value(_) => t
    case Object(fields) =>
      if p[0] !in fields then t
      else if |p| == 1 then Object(fields[p[0] := REDACTED])
      else Object(fields[p[0] := RedactAt(fields[p[0]], p[1..])])
  }

  function RedactAll(t: Tree, paths: seq<string>): Tree {
    if paths == [] then t
    else RedactAt(RedactAll(t, paths[..|paths| - 1]), Segments(paths[|paths| - 1]))
  }

  // ---- A set of paths at once ----

  function Under(s: set<Path>, k: string): set<Path> {
    set p | p in s && |p| > 1 && p[0] == k :: p[1..]
  }

  function RedactSet(t: Tree, s: set<Path>): Tree {
    match t
    case Value(_) => t
    case Object(fields) =>
      Object(map k | k in fields :: if [k] in s then REDACTED else RedactSet(fields[k], Under(s, k)))
  }

  function Paths(paths: seq<string>): set<Path> {
    set p | p in paths :: Segments(p)
  }

  lemma {:induction false} RedactSetEmpty(t: Tree)
    ensures RedactSet(t, {}) == t
  {
    if t.Object? {
      forall k | k in t.fields ensures RedactSet(t.fields[k], Under({}, k)) == t.fields[k] {
        assert Under({}, k) == {};
        RedactSetEmpty(t.fields[k]);
      }
      assert RedactSet(t, {}).fields == t.fields;
    }
  }

  lemma UnderAdd(s: set<Path>, p: Path, k: string)
    requires p != []
    ensures Under(s + {p}, k) == if |p| > 1 && p[0] == k then Under(s, k) + {p[1..]} else Under(s, k)
  {
  }

  lemma {:induction false} RedactSetAdd(t: Tree, s: set<Path>, p: Path)
    requires p != []
    ensures RedactAt(RedactSet(t, s), p) == RedactSet(t, s + {p})
    decreases t
  {
    if t.Object? {
      var before, after := RedactSet(t, s), RedactSet(t, s + {p});
      forall k | k in t.fields ensures RedactAt(before, p).fields[k] == after.fields[k] {
        UnderAdd(s, p, k);
        assert [k] in s + {p} <==> [k] in s || (|p| == 1 && p[0] == k) by {
          if |p| == 1 { assert p == [p[0]]; }
        }
        if |p| > 1 && p[0] == k { RedactSetAdd(t.fields[k], Under(s, k), p[1..]); }
      }
      assert RedactAt(before, p).fields == after.fields;
    }
  }

  /** Redacting path after path is redacting the set of them: order and repetition are lost. */
  lemma {:induction false} RedactionIsOfTheSet(t: Tree, paths: seq<string>)
    ensures RedactAll(t, paths) == RedactSet(t, Paths(paths))
  {
    if paths == [] {
      assert Paths(paths) == {};
      RedactSetEmpty(t);
    } else {
      var n := |paths| - 1;
      RedactionIsOfTheSet(t, paths[..n]);
      RedactSetAdd(t, Paths(paths[..n]), Segments(paths[n]));
      assert paths == paths[..n] + [paths[n]];
      assert Paths(paths) == Paths(paths[..n]) + {Segments(paths[n])};
    }
  }

  lemma OrderAndRepetitionIrrelevant(t: Tree, paths: seq<string>, others: seq<string>)
    requires forall p :: p in paths <==> p in others
    ensures RedactAll(t, paths) == RedactAll(t, others)
  {
    RedactionIsOfTheSet(t, paths);
    RedactionIsOfTheSet(t, others);
    assert Paths(paths) == Paths(others);
  }

  // ---- What is hidden ----

  /** `b` shows what `a` shows, except where it says "[REDACTED]". */
  predicate Hides(a: Tree, b: Tree) {
    || b == REDACTED
    || a == b
    || (a.Object? && b.Object? && a.fields.Keys == b.fields.Keys
        && forall k | k in a.fields :: Hides(a.fields[k], b.fields[k]))
  }

  lemma {:induction false} SetMonotone(t: Tree, s: set<Path>, more: set<Path>)
    requires s <= more
    ensures Hides(RedactSet(t, s), RedactSet(t, more))
    decreases t
  {
    if t.Object? {
      var a, b := RedactSet(t, s), RedactSet(t, more);
      forall k | k in t.fields ensures Hides(a.fields[k], b.fields[k]) {
        SetMonotone(t.fields[k], Under(s, k), Under(more, k));
      }
    }
  }

  /** A tenant's extra paths turn more values into "[REDACTED]" and restore none. */
  lemma ExtraPathsHideMore(t: Tree, paths: seq<string>, extra: seq<string>)
    ensures Hides(t, RedactAll(t, paths))
    ensures Hides(RedactAll(t, paths), RedactAll(t, paths + extra))
  {
    RedactionIsOfTheSet(t, paths);
    RedactionIsOfTheSet(t, paths + extra);
    RedactSetEmpty(t);
    SetMonotone(t, {}, Paths(paths));
    SetMonotone(t, Paths(paths), Paths(paths + extra));
  }

  /** What a reader finds at a path. */
  function Get(t: Tree, q: Path): Option<Tree> {
    if q == [] then Some(t)
    else if t.Object? && q[0] in t.fields then Get(t.fields[q[0]], q[1..])
    else None
  }

  /** Some beginning of q, or q itself, is listed. */
  predicate Listed(q: Path, s: set<Path>) {
    exists n :: 1 <= n <= |q| && q[..n] in s
  }

  lemma ListedStep(q: Path, s: set<Path>)
    requires q != []
    ensures Listed(q, s) <==> [q[0]] in s || Listed(q[1..], Under(s, q[0]))
  {
    if Listed(q, s) {
      var n :| 1 <= n <= |q| && q[..n] in s;
      if n == 1 {
        assert q[..1] == [q[0]];
      } else {
        assert q[..n][1..] == q[1..][..n - 1];
        assert q[1..][..n - 1] in Under(s, q[0]);
      }
    }
    if [q[0]] in s { assert q[..1] == [q[0]]; }
    if Listed(q[1..], Under(s, q[0])) {
      var n :| 1 <= n <= |q[1..]| && q[1..][..n] in Under(s, q[0]);
      var p :| p in s && |p| > 1 && p[0] == q[0] && p[1..] == q[1..][..n];
      assert p == [p[0]] + p[1..] == q[..n + 1];
    }
  }

  /** A value of the input is logged exactly when neither its path nor a beginning of it is listed; else it is gone or "[REDACTED]". */
  lemma {:induction false} HiddenExactlyWhenListed(t: Tree, q: Path, s: set<Path>)
    requires Get(t, q).Some? && Get(t, q).value.Value?
    ensures !Listed(q, s) ==> Get(RedactSet(t, s), q) == Get(t, q)
    ensures Listed(q, s) ==> Get(RedactSet(t, s), q) in {None, Some(REDACTED)}
    decreases |q|
  {
    if q != [] {
      ListedStep(q, s);
      var k := q[0];
      if [k] !in s {
        HiddenExactlyWhenListed(t.fields[k], q[1..], Under(s, k));
      } else {
        assert RedactSet(t, s).fields[k] == REDACTED;
      }
    }
  }
}
