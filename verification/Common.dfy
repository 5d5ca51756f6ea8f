/** Option, blank strings, the byte order on strings, and sorting by a pair of strings. */
module Common {

  datatype Option<+T> = None | Some(value: T)

  predicate Space(c: char) { c in " \t\n\U{0B}\U{0C}\r" }

  /** The space and the five controls from tab to carriage return. */
  lemma SpaceCodes(c: char)
    ensures Space(c) <==> c as int == 32 || 9 <= c as int <= 13
  {
  }

  /** Trimming leaves nothing of the string. */
  predicate Blank(s: string) { forall c | c in s :: Space(c) }

  // ---- Lexicographic order (Go compares strings byte by byte) ----

  predicate Less(a: string, b: string) {
    if b == "" then false
    else if a == "" then true
    else if a[0] != b[0] then a[0] < b[0]
    else Less(a[1..], b[1..])
  }

  lemma {:induction false} LessTrichotomy(a: string, b: string)
    ensures Less(a, b) || a == b || Less(b, a)
    ensures !(Less(a, b) && Less(b, a))
    ensures a == b ==> !Less(a, b)
  {
    if a != "" && b != "" && a[0] == b[0] {
      LessTrichotomy(a[1..], b[1..]);
      assert a == [a[0]] + a[1..] && b == [b[0]] + b[1..];
    }
  }

  lemma {:induction false} LessTransitive(a: string, b: string, c: string)
    requires Less(a, b) && Less(b, c)
    ensures Less(a, c)
  {
    if a != "" && a[0] == b[0] && b[0] == c[0] {
      LessTransitive(a[1..], b[1..], c[1..]);
    }
  }

  /** a ends, or has the smaller byte, where the two first part. */
  predicate PartsBelow(a: string, b: string, n: int) {
    && 0 <= n <= |a| && n < |b| && a[..n] == b[..n]
    && (n < |a| ==> a[n] < b[n])
  }

  /** The order is the lexicographic one. */
  lemma {:induction false} LessIsLexicographic(a: string, b: string)
    ensures Less(a, b) <==> exists n :: PartsBelow(a, b, n)
  {
    if a != "" && b != "" && a[0] == b[0] {
      LessIsLexicographic(a[1..], b[1..]);
      forall n ensures PartsBelow(a, b, n + 1) <==> PartsBelow(a[1..], b[1..], n) {
        LessTail(a, b, n);
      }
      if Less(a, b) {
        var n :| PartsBelow(a[1..], b[1..], n);
        assert PartsBelow(a, b, n + 1);
      }
      if n :| PartsBelow(a, b, n) {
        assert n > 0;
        assert PartsBelow(a[1..], b[1..], n - 1);
      }
    } else {
      assert Less(a, b) ==> PartsBelow(a, b, 0);
      if n :| PartsBelow(a, b, n) {
        assert n > 0 ==> a[..n][0] == b[..n][0];
      }
    }
  }

  lemma LessTail(a: string, b: string, n: int)
    requires a != "" && b != "" && a[0] == b[0]
    ensures PartsBelow(a, b, n + 1) <==> PartsBelow(a[1..], b[1..], n)
  {
    if 0 <= n < |a| && n < |b| {
      assert a[..n + 1] == [a[0]] + a[1..][..n] && b[..n + 1] == [b[0]] + b[1..][..n];
    }
  }

  /** A common prefix does not influence the order. */
  lemma {:induction false} LessSamePrefix(p: string, a: string, b: string)
    ensures Less(p + a, p + b) <==> Less(a, b)
  {
    if p == "" {
      assert p + a == a && p + b == b;
    } else {
      assert (p + a)[1..] == p[1..] + a && (p + b)[1..] == p[1..] + b;
      LessSamePrefix(p[1..], a, b);
    }
  }

  // ---- Sorting by a key that is a pair of strings ----

  type Key = (string, string)

  predicate KeyLess(a: Key, b: Key) {
    if a.0 != b.0 then Less(a.0, b.0) else Less(a.1, b.1)
  }

  lemma KeyLessOrder(a: Key, b: Key, c: Key)
    ensures KeyLess(a, b) || a == b || KeyLess(b, a)
    ensures !(KeyLess(a, b) && KeyLess(b, a))
    ensures !KeyLess(a, a)
    ensures KeyLess(a, b) && KeyLess(b, c) ==> KeyLess(a, c)
  {
    LessTrichotomy(a.0, b.0);
    LessTrichotomy(a.1, b.1);
    LessTrichotomy(a.0, a.0);
    LessTrichotomy(a.1, a.1);
    LessTrichotomy(b.0, c.0);
    if Less(a.0, b.0) && Less(b.0, c.0) { LessTransitive(a.0, b.0, c.0); LessTrichotomy(a.0, c.0); }
    if Less(a.1, b.1) && Less(b.1, c.1) { LessTransitive(a.1, b.1, c.1); }
  }

  ghost predicate Sorted<T(!new)>(s: seq<T>, key: T -> Key) {
    forall i, j | 0 <= i < j < |s| :: !KeyLess(key(s[j]), key(s[i]))
  }

  /** Elements with equal keys are equal, so a key never leaves a choice of order. */
  ghost predicate KeyDetermines<T(!new)>(s: seq<T>, key: T -> Key) {
    forall x, y | x in s && y in s && key(x) == key(y) :: x == y
  }

  function Insert<T>(x: T, s: seq<T>, key: T -> Key): seq<T> {
    if s == [] then [x]
    else if KeyLess(key(s[0]), key(x)) then [s[0]] + Insert(x, s[1..], key)
    else [x] + s
  }

  function SortBy<T>(s: seq<T>, key: T -> Key): seq<T> {
    if s == [] then [] else Insert(s[0], SortBy(s[1..], key), key)
  }

  lemma {:induction false} InsertAdds<T(!new)>(x: T, s: seq<T>, key: T -> Key)
    ensures multiset(Insert(x, s, key)) == multiset{x} + multiset(s)
  {
    if s != [] {
      InsertAdds(x, s[1..], key);
      assert s == [s[0]] + s[1..];
    }
  }

  lemma {:induction false} InsertSorted<T(!new)>(x: T, s: seq<T>, key: T -> Key)
    requires Sorted(s, key)
    ensures Sorted(Insert(x, s, key), key)
    ensures multiset(Insert(x, s, key)) == multiset{x} + multiset(s)
  {
    InsertAdds(x, s, key);
    if s != [] {
      SortedFirst(s, key);
      if KeyLess(key(s[0]), key(x)) {
        InsertSorted(x, s[1..], key);
        var t := Insert(x, s[1..], key);
        forall y | y in t ensures !KeyLess(key(y), key(s[0])) {
          assert y in multiset(t);
          KeyLessOrder(key(s[0]), key(x), key(x));
        }
        SortedCons(s[0], t, key);
      } else {
        forall y | y in s ensures !KeyLess(key(y), key(x)) {
          KeyLessOrder(key(y), key(x), key(s[0]));
          KeyLessOrder(key(x), key(s[0]), key(s[0]));
        }
        SortedCons(x, s, key);
      }
    }
  }

  lemma SortedFirst<T(!new)>(s: seq<T>, key: T -> Key)
    requires Sorted(s, key) && s != []
    ensures Sorted(s[1..], key) && forall y | y in s :: !KeyLess(key(y), key(s[0]))
  {
    KeyLessOrder(key(s[0]), key(s[0]), key(s[0]));
    SortedTail(s, key);
  }

  lemma SortedCons<T(!new)>(x: T, s: seq<T>, key: T -> Key)
    requires Sorted(s, key) && forall y | y in s :: !KeyLess(key(y), key(x))
    ensures Sorted([x] + s, key)
  {
  }

  lemma {:induction false} SortBySorts<T(!new)>(s: seq<T>, key: T -> Key)
    ensures Sorted(SortBy(s, key), key)
    ensures multiset(SortBy(s, key)) == multiset(s)
    ensures |SortBy(s, key)| == |s|
    ensures forall x :: x in SortBy(s, key) <==> x in s
  {
    if s != [] {
      SortBySorts(s[1..], key);
      InsertSorted(s[0], SortBy(s[1..], key), key);
      assert s == [s[0]] + s[1..];
    }
    var r := SortBy(s, key);
    assert |multiset(r)| == |multiset(s)|;
    forall x ensures x in r <==> x in s {
      assert x in r <==> x in multiset(r);
      assert x in s <==> x in multiset(s);
    }
  }

  lemma SortedTail<T(!new)>(s: seq<T>, key: T -> Key)
    requires s != [] && Sorted(s, key)
    ensures Sorted(s[1..], key)
    ensures KeyDetermines(s, key) ==> KeyDetermines(s[1..], key)
  {
    var t := s[1..];
    forall i, j | 0 <= i < j < |t| ensures !KeyLess(key(t[j]), key(t[i])) {
      assert t[i] == s[i + 1] && t[j] == s[j + 1];
    }
  }

  lemma SortedSameHead<T(!new)>(a: seq<T>, b: seq<T>, key: T -> Key)
    requires Sorted(a, key) && Sorted(b, key) && multiset(a) == multiset(b)
    requires KeyDetermines(a, key) && a != [] && b != []
    ensures a[0] == b[0]
  {
    assert a[0] in multiset(a) && b[0] in multiset(b);
    var i :| 0 <= i < |b| && b[i] == a[0];
    var j :| 0 <= j < |a| && a[j] == b[0];
    KeyLessOrder(key(a[0]), key(b[0]), key(a[0]));
  }

  /** Every sorting algorithm gives the same result when the key leaves no choice. */
  lemma {:induction false} SortedUnique<T(!new)>(a: seq<T>, b: seq<T>, key: T -> Key)
    requires Sorted(a, key) && Sorted(b, key) && multiset(a) == multiset(b)
    requires KeyDetermines(a, key)
    ensures a == b
  {
    assert |multiset(a)| == |a| && |multiset(b)| == |b|;
    if a != [] {
      SortedSameHead(a, b, key);
      assert a == [a[0]] + a[1..] && b == [b[0]] + b[1..];
      assert multiset(a[1..]) == multiset(a) - multiset{a[0]} == multiset(b[1..]);
      SortedTail(a, key);
      SortedTail(b, key);
      SortedUnique(a[1..], b[1..], key);
    }
  }

  /** Sorting forgets the order the elements came in. */
  lemma SortForgetsOrder<T(!new)>(a: seq<T>, b: seq<T>, key: T -> Key)
    requires multiset(a) == multiset(b) && KeyDetermines(a, key)
    ensures SortBy(a, key) == SortBy(b, key)
  {
    SortBySorts(a, key);
    SortBySorts(b, key);
    SortedUnique(SortBy(a, key), SortBy(b, key), key);
  }

  // ---- Sequences without repetition ----

  predicate NoRepeats<T(==)>(s: seq<T>) {
    forall i, j | 0 <= i < j < |s| :: s[i] != s[j]
  }

  lemma CountTwice<T>(s: seq<T>, i: nat, j: nat)
    requires i < j < |s| && s[i] == s[j]
    ensures multiset(s)[s[i]] >= 2
  {
    assert s == s[..i] + [s[i]] + s[i + 1..j] + [s[j]] + s[j + 1..];
  }

  lemma CountOnce<T>(s: seq<T>, k: nat)
    requires k < |s| && NoRepeats(s)
    ensures multiset(s)[s[k]] == 1
  {
    assert s == s[..k] + [s[k]] + s[k + 1..];
    assert s[k] !in s[..k] && s[k] !in s[k + 1..];
  }

  lemma NoRepeatsPermute<T>(a: seq<T>, b: seq<T>)
    requires multiset(a) == multiset(b) && NoRepeats(a)
    ensures NoRepeats(b)
  {
    forall i, j | 0 <= i < j < |b| ensures b[i] != b[j] {
      if b[i] == b[j] {
        CountTwice(b, i, j);
        assert b[i] in multiset(a);
        var k :| 0 <= k < |a| && a[k] == b[i];
        CountOnce(a, k);
      }
    }
  }
}
