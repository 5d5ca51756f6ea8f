/**
 Signing-key rotation with an overlap window (server/internal/oidc/keys.go). A key is its id
 and the time it was retired; key generation is an input that may fail.
 */
module KeyManager {
  import opened Common

  datatype Key = Key(kid: string, retiredAt: Option<int>)

  // ---- Rotation on values ----

  /** Demotes the active key, which is the first one. */
  function Retire(keys: seq<Key>, now: int): seq<Key> {
    if keys == [] then [] else keys[0 := keys[0].(retiredAt := Some(now))]
  }

  predicate Published(k: Key, now: int, overlap: int) {
    k.retiredAt == None || now - k.retiredAt.value < overlap
  }

  function Prune(keys: seq<Key>, now: int, overlap: int): seq<Key> {
    if keys == [] then []
    else (if Published(keys[0], now, overlap) then [keys[0]] else []) + Prune(keys[1..], now, overlap)
  }

  function Rotated(keys: seq<Key>, kid: string, now: int, overlap: int): seq<Key> {
    [Key(kid, None)] + Prune(Retire(keys, now), now, overlap)
  }

  // ---- The manager ----

  class KeyEntry {
    const kid: string
    var retiredAt: Option<int>

    constructor (kid: string)
      ensures this.kid == kid && retiredAt == None
    {
      this.kid := kid;
      retiredAt := None;
    }
  }

  ghost function ViewOf(entries: seq<KeyEntry>): (keys: seq<Key>)
    reads entries
    ensures |keys| == |entries|
    ensures forall i | 0 <= i < |keys| :: keys[i] == Key(entries[i].kid, entries[i].retiredAt)
  {
    seq(|entries|, i requires 0 <= i < |entries| reads entries => Key(entries[i].kid, entries[i].retiredAt))
  }

  lemma ViewCons(entry: KeyEntry, entries: seq<KeyEntry>)
    ensures ViewOf([entry] + entries) == [Key(entry.kid, entry.retiredAt)] + ViewOf(entries)
  {
  }

  class KeyManager {
    var active: KeyEntry?
    var keys: array<KeyEntry>  // newest first; the active key is keys[0]
    const overlap: int
    ghost var history: seq<Rotation>  // the successful rotations so far

    ghost predicate Valid()
      reads this, keys, keys[..]
    {
      overlap >= 0 && ActiveFirst() && View() == Run(history, overlap)
    }

    /** The active key is the first one, and is listed once. */
    ghost predicate ActiveFirst()
      reads this, keys
    {
      && active == (if keys.Length == 0 then null else keys[0])
      && (keys.Length > 0 ==> keys[0] !in keys[1..])
    }

    ghost function View(): seq<Key>
      reads this, keys, keys[..]
    {
      ViewOf(keys[..])
    }

    constructor (overlap: int)
      ensures Valid() && fresh(keys) && history == []
      ensures this.overlap == if overlap < 0 then 0 else overlap
    {
      active := null;
      keys := new KeyEntry[0];
      this.overlap := if overlap < 0 then 0 else overlap;
      history := [];
    }

    /** `kid` is None when key generation fails. */
    method Rotate(kid: Option<string>, now: int) returns (ok: bool)
      requires Valid()
      modifies this, keys, keys[..]
      ensures Valid() && ok == kid.Some?
      ensures history == old(history) + (if ok then [Rotation(kid.value, now)] else [])
    {
      if kid.None? {
        assert history == history + [];
        return false;
      }
      var entry := new KeyEntry(kid.value);
      Demote(entry, now);
      history := history + [Rotation(kid.value, now)];
      assert history[..|history| - 1] == old(history);
      return true;
    }

    method Demote(entry: KeyEntry, now: int)
      requires ActiveFirst() && entry !in keys[..] && entry.retiredAt == None
      modifies this`active, this`keys, keys, keys[..]
      ensures ActiveFirst()
      ensures View() == Rotated(old(View()), entry.kid, now, overlap)
    {
      ghost var before := keys[..];
      var kept := RetireAndPrune(now);
      assert entry !in before;
      Prepend(entry, kept);
    }

    method RetireAndPrune(now: int) returns (kept: nat)
      requires ActiveFirst()
      modifies keys, keys[..]
      ensures kept <= keys.Length
      ensures forall e | e in keys[..kept] :: e in old(keys[..])
      ensures ViewOf(keys[..kept]) == Prune(Retire(old(View()), now), now, overlap)
    {
      RetireActive(now);
      kept := PruneInPlace(now);
    }

    method RetireActive(now: int)
      requires ActiveFirst()
      modifies keys[..]
      ensures View() == Retire(old(View()), now)
    {
      if active != null { active.retiredAt := Some(now); }
    }

    /**
     The loop over km.keys that appends to km.keys[:0]: it overwrites the array it reads,
     always at or before the index being read.
     */
    method PruneInPlace(now: int) returns (kept: nat)
      modifies keys
      ensures kept <= keys.Length
      ensures forall e | e in keys[..kept] :: e in old(keys[..])
      ensures ViewOf(keys[..kept]) == Prune(old(View()), now, overlap)
    {
      ghost var orig, view, survivors := keys[..], View(), [];
      kept := 0;
      for i := 0 to keys.Length
        invariant kept == |survivors| <= i && survivors == Prune(view[..i], now, overlap)
        invariant forall j | 0 <= j < kept :: keys[j] in orig && Key(keys[j].kid, keys[j].retiredAt) == survivors[j]
        invariant forall j | i <= j < keys.Length :: keys[j] == orig[j]
      {
        var k := keys[i];
        assert view[..i + 1] == view[..i] + [view[i]];
        PruneAppend(view[..i], view[i], now, overlap);
        survivors := Prune(view[..i + 1], now, overlap);
        if k.retiredAt == None || now - k.retiredAt.value < overlap {
          keys[kept] := k;
          kept := kept + 1;
        }
      }
      assert view[..keys.Length] == view;
      assert ViewOf(keys[..kept]) == survivors;
    }

    /** The new active key in front of the survivors, in a new array. */
    method Prepend(entry: KeyEntry, kept: nat)
      requires kept <= keys.Length && entry !in keys[..kept]
      modifies this`active, this`keys
      ensures ActiveFirst()
      ensures View() == [Key(entry.kid, entry.retiredAt)] + old(ViewOf(keys[..kept]))
    {
      var from, all := keys, new KeyEntry[kept + 1](_ => entry);
      for i := 0 to kept
        invariant all[0] == entry
        invariant forall j | 0 <= j < i :: all[j + 1] == from[j]
      {
        all[i + 1] := from[i];
      }
      assert all[..] == [entry] + from[..kept];
      ViewCons(entry, from[..kept]);
      active := entry;
      keys := all;
      assert keys[1..] == from[..kept];
    }

    /** The published key set. */
    method JWKS() returns (kids: seq<string>)
      ensures kids == Kids(View())
    {
      kids := [];
      for i := 0 to keys.Length
        invariant kids == Kids(View()[..i])
      {
        kids := kids + [keys[i].kid];
      }
      assert View()[..keys.Length] == View();
    }

    /** Whether some published key verifies a token; `verifies` is the signature library's verdict. */
    method VerifySignature(verifies: string -> bool) returns (found: bool)
      ensures found <==> exists k :: k in View() && verifies(k.kid)
    {
      var published := JWKS();
      assert forall k | k in View() :: k.kid in published;
      for i := 0 to |published|
        invariant forall j | 0 <= j < i :: !verifies(published[j])
      {
        if verifies(published[i]) {
          assert View()[i] in View();
          return true;
        }
      }
      return false;
    }
  }

  /** A manager with its first key, or None when key generation fails. */
  method NewKeyManagerWithOverlap(overlap: int, kid: Option<string>, now: int) returns (km: KeyManager?)
    ensures (km == null) == kid.None?
    ensures km != null ==> km.Valid() && km.history == [Rotation(kid.value, now)]
    ensures km != null ==> fresh(km) && km.overlap == (if overlap < 0 then 0 else overlap)
  {
    var manager := new KeyManager(overlap);
    var ok := manager.Rotate(kid, now);
    km := if ok then manager else null;
  }

  function Kids(keys: seq<Key>): (kids: seq<string>)
    ensures |kids| == |keys| && forall i | 0 <= i < |keys| :: kids[i] == keys[i].kid
  {
    seq(|keys|, i requires 0 <= i < |keys| => keys[i].kid)
  }

  lemma {:induction false} PruneAppend(keys: seq<Key>, k: Key, now: int, overlap: int)
    ensures Prune(keys + [k], now, overlap) == Prune(keys, now, overlap) + (if Published(k, now, overlap) then [k] else [])
  {
    if keys == [] {
      assert [] + [k] == [k];
    } else {
      assert (keys + [k])[1..] == keys[1..] + [k];
      PruneAppend(keys[1..], k, now, overlap);
      var first := if Published(keys[0], now, overlap) then [keys[0]] else [];
      var last := if Published(k, now, overlap) then [k] else [];
      assert first + Prune(keys[1..], now, overlap) + last == first + (Prune(keys[1..], now, overlap) + last);
    }
  }

  // ---- Whole runs of rotations ----

  datatype Rotation = Rotation(kid: string, at: int)

  function Run(rots: seq<Rotation>, overlap: int): seq<Key> {
    if rots == [] then []
    else
      var n := |rots| - 1;
      Rotated(Run(rots[..n], overlap), rots[n].kid, rots[n].at, overlap)
  }

  predicate Monotone(rots: seq<Rotation>) {
    forall i, j | 0 <= i < j < |rots| :: rots[i].at <= rots[j].at
  }

  /** Every key ever rotated in, newest first: a run that prunes nothing. */
  function History(rots: seq<Rotation>): (keys: seq<Key>)
    ensures |keys| == |rots|
  {
    if rots == [] then []
    else
      var n := |rots| - 1;
      [Key(rots[n].kid, None)] + Retire(History(rots[..n]), rots[n].at)
  }

  /** When the j-th newest key was retired: at the rotation after its own. */
  function RetiredAt(rots: seq<Rotation>, j: nat): int
    requires 1 <= j < |rots|
  {
    rots[|rots| - j].at
  }

  /** `k` is what the j-th newest key looks like after `rots`. */
  predicate KeyAt(rots: seq<Rotation>, j: nat, k: Key) {
    && j < |rots|
    && k.kid == rots[|rots| - 1 - j].kid
    && k.retiredAt == if j == 0 then None else Some(RetiredAt(rots, j))
  }

  lemma KeyAtStep(rots: seq<Rotation>, older: seq<Key>, j: nat)
    requires 1 <= j < |rots| == |older| + 1 && KeyAt(rots[..|rots| - 1], j - 1, older[j - 1])
    ensures KeyAt(rots, j, ([Key(rots[|rots| - 1].kid, None)] + Retire(older, rots[|rots| - 1].at))[j])
  {
    assert rots[..|rots| - 1][|rots| - 1 - j] == rots[|rots| - 1 - j];
  }

  /** Each key but the newest was retired by the rotation after its own. */
  lemma {:induction false} HistoryAt(rots: seq<Rotation>, j: nat)
    requires j < |rots|
    ensures KeyAt(rots, j, History(rots)[j])
  {
    if j > 0 {
      var before := rots[..|rots| - 1];
      HistoryAt(before, j - 1);
      KeyAtStep(rots, History(before), j);
    }
  }

  lemma {:induction false} PruneTwice(keys: seq<Key>, early: int, late: int, overlap: int)
    requires early <= late
    ensures Prune(Prune(keys, early, overlap), late, overlap) == Prune(keys, late, overlap)
  {
    if keys == [] {
    } else {
      PruneTwice(keys[1..], early, late, overlap);
      var rest := Prune(keys[1..], early, overlap);
      if Published(keys[0], early, overlap) {
        assert ([keys[0]] + rest)[1..] == rest;
      } else {
        assert [] + rest == rest;
      }
    }
  }

  /** Pruning at every rotation leaves what pruning the whole history once, at the last one, leaves. */
  lemma {:induction false} PruneOnce(rots: seq<Rotation>, overlap: int)
    requires rots != [] && Monotone(rots)
    ensures Run(rots, overlap) == Prune(History(rots), rots[|rots| - 1].at, overlap)
  {
    var n := |rots| - 1;
    var before, now := rots[..n], rots[n].at;
    var retired := Retire(History(before), now);
    assert ([Key(rots[n].kid, None)] + retired)[1..] == retired;
    if before != [] {
      PruneOnce(before, overlap);
      PruneRetired(History(before), rots[n - 1].at, now, overlap) by { HistoryAt(before, 0); }
    }
  }

  lemma PruneRetired(keys: seq<Key>, early: int, late: int, overlap: int)
    requires keys != [] && keys[0].retiredAt == None && early <= late
    ensures Prune(Retire(Prune(keys, early, overlap), late), late, overlap) == Prune(Retire(keys, late), late, overlap)
  {
    var rest := Prune(keys[1..], early, overlap);
    var head := keys[0].(retiredAt := Some(late));
    assert Prune(keys, early, overlap) == [keys[0]] + rest;
    assert ([keys[0]] + rest)[1..] == rest;
    assert ([head] + rest)[1..] == rest && ([head] + keys[1..])[1..] == keys[1..];
    PruneTwice(keys[1..], early, late, overlap);
  }

  /** Retired keys in order of age: pruning keeps a prefix of them. */
  lemma {:induction false} PruneKeepsPrefix(keys: seq<Key>, now: int, overlap: int)
    requires forall j | 0 <= j < |keys| :: keys[j].retiredAt.Some?
    requires forall i, j | 0 <= i < j < |keys| :: keys[j].retiredAt.value <= keys[i].retiredAt.value
    ensures var kept := |Prune(keys, now, overlap)|;
      && kept <= |keys| && Prune(keys, now, overlap) == keys[..kept]
      && (forall j | 0 <= j < |keys| :: j < kept <==> Published(keys[j], now, overlap))
  {
    if keys == [] {
    } else {
      PruneKeepsPrefix(keys[1..], now, overlap);
      var rest := Prune(keys[1..], now, overlap);
      assert forall j | 1 <= j < |keys| :: keys[j] == keys[1..][j - 1];
      if Published(keys[0], now, overlap) {
        assert keys[..|rest| + 1] == [keys[0]] + keys[1..][..|rest|];
      } else {
        assert rest == [];
      }
    }
  }

  /** `m` keys are held when exactly the retirements that count are within the overlap. */
  predicate HeldCount(rots: seq<Rotation>, overlap: int, m: nat) {
    && 1 <= m <= |rots|
    && forall j | 1 <= j < |rots| :: j < m <==> rots[|rots| - 1].at - RetiredAt(rots, j) < overlap
  }

  /**
   After any run of rotations the key set is the history less a suffix: the newest key is the
   only unretired one, and a retired key is still there exactly while the overlap since its
   retirement had not passed at the last rotation.
   */
  lemma {:induction false} RotationDropsSuffix(rots: seq<Rotation>, overlap: int)
    requires rots != [] && Monotone(rots)
    ensures var keys := Run(rots, overlap);
      && 0 < |keys| <= |rots| && keys == History(rots)[..|keys|]
      && (forall j | 0 <= j < |keys| :: keys[j].retiredAt == None <==> j == 0)
      && HeldCount(rots, overlap, |keys|)
  {
    var all, now := History(rots), rots[|rots| - 1].at;
    var older := all[1..];
    PruneOnce(rots, overlap);
    HistoryAt(rots, 0);
    forall j | 0 <= j < |older| ensures older[j].retiredAt == Some(RetiredAt(rots, j + 1)) {
      HistoryAt(rots, j + 1);
    }
    PruneKeepsPrefix(older, now, overlap);
    PrefixOfHistory(all, now, overlap);
    forall j | 1 <= j < |rots|
      ensures j < |Run(rots, overlap)| <==> now - RetiredAt(rots, j) < overlap
    {
      assert older[j - 1].retiredAt == Some(RetiredAt(rots, j));
    }
  }

  lemma PrefixOfHistory(all: seq<Key>, now: int, overlap: int)
    requires all != [] && all[0].retiredAt == None
    requires var kept := |Prune(all[1..], now, overlap)|;
      kept < |all| && Prune(all[1..], now, overlap) == all[1..][..kept]
    ensures var kept := |Prune(all[1..], now, overlap)|;
      |Prune(all, now, overlap)| == kept + 1 && Prune(all, now, overlap) == all[..kept + 1]
  {
    var rest := Prune(all[1..], now, overlap);
    assert Prune(all, now, overlap) == [all[0]] + rest;
    assert all[..|rest| + 1] == [all[0]] + all[1..][..|rest|];
  }

  /**
   The key of rotation i signed until rotation i + 1. At any time t after the last rotation it
   is published if t is within the overlap of its retirement; and if it is published, it was
   within the overlap at that last rotation.
   */
  lemma SignerStaysPublished(rots: seq<Rotation>, i: nat, t: int, overlap: int)
    requires i < |rots| && Monotone(rots) && rots[|rots| - 1].at <= t
    requires forall a, b | 0 <= a < b < |rots| :: rots[a].kid != rots[b].kid
    ensures var listed := rots[i].kid in Kids(Run(rots, overlap));
      && (i == |rots| - 1 || t - rots[i + 1].at < overlap ==> listed)
      && (listed ==> i == |rots| - 1 || rots[|rots| - 1].at - rots[i + 1].at < overlap)
  {
    var n, keys := |rots|, Run(rots, overlap);
    RotationDropsSuffix(rots, overlap);
    var j := n - 1 - i;
    HistoryAt(rots, j);
    if j < |keys| {
      assert Kids(keys)[j] == rots[i].kid;
    }
    if rots[i].kid in Kids(keys) {
      var m :| 0 <= m < |keys| && Kids(keys)[m] == rots[i].kid;
      HistoryAt(rots, m);
    }
  }

  function Ceiling(a: nat, d: int): int
    requires d > 0
  {
    (a + d - 1) / d
  }

  predicate Spaced(rots: seq<Rotation>, d: int) {
    forall i | 1 <= i < |rots| :: d <= Gap(rots, i)
  }

  function Gap(rots: seq<Rotation>, i: nat): int
    requires 1 <= i < |rots|
  {
    rots[i].at - rots[i - 1].at
  }

  lemma {:induction false} SpacedApart(rots: seq<Rotation>, d: int, i: nat, j: nat)
    requires Spaced(rots, d) && i <= j < |rots|
    ensures (j - i) * d <= rots[j].at - rots[i].at
    decreases j - i
  {
    if i < j {
      SpacedApart(rots, d, i, j - 1);
      assert d <= Gap(rots, j);
      assert (j - i) * d == (j - 1 - i) * d + d;
    }
  }

  lemma Scaled(a: int, b: int, d: int)
    requires a <= b && d > 0
    ensures a * d <= b * d
  {
  }

  lemma CeilingBound(k: nat, a: nat, d: int)
    requires d > 0
    ensures k * d < a <==> k < Ceiling(a, d)
  {
    var q := Ceiling(a, d);
    assert q * d <= a + d - 1 < q * d + d;
    if k < q {
      Scaled(k, q - 1, d);
      assert (q - 1) * d == q * d - d;
    } else {
      Scaled(q, k, d);
    }
  }

  lemma RetiredAgo(rots: seq<Rotation>, d: int, j: nat)
    requires Spaced(rots, d) && 1 <= j < |rots|
    ensures (j - 1) * d <= rots[|rots| - 1].at - RetiredAt(rots, j)
  {
    SpacedApart(rots, d, |rots| - j, |rots| - 1);
  }

  lemma HeldCountBound(rots: seq<Rotation>, overlap: nat, d: int, m: nat)
    requires d > 0 && Spaced(rots, d) && HeldCount(rots, overlap, m)
    ensures m <= 1 + Ceiling(overlap, d)
  {
    if m > 1 {
      RetiredAgo(rots, d, m - 1);
      CeilingBound(m - 2, overlap, d);
    } else {
      CeilingBound(0, overlap, d);
    }
  }

  /** Rotations at least d apart keep at most 1 + ceiling(overlap / d) keys. */
  lemma SizeBound(rots: seq<Rotation>, overlap: nat, d: int)
    requires d > 0 && rots != [] && Spaced(rots, d)
    ensures Monotone(rots)
    ensures |Run(rots, overlap)| <= 1 + Ceiling(overlap, d)
  {
    SpacedMonotone(rots, d);
    RotationDropsSuffix(rots, overlap);
    HeldCountBound(rots, overlap, d, |Run(rots, overlap)|);
  }

  lemma SpacedMonotone(rots: seq<Rotation>, d: int)
    requires d > 0 && Spaced(rots, d)
    ensures Monotone(rots)
  {
    forall i, j | 0 <= i < j < |rots| ensures rots[i].at <= rots[j].at {
      SpacedApart(rots, d, i, j);
      assert 0 <= (j - i) * d;
    }
  }

  lemma HeldCountReached(rots: seq<Rotation>, overlap: nat, d: int, m: nat)
    requires d > 0 && |rots| > Ceiling(overlap, d) && HeldCount(rots, overlap, m)
    requires forall i | 1 <= i < |rots| :: Gap(rots, i) == d
    ensures m >= 1 + Ceiling(overlap, d)
  {
    var q := Ceiling(overlap, d);
    if q > 0 {
      ExactlyApart(rots, d, |rots| - q, |rots| - 1);
      CeilingBound(q - 1, overlap, d);
      assert RetiredAt(rots, q) == rots[|rots| - q].at;
    }
  }

  /** The bound is reached: rotations exactly d apart hold it, once there have been enough of them. */
  lemma SizeBoundReached(rots: seq<Rotation>, overlap: nat, d: int)
    requires d > 0 && |rots| > Ceiling(overlap, d)
    requires forall i | 1 <= i < |rots| :: Gap(rots, i) == d
    ensures |Run(rots, overlap)| == 1 + Ceiling(overlap, d)
  {
    CeilingBound(0, overlap, d);
    SizeBound(rots, overlap, d);
    RotationDropsSuffix(rots, overlap);
    HeldCountReached(rots, overlap, d, |Run(rots, overlap)|);
  }

  lemma {:induction false} ExactlyApart(rots: seq<Rotation>, d: int, i: nat, j: nat)
    requires (forall k | 1 <= k < |rots| :: Gap(rots, k) == d) && i <= j < |rots|
    ensures rots[j].at - rots[i].at == (j - i) * d
    decreases j - i
  {
    if i < j {
      ExactlyApart(rots, d, i, j - 1);
      assert Gap(rots, j) == d;
      assert (j - i) * d == (j - 1 - i) * d + d;
    }
  }
}
