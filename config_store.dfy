/**
 * The entry store and the resolution engine of the configuration editor.
 *
 * An entry is one value of one key in one scope. The store holds the active
 * scope, the working set of entries and the search text; the resolution
 * engine picks, for a key, the entry that takes effect and reports which
 * other tier also holds a value for it.
 */
module ConfigStore {
  import opened Wrappers
  import opened Text
  import ConfigSchema

  /** The precedence tiers, plus the display-only `merged` view. */
  datatype Scope = Local | Global | System | Merged

  datatype ConfigEntry = ConfigEntry(key: string, value: string, scope: Scope, overriddenBy: Option<Scope>)

  /**
   * The position of a scope in the priority list local, global, system; the
   * `merged` scope is not in that list, so its position is -1 and it sorts
   * before every tier.
   */
  function Rank(s: Scope): (r: int)
    ensures -1 <= r <= 2
    ensures r == -1 <==> s == Merged
  {
    match s
    case Local => 0
    case Global => 1
    case System => 2
    case Merged => -1
  }

  lemma RankInjective(s: Scope, t: Scope)
    ensures Rank(s) == Rank(t) ==> s == t
  {
  }

  // ---------------------------------------------------------------- matching

  /** The entries whose key is exactly `key`, in input order. */
  function Matches(entries: seq<ConfigEntry>, key: string): (r: seq<ConfigEntry>)
    ensures |r| <= |entries|
    ensures forall e | e in r :: e in entries && e.key == key
  {
    if entries == [] then []
    else if entries[0].key == key then [entries[0]] + Matches(entries[1..], key)
    else Matches(entries[1..], key)
  }

  lemma {:induction false} MatchesEmptyIff(entries: seq<ConfigEntry>, key: string)
    ensures Matches(entries, key) == [] <==> forall i | 0 <= i < |entries| :: entries[i].key != key
  {
    if entries != [] {
      MatchesEmptyIff(entries[1..], key);
      assert forall i | 1 <= i < |entries| :: entries[i] == entries[1..][i - 1];
    }
  }

  lemma {:induction false} MatchesAppend(a: seq<ConfigEntry>, b: seq<ConfigEntry>, key: string)
    ensures Matches(a + b, key) == Matches(a, key) + Matches(b, key)
  {
    if a != [] {
      assert (a + b)[0] == a[0];
      assert (a + b)[1..] == a[1..] + b;
      MatchesAppend(a[1..], b, key);
      if a[0].key == key {
        assert Matches(a + b, key) == [a[0]] + Matches(a[1..] + b, key);
        assert [a[0]] + (Matches(a[1..], key) + Matches(b, key)) == ([a[0]] + Matches(a[1..], key)) + Matches(b, key);
      } else {
        assert Matches(a + b, key) == Matches(a[1..] + b, key);
      }
    } else {
      assert a + b == b;
    }
  }

  /** An entry with `key` occurs among the matches as often as in the input. */
  lemma {:induction false} MatchesCount(entries: seq<ConfigEntry>, key: string, e: ConfigEntry)
    requires e.key == key
    ensures multiset(Matches(entries, key))[e] == multiset(entries)[e]
  {
    if entries != [] {
      assert entries == [entries[0]] + entries[1..];
      MatchesCount(entries[1..], key, e);
    }
  }

  // ---------------------------------------------------------------- the stable sort

  /** Puts `e` in front of the first element whose rank is not lower than its own. */
  function InsertByRank(e: ConfigEntry, s: seq<ConfigEntry>): (r: seq<ConfigEntry>)
  {
    if s == [] || Rank(e.scope) <= Rank(s[0].scope) then [e] + s
    else [s[0]] + InsertByRank(e, s[1..])
  }

  /**
   * `Array.prototype.sort` with the comparator `rank(a) - rank(b)`: a stable
   * sort, here an insertion sort that inserts each element in front of its
   * equals so that ties keep their input order.
   */
  function SortByRank(s: seq<ConfigEntry>): seq<ConfigEntry> {
    if s == [] then [] else InsertByRank(s[0], SortByRank(s[1..]))
  }

  lemma {:induction false} InsertByRankPermutes(e: ConfigEntry, s: seq<ConfigEntry>)
    ensures multiset(InsertByRank(e, s)) == multiset(s) + multiset{e}
  {
    if s != [] && Rank(e.scope) > Rank(s[0].scope) {
      InsertByRankPermutes(e, s[1..]);
      assert s == [s[0]] + s[1..];
    }
  }

  /** The sort is a permutation of its input. */
  lemma {:induction false} SortByRankPermutes(s: seq<ConfigEntry>)
    ensures multiset(SortByRank(s)) == multiset(s)
  {
    if s != [] {
      SortByRankPermutes(s[1..]);
      InsertByRankPermutes(s[0], SortByRank(s[1..]));
      assert s == [s[0]] + s[1..];
    }
  }

  /** The elements of rank `k`, in input order. */
  function OfRank(s: seq<ConfigEntry>, k: int): (r: seq<ConfigEntry>)
    ensures forall e | e in r :: Rank(e.scope) == k
  {
    if s == [] then []
    else if Rank(s[0].scope) == k then [s[0]] + OfRank(s[1..], k)
    else OfRank(s[1..], k)
  }

  /** The elements of rank `k` and above, lower ranks first, each rank in input order. */
  function FromRank(s: seq<ConfigEntry>, k: int): (r: seq<ConfigEntry>)
    ensures forall e | e in r :: k <= Rank(e.scope)
    decreases 3 - k
  {
    if k > 2 then [] else OfRank(s, k) + FromRank(s, k + 1)
  }

  /** A reference stable sort: the elements of each rank in turn, each rank in input order. */
  function Buckets(s: seq<ConfigEntry>): seq<ConfigEntry> {
    FromRank(s, -1)
  }

  lemma {:induction false} InsertSkip(e: ConfigEntry, p: seq<ConfigEntry>, s: seq<ConfigEntry>)
    requires forall x | x in p :: Rank(x.scope) < Rank(e.scope)
    ensures InsertByRank(e, p + s) == p + InsertByRank(e, s)
  {
    if p == [] {
      assert p + s == s;
    } else {
      assert (p + s)[0] == p[0];
      assert (p + s)[1..] == p[1..] + s;
      InsertSkip(e, p[1..], s);
      assert p == [p[0]] + p[1..];
    }
  }

  lemma OfRankCons(e: ConfigEntry, t: seq<ConfigEntry>, k: int)
    ensures OfRank([e] + t, k) == (if Rank(e.scope) == k then [e] else []) + OfRank(t, k)
  {
    assert ([e] + t)[0] == e && ([e] + t)[1..] == t;
  }

  lemma {:induction false} FromRankCons(e: ConfigEntry, t: seq<ConfigEntry>, k: int)
    requires Rank(e.scope) < k
    ensures FromRank([e] + t, k) == FromRank(t, k)
    decreases 3 - k
  {
    if k <= 2 {
      OfRankCons(e, t, k);
      FromRankCons(e, t, k + 1);
    }
  }

  lemma InsertFront(e: ConfigEntry, f: seq<ConfigEntry>)
    requires forall x | x in f :: Rank(e.scope) <= Rank(x.scope)
    ensures InsertByRank(e, f) == [e] + f
  {
    if f != [] {
      assert f[0] in f;
    }
  }

  lemma FromOwnRank(e: ConfigEntry, t: seq<ConfigEntry>)
    ensures FromRank([e] + t, Rank(e.scope)) == [e] + FromRank(t, Rank(e.scope))
  {
    var k := Rank(e.scope);
    OfRankCons(e, t, k);
    FromRankCons(e, t, k + 1);
    assert FromRank([e] + t, k) == OfRank([e] + t, k) + FromRank([e] + t, k + 1);
    assert FromRank(t, k) == OfRank(t, k) + FromRank(t, k + 1);
  }

  /** At its own rank, `e` goes in front of the whole run of ranks from there up. */
  lemma InsertAtOwnRank(e: ConfigEntry, t: seq<ConfigEntry>)
    ensures InsertByRank(e, FromRank(t, Rank(e.scope))) == FromRank([e] + t, Rank(e.scope))
  {
    InsertFront(e, FromRank(t, Rank(e.scope)));
    FromOwnRank(e, t);
  }

  lemma FromLowerRank(e: ConfigEntry, t: seq<ConfigEntry>, k: int)
    requires k < Rank(e.scope)
    ensures FromRank([e] + t, k) == OfRank(t, k) + FromRank([e] + t, k + 1)
  {
    OfRankCons(e, t, k);
  }

  lemma InsertBelowOwnRank(e: ConfigEntry, t: seq<ConfigEntry>, k: int)
    requires k < Rank(e.scope)
    requires InsertByRank(e, FromRank(t, k + 1)) == FromRank([e] + t, k + 1)
    ensures InsertByRank(e, FromRank(t, k)) == FromRank([e] + t, k)
  {
    InsertSkip(e, OfRank(t, k), FromRank(t, k + 1));
    FromLowerRank(e, t, k);
  }

  /** Inserting `e` into the ranks from `k` up of `t` gives the ranks from `k` up of `[e] + t`. */
  lemma {:induction false} InsertIntoRanks(e: ConfigEntry, t: seq<ConfigEntry>, k: int)
    requires k <= Rank(e.scope)
    ensures InsertByRank(e, FromRank(t, k)) == FromRank([e] + t, k)
    decreases Rank(e.scope) - k
  {
    if k == Rank(e.scope) {
      InsertAtOwnRank(e, t);
    } else {
      InsertIntoRanks(e, t, k + 1);
      InsertBelowOwnRank(e, t, k);
    }
  }

  /** The insertion sort is the stable sort by rank: ties keep their input order. */
  lemma {:induction false} SortByRankIsStable(s: seq<ConfigEntry>)
    ensures SortByRank(s) == Buckets(s)
  {
    if s != [] {
      SortByRankIsStable(s[1..]);
      InsertIntoRanks(s[0], s[1..], -1);
      assert s == [s[0]] + s[1..];
    } else {
      assert FromRank(s, 2) == [] && FromRank(s, 1) == [] && FromRank(s, 0) == [];
    }
  }

  lemma {:induction false} OfRankMatchesEmpty(entries: seq<ConfigEntry>, key: string, k: int)
    ensures OfRank(Matches(entries, key), k) == [] <==>
      forall i | 0 <= i < |entries| :: !(entries[i].key == key && Rank(entries[i].scope) == k)
  {
    if entries != [] {
      OfRankMatchesEmpty(entries[1..], key, k);
      assert forall i | 1 <= i < |entries| :: entries[i] == entries[1..][i - 1];
    }
  }

  lemma {:induction false} OfRankMatchesHead(entries: seq<ConfigEntry>, key: string, k: int)
    requires OfRank(Matches(entries, key), k) != []
    ensures exists i | 0 <= i < |entries| ::
      && entries[i].key == key && Rank(entries[i].scope) == k
      && OfRank(Matches(entries, key), k)[0] == entries[i]
      && forall j | 0 <= j < i :: !(entries[j].key == key && Rank(entries[j].scope) == k)
  {
    if !(entries[0].key == key && Rank(entries[0].scope) == k) {
      assert OfRank(Matches(entries, key), k) == OfRank(Matches(entries[1..], key), k);
      OfRankMatchesHead(entries[1..], key, k);
      var i :| 0 <= i < |entries[1..]| && entries[1..][i].key == key && Rank(entries[1..][i].scope) == k
        && OfRank(Matches(entries[1..], key), k)[0] == entries[1..][i]
        && forall j | 0 <= j < i :: !(entries[1..][j].key == key && Rank(entries[1..][j].scope) == k);
      assert forall j | 1 <= j < i + 1 :: entries[j] == entries[1..][j - 1];
      assert entries[i + 1] == entries[1..][i];
    }
  }

  // ---------------------------------------------------------------- resolution

  /** Some entry after the head of the sorted matches, that is other than the primary, has scope `s`. */
  predicate HeldAfterFirst(sorted: seq<ConfigEntry>, s: Scope) {
    exists i | 1 <= i < |sorted| :: sorted[i].scope == s
  }

  /** The first of local, global, system that some entry other than the primary holds. */
  function OverriddenBy(sorted: seq<ConfigEntry>): Option<Scope> {
    if HeldAfterFirst(sorted, Local) then Some(Local)
    else if HeldAfterFirst(sorted, Global) then Some(Global)
    else if HeldAfterFirst(sorted, System) then Some(System)
    else None
  }

  /** `getEffectiveValue`: the winning entry for `key`, annotated with `overriddenBy`. */
  function EffectiveValue(entries: seq<ConfigEntry>, key: string): Option<ConfigEntry> {
    var sorted := SortByRank(Matches(entries, key));
    if sorted == [] then None
    else Some(sorted[0].(overriddenBy := OverriddenBy(sorted)))
  }

  /**
   * Entry `i` is the primary for `key`: it matches, no match has a lower rank,
   * and every earlier match has a higher rank.
   */
  ghost predicate IsPrimary(entries: seq<ConfigEntry>, key: string, i: int) {
    && 0 <= i < |entries| && entries[i].key == key
    && (forall j | 0 <= j < |entries| && entries[j].key == key :: Rank(entries[i].scope) <= Rank(entries[j].scope))
    && (forall j | 0 <= j < i && entries[j].key == key :: Rank(entries[i].scope) < Rank(entries[j].scope))
  }

  /** Some entry other than entry `i` has `key` and scope `s`. */
  ghost predicate HeldByRival(entries: seq<ConfigEntry>, key: string, i: int, s: Scope) {
    exists j | 0 <= j < |entries| && j != i :: entries[j].key == key && entries[j].scope == s
  }

  /** The reference rule: the first of local, global, system held by a rival of entry `i`. */
  ghost function NearestRival(entries: seq<ConfigEntry>, key: string, i: int): Option<Scope> {
    if HeldByRival(entries, key, i, Local) then Some(Local)
    else if HeldByRival(entries, key, i, Global) then Some(Global)
    else if HeldByRival(entries, key, i, System) then Some(System)
    else None
  }

  /** The result is absent exactly when no entry has that exact key. */
  lemma EffectiveAbsentIff(entries: seq<ConfigEntry>, key: string)
    ensures EffectiveValue(entries, key).None? <==> forall i | 0 <= i < |entries| :: entries[i].key != key
  {
    var m := Matches(entries, key);
    MatchesEmptyIff(entries, key);
    SortByRankPermutes(m);
    if m != [] {
      assert m[0] in multiset(SortByRank(m));
    }
  }

  /** The head of the stable sort is the earliest match of the lowest rank. */
  lemma SortHeadIsPrimary(entries: seq<ConfigEntry>, key: string)
    requires SortByRank(Matches(entries, key)) != []
    ensures exists i :: IsPrimary(entries, key, i) && SortByRank(Matches(entries, key))[0] == entries[i]
  {
    var m := Matches(entries, key);
    SortByRankIsStable(m);
    var k := if OfRank(m, -1) != [] then -1 else if OfRank(m, 0) != [] then 0
             else if OfRank(m, 1) != [] then 1 else 2;
    assert FromRank(m, 2) == OfRank(m, 2) + [];
    assert Buckets(m)[0] == OfRank(m, k)[0];
    OfRankMatchesHead(entries, key, k);
    forall k' | -1 <= k' < k {
      OfRankMatchesEmpty(entries, key, k');
    }
    var i :| 0 <= i < |entries| && entries[i].key == key && Rank(entries[i].scope) == k
      && OfRank(m, k)[0] == entries[i]
      && forall j | 0 <= j < i :: !(entries[j].key == key && Rank(entries[j].scope) == k);
    assert IsPrimary(entries, key, i);
  }

  /**
   * The effective entry keeps the key, value and scope of the primary entry:
   * the match of lowest rank, the earliest one among equals.
   */
  lemma EffectiveIsPrimary(entries: seq<ConfigEntry>, key: string)
    ensures EffectiveValue(entries, key).Some? ==>
      exists i :: IsPrimary(entries, key, i) &&
        EffectiveValue(entries, key).value == entries[i].(overriddenBy := EffectiveValue(entries, key).value.overriddenBy)
  {
    if SortByRank(Matches(entries, key)) != [] {
      SortHeadIsPrimary(entries, key);
    }
  }

  /** There is at most one primary position. */
  lemma PrimaryUnique(entries: seq<ConfigEntry>, key: string, i: int, j: int)
    requires IsPrimary(entries, key, i) && IsPrimary(entries, key, j)
    ensures i == j
  {
  }

  /** The matches other than entry `i`, in input order. */
  function OtherMatches(entries: seq<ConfigEntry>, key: string, i: int): seq<ConfigEntry>
    requires 0 <= i < |entries|
  {
    Matches(entries[..i], key) + Matches(entries[i + 1..], key)
  }

  lemma OtherMatchesRemoveOne(entries: seq<ConfigEntry>, key: string, i: int)
    requires 0 <= i < |entries| && entries[i].key == key
    ensures multiset(Matches(entries, key)) == multiset(OtherMatches(entries, key, i)) + multiset{entries[i]}
  {
    var before, after := entries[..i], entries[i + 1..];
    assert entries == before + [entries[i]] + after;
    MatchesAppend(before + [entries[i]], after, key);
    MatchesAppend(before, [entries[i]], key);
    assert Matches([entries[i]], key) == [entries[i]];
  }

  /** Some element of `ms` has scope `s`. */
  ghost predicate SomeHasScope(ms: multiset<ConfigEntry>, s: Scope) {
    exists e | e in ms :: e.scope == s
  }

  lemma RivalFromOtherMatch(entries: seq<ConfigEntry>, key: string, i: int, s: Scope)
    requires 0 <= i < |entries|
    requires SomeHasScope(multiset(OtherMatches(entries, key, i)), s)
    ensures HeldByRival(entries, key, i, s)
  {
    var before, after := entries[..i], entries[i + 1..];
    var e :| e in multiset(OtherMatches(entries, key, i)) && e.scope == s;
    assert e in Matches(before, key) || e in Matches(after, key);
    if e in Matches(before, key) {
      var j :| 0 <= j < |before| && before[j] == e;
      assert entries[j] == e;
    } else {
      var j :| 0 <= j < |after| && after[j] == e;
      assert entries[i + 1 + j] == e;
    }
  }

  lemma OtherMatchFromRival(entries: seq<ConfigEntry>, key: string, i: int, s: Scope)
    requires 0 <= i < |entries|
    requires HeldByRival(entries, key, i, s)
    ensures SomeHasScope(multiset(OtherMatches(entries, key, i)), s)
  {
    var before, after := entries[..i], entries[i + 1..];
    var j :| 0 <= j < |entries| && j != i && entries[j].key == key && entries[j].scope == s;
    var e := entries[j];
    if j < i {
      assert e == before[j];
      MatchesCount(before, key, e);
      assert e in Matches(before, key);
    } else {
      assert e == after[j - i - 1];
      MatchesCount(after, key, e);
      assert e in Matches(after, key);
    }
    assert e in multiset(OtherMatches(entries, key, i));
  }

  lemma TailMultiset(s: seq<ConfigEntry>)
    requires s != []
    ensures multiset(s[1..]) == multiset(s) - multiset{s[0]}
  {
    assert s == [s[0]] + s[1..];
  }

  lemma HeldAfterFirstIff(sorted: seq<ConfigEntry>, s: Scope)
    requires sorted != []
    ensures HeldAfterFirst(sorted, s) <==> SomeHasScope(multiset(sorted[1..]), s)
  {
    if HeldAfterFirst(sorted, s) {
      var t :| 1 <= t < |sorted| && sorted[t].scope == s;
      assert sorted[1..][t - 1] in multiset(sorted[1..]);
    }
    if SomeHasScope(multiset(sorted[1..]), s) {
      var e :| e in multiset(sorted[1..]) && e.scope == s;
      var t :| 0 <= t < |sorted[1..]| && sorted[1..][t] == e;
      assert sorted[t + 1].scope == s;
    }
  }

  /** Positions after the head of the sorted matches hold exactly the matches other than entry `i`. */
  lemma RivalInSorted(entries: seq<ConfigEntry>, key: string, i: int, s: Scope)
    requires 0 <= i < |entries| && entries[i].key == key
    requires SortByRank(Matches(entries, key)) != [] && SortByRank(Matches(entries, key))[0] == entries[i]
    ensures HeldAfterFirst(SortByRank(Matches(entries, key)), s) <==> HeldByRival(entries, key, i, s)
  {
    var sorted := SortByRank(Matches(entries, key));
    SortByRankPermutes(Matches(entries, key));
    OtherMatchesRemoveOne(entries, key, i);
    TailMultiset(sorted);
    assert multiset(sorted[1..]) == multiset(OtherMatches(entries, key, i));
    HeldAfterFirstIff(sorted, s);
    if HeldByRival(entries, key, i, s) {
      OtherMatchFromRival(entries, key, i, s);
    }
    if SomeHasScope(multiset(OtherMatches(entries, key, i)), s) {
      RivalFromOtherMatch(entries, key, i, s);
    }
  }

  /**
   * `overriddenBy` is the nearest competing tier: the first of local, global,
   * system (in that order) held by a matching entry other than the primary.
   * Whatever `overriddenBy` the primary carried is replaced.
   */
  lemma OverriddenByIsNearestRival(entries: seq<ConfigEntry>, key: string, i: int)
    requires IsPrimary(entries, key, i)
    ensures EffectiveValue(entries, key).Some?
    ensures EffectiveValue(entries, key).value.overriddenBy == NearestRival(entries, key, i)
  {
    EffectiveAbsentIff(entries, key);
    SortHeadIsPrimary(entries, key);
    var p :| IsPrimary(entries, key, p) && SortByRank(Matches(entries, key))[0] == entries[p];
    PrimaryUnique(entries, key, i, p);
    RivalInSorted(entries, key, i, Local);
    RivalInSorted(entries, key, i, Global);
    RivalInSorted(entries, key, i, System);
  }

  /** With a single matching entry there is nothing to override. */
  lemma SingleMatchNotOverridden(entries: seq<ConfigEntry>, key: string, i: int)
    requires 0 <= i < |entries| && entries[i].key == key
    requires forall j | 0 <= j < |entries| && j != i :: entries[j].key != key
    ensures EffectiveValue(entries, key) == Some(entries[i].(overriddenBy := None))
  {
    assert IsPrimary(entries, key, i);
    EffectiveIsPrimary(entries, key);
    OverriddenByIsNearestRival(entries, key, i);
  }

  /** Among matches with at most one entry per scope, the winner is the unique match of lowest rank. */
  lemma EffectiveWithDistinctScopes(entries: seq<ConfigEntry>, key: string)
    requires forall a, b | 0 <= a < b < |entries| && entries[a].key == key && entries[b].key == key ::
      entries[a].scope != entries[b].scope
    ensures EffectiveValue(entries, key).Some? ==>
      exists i | 0 <= i < |entries| && entries[i].key == key ::
        && EffectiveValue(entries, key).value == entries[i].(overriddenBy := EffectiveValue(entries, key).value.overriddenBy)
        && forall j | 0 <= j < |entries| && j != i && entries[j].key == key :: Rank(entries[i].scope) < Rank(entries[j].scope)
  {
    EffectiveIsPrimary(entries, key);
    if EffectiveValue(entries, key).Some? {
      var i :| IsPrimary(entries, key, i) &&
        EffectiveValue(entries, key).value == entries[i].(overriddenBy := EffectiveValue(entries, key).value.overriddenBy);
      forall j | 0 <= j < |entries| && j != i && entries[j].key == key
        ensures Rank(entries[i].scope) < Rank(entries[j].scope)
      {
        RankInjective(entries[i].scope, entries[j].scope);
      }
    }
  }

  /** `{local A, global B, system C}`, listed system first, yields A with `overriddenBy` global: the nearest tier. */
  lemma ThreeTiersReportNearest(key: string, a: string, b: string, c: string)
    ensures EffectiveValue([ConfigEntry(key, c, System, None), ConfigEntry(key, b, Global, None), ConfigEntry(key, a, Local, None)], key)
         == Some(ConfigEntry(key, a, Local, Some(Global)))
  {
    var entries := [ConfigEntry(key, c, System, None), ConfigEntry(key, b, Global, None), ConfigEntry(key, a, Local, None)];
    assert IsPrimary(entries, key, 2);
    EffectiveIsPrimary(entries, key);
    OverriddenByIsNearestRival(entries, key, 2);
    assert entries[1].key == key && entries[1].scope == Global;
  }

  /** `{local A, system C}` yields A with `overriddenBy` system. */
  lemma LocalOverSystem(key: string, a: string, c: string)
    ensures EffectiveValue([ConfigEntry(key, a, Local, None), ConfigEntry(key, c, System, None)], key)
         == Some(ConfigEntry(key, a, Local, Some(System)))
  {
    var entries := [ConfigEntry(key, a, Local, None), ConfigEntry(key, c, System, None)];
    assert IsPrimary(entries, key, 0);
    EffectiveIsPrimary(entries, key);
    OverriddenByIsNearestRival(entries, key, 0);
    assert entries[1].key == key && entries[1].scope == System;
  }

  /** A `merged` entry sorts first and is then reported as overridden by the local tier. */
  lemma MergedSortsFirst(key: string, a: string, m: string)
    ensures EffectiveValue([ConfigEntry(key, a, Local, None), ConfigEntry(key, m, Merged, None)], key)
         == Some(ConfigEntry(key, m, Merged, Some(Local)))
  {
    var entries := [ConfigEntry(key, a, Local, None), ConfigEntry(key, m, Merged, None)];
    assert IsPrimary(entries, key, 1);
    EffectiveIsPrimary(entries, key);
    OverriddenByIsNearestRival(entries, key, 1);
    assert entries[0].key == key && entries[0].scope == Local;
  }

  /** Two entries in the same tier: the earlier one wins and is reported as overridden by that tier. */
  lemma DuplicateTierKeepsInputOrder(key: string, a: string, b: string)
    ensures EffectiveValue([ConfigEntry(key, a, Global, None), ConfigEntry(key, b, Global, None)], key)
         == Some(ConfigEntry(key, a, Global, Some(Global)))
  {
    var entries := [ConfigEntry(key, a, Global, None), ConfigEntry(key, b, Global, None)];
    assert IsPrimary(entries, key, 0);
    EffectiveIsPrimary(entries, key);
    OverriddenByIsNearestRival(entries, key, 0);
    assert entries[1].key == key && entries[1].scope == Global;
  }

  // ---------------------------------------------------------------- the store

  /** No two entries share both key and scope. */
  predicate KeyScopeUnique(entries: seq<ConfigEntry>) {
    forall i, j | 0 <= i < j < |entries| ::
      entries[i].key != entries[j].key || entries[i].scope != entries[j].scope
  }

  /** The entry with the new value when its key and scope both match; any other entry unchanged. */
  function Edit(e: ConfigEntry, key: string, scope: Scope, value: string): ConfigEntry {
    if e.key == key && e.scope == scope then e.(value := value) else e
  }

  /** The `updateValue` map: the entries with this key and scope take the new value. */
  function WithValue(entries: seq<ConfigEntry>, key: string, scope: Scope, value: string): seq<ConfigEntry> {
    seq(|entries|, i requires 0 <= i < |entries| => Edit(entries[i], key, scope, value))
  }

  /** Length and order are kept; only the value of entries matching key and scope changes. */
  lemma WithValueFrame(entries: seq<ConfigEntry>, key: string, scope: Scope, value: string)
    ensures |WithValue(entries, key, scope, value)| == |entries|
    ensures forall i | 0 <= i < |entries| ::
      var e, e' := entries[i], WithValue(entries, key, scope, value)[i];
      && e'.key == e.key && e'.scope == e.scope && e'.overriddenBy == e.overriddenBy
      && e'.value == (if e.key == key && e.scope == scope then value else e.value)
  {
  }

  /** Nothing matches: nothing changes, and no entry is created. */
  lemma WithValueNoMatch(entries: seq<ConfigEntry>, key: string, scope: Scope, value: string)
    requires forall i | 0 <= i < |entries| :: entries[i].key != key || entries[i].scope != scope
    ensures WithValue(entries, key, scope, value) == entries
  {
  }

  lemma WithValueKeepsUnique(entries: seq<ConfigEntry>, key: string, scope: Scope, value: string)
    requires KeyScopeUnique(entries)
    ensures KeyScopeUnique(WithValue(entries, key, scope, value))
  {
  }

  lemma WithValueCons(e: ConfigEntry, t: seq<ConfigEntry>, key: string, scope: Scope, value: string)
    ensures WithValue([e] + t, key, scope, value) == [Edit(e, key, scope, value)] + WithValue(t, key, scope, value)
  {
  }

  lemma {:induction false} MatchesAfterEdit(entries: seq<ConfigEntry>, k: string, key: string, scope: Scope, value: string)
    ensures Matches(WithValue(entries, key, scope, value), k) == WithValue(Matches(entries, k), key, scope, value)
  {
    if entries != [] {
      assert entries == [entries[0]] + entries[1..];
      WithValueCons(entries[0], entries[1..], key, scope, value);
      MatchesAfterEdit(entries[1..], k, key, scope, value);
      if entries[0].key == k {
        WithValueCons(entries[0], Matches(entries[1..], k), key, scope, value);
      }
    }
  }

  lemma {:induction false} InsertAfterEdit(e: ConfigEntry, s: seq<ConfigEntry>, key: string, scope: Scope, value: string)
    ensures InsertByRank(Edit(e, key, scope, value), WithValue(s, key, scope, value))
         == WithValue(InsertByRank(e, s), key, scope, value)
  {
    if s != [] {
      assert s == [s[0]] + s[1..];
      WithValueCons(s[0], s[1..], key, scope, value);
      if Rank(e.scope) <= Rank(s[0].scope) {
        WithValueCons(e, s, key, scope, value);
      } else {
        InsertAfterEdit(e, s[1..], key, scope, value);
        WithValueCons(s[0], InsertByRank(e, s[1..]), key, scope, value);
      }
    } else {
      WithValueCons(e, [], key, scope, value);
    }
  }

  /** Editing values commutes with the sort, which looks only at scopes. */
  lemma {:induction false} SortAfterEdit(s: seq<ConfigEntry>, key: string, scope: Scope, value: string)
    ensures SortByRank(WithValue(s, key, scope, value)) == WithValue(SortByRank(s), key, scope, value)
  {
    if s != [] {
      assert s == [s[0]] + s[1..];
      WithValueCons(s[0], s[1..], key, scope, value);
      SortAfterEdit(s[1..], key, scope, value);
      InsertAfterEdit(s[0], SortByRank(s[1..]), key, scope, value);
    }
  }

  /**
   * `updateValue` never changes which tier wins a key or what it reports as
   * overriding; the winner takes the new value exactly when it is the edited
   * key and scope.
   */
  lemma EditKeepsResolution(entries: seq<ConfigEntry>, k: string, key: string, scope: Scope, value: string)
    ensures EffectiveValue(WithValue(entries, key, scope, value), k).None? <==> EffectiveValue(entries, k).None?
    ensures EffectiveValue(entries, k).Some? ==>
      var before, after := EffectiveValue(entries, k).value, EffectiveValue(WithValue(entries, key, scope, value), k).value;
      && after.key == before.key && after.scope == before.scope && after.overriddenBy == before.overriddenBy
      && after.value == (if k == key && before.scope == scope then value else before.value)
  {
    var m := Matches(entries, k);
    MatchesAfterEdit(entries, k, key, scope, value);
    SortAfterEdit(m, key, scope, value);
    var sorted := SortByRank(m);
    OverriddenByAfterEdit(sorted, key, scope, value);
    if sorted != [] {
      SortedHeadMatches(entries, k);
    }
  }

  lemma OverriddenByAfterEdit(sorted: seq<ConfigEntry>, key: string, scope: Scope, value: string)
    ensures OverriddenBy(WithValue(sorted, key, scope, value)) == OverriddenBy(sorted)
  {
    var sorted' := WithValue(sorted, key, scope, value);
    forall s: Scope ensures HeldAfterFirst(sorted', s) <==> HeldAfterFirst(sorted, s) {
      if HeldAfterFirst(sorted, s) {
        var i :| 1 <= i < |sorted| && sorted[i].scope == s;
        assert sorted'[i].scope == s;
      }
    }
  }

  lemma SortedHeadMatches(entries: seq<ConfigEntry>, k: string)
    requires SortByRank(Matches(entries, k)) != []
    ensures SortByRank(Matches(entries, k))[0].key == k
  {
    var m := Matches(entries, k);
    SortByRankPermutes(m);
    assert SortByRank(m)[0] in multiset(m);
  }

  /** The scope of the `i`-th seed entry: local, global, system in turn. */
  function SeedScope(i: nat): Scope {
    if i % 3 == 0 then Local else if i % 3 == 1 then Global else System
  }

  /** One entry per schema item; booleans are "false", the others "value-" and the 1-based index. */
  function SeedEntries(schema: seq<ConfigSchema.ConfigMeta>): seq<ConfigEntry> {
    seq(|schema|, i requires 0 <= i < |schema| =>
      ConfigEntry(schema[i].key,
        if schema[i].configType == ConfigSchema.BooleanType then "false" else "value-" + NatToString(i + 1),
        SeedScope(i), None))
  }

  /**
   * One seed entry per schema item, in schema order, cycling through local,
   * global and system; booleans read "false" and every other item reads
   * "value-" followed by its 1-based position.
   */
  lemma SeedEntriesShape(schema: seq<ConfigSchema.ConfigMeta>, i: nat)
    requires i < |schema|
    ensures |SeedEntries(schema)| == |schema|
    ensures var e := SeedEntries(schema)[i];
      && e.key == schema[i].key && e.overriddenBy.None?
      && e.scope == [Local, Global, System][i % 3]
      && (schema[i].configType == ConfigSchema.BooleanType ==> e.value == "false")
      && (schema[i].configType != ConfigSchema.BooleanType ==>
            |e.value| > 6 && e.value[..6] == "value-" && AllDigits(e.value[6..]) && DecimalValue(e.value[6..]) == i + 1)
  {
    var e := SeedEntries(schema)[i];
    if schema[i].configType != ConfigSchema.BooleanType {
      assert e.value[6..] == NatToString(i + 1);
      DecimalRoundTrip(i + 1);
    }
  }

  /** Seed entries inherit unique keys from the schema, never use `merged`, and their placeholder values differ. */
  lemma SeedEntriesWellFormed(schema: seq<ConfigSchema.ConfigMeta>)
    requires ConfigSchema.KeysDistinct(schema)
    ensures KeyScopeUnique(SeedEntries(schema))
    ensures forall e | e in SeedEntries(schema) :: e.scope != Merged
    ensures forall i, j | 0 <= i < j < |schema| &&
      schema[i].configType != ConfigSchema.BooleanType && schema[j].configType != ConfigSchema.BooleanType ::
        SeedEntries(schema)[i].value != SeedEntries(schema)[j].value
  {
    var seed := SeedEntries(schema);
    forall i, j | 0 <= i < j < |schema| &&
      schema[i].configType != ConfigSchema.BooleanType && schema[j].configType != ConfigSchema.BooleanType
      ensures seed[i].value != seed[j].value
    {
      NatToStringInjective(i + 1, j + 1);
      assert seed[i].value[6..] == NatToString(i + 1);
      assert seed[j].value[6..] == NatToString(j + 1);
    }
  }

  /** The editor's entry store: the active scope, the working entries and the search text. */
  class Store {
    var scope: Scope
    var entries: seq<ConfigEntry>
    var search: string

    /** The initial state: the `merged` view, the seed entries, no search text. */
    constructor ()
      ensures scope == Merged && entries == SeedEntries(ConfigSchema.Schema) && search == ""
    {
      scope := Merged;
      entries := SeedEntries(ConfigSchema.Schema);
      search := "";
    }

    method SetScope(s: Scope)
      modifies this
      ensures scope == s && entries == old(entries) && search == old(search)
    {
      scope := s;
    }

    /** Wholesale replacement; nothing is validated or dropped. */
    method SetEntries(es: seq<ConfigEntry>)
      modifies this
      ensures entries == es && scope == old(scope) && search == old(search)
    {
      entries := es;
    }

    method SetSearch(text: string)
      modifies this
      ensures search == text && scope == old(scope) && entries == old(entries)
    {
      search := text;
    }

    method UpdateValue(key: string, s: Scope, value: string)
      modifies this
      ensures entries == WithValue(old(entries), key, s, value)
      ensures scope == old(scope) && search == old(search)
    {
      entries := WithValue(entries, key, s, value);
    }
  }
}
