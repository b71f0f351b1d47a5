/**
 * The native side's merged view. The System, Global and Local configuration
 * files are read in that order and folded into one list: for every key the
 * last entry read wins, and each displaced winner is kept in a history,
 * tagged with the scope of the entry that displaced it.
 */
module GitConfig {
  import opened Wrappers

  /** Serialised in lower case (`local`, `global`, `system`). */
  datatype Scope = Local | Global | System

  datatype ConfigEntry = ConfigEntry(key: string, value: string, scope: Scope, overriddenBy: Option<Scope>)

  /** One entry as the configuration library yields it; name or value may be unavailable. */
  datatype RawEntry = RawEntry(name: Option<string>, raw: Option<string>)

  function Label(s: Scope): string {
    match s
    case Local => "Local"
    case Global => "Global"
    case System => "System"
  }

  /** The serialised name, from the lower-case renaming rule. */
  function SerialName(s: Scope): string {
    match s
    case Local => "local"
    case Global => "global"
    case System => "system"
  }

  function Variants(): seq<Scope> {
    [Local, Global, System]
  }

  /** The order in which the merged view reads the scopes: the lowest precedence first. */
  function Priority(): seq<Scope> {
    [System, Global, Local]
  }

  /** Position of a scope in the fold order. */
  function FoldPos(s: Scope): nat {
    match s
    case System => 0
    case Global => 1
    case Local => 2
  }

  /** The label is the serialised name with its first letter in upper case. */
  lemma LabelIsCapitalisedName(s: Scope)
    ensures |Label(s)| == |SerialName(s)| > 0
    ensures Label(s)[1..] == SerialName(s)[1..]
    ensures 'a' <= SerialName(s)[0] <= 'z'
    ensures Label(s)[0] as int == SerialName(s)[0] as int - 32
  {
  }

  /** Every scope is listed exactly once; the fold visits them in the reverse of that listing. */
  lemma VariantsListEveryScopeOnce(s: Scope)
    ensures multiset(Variants())[s] == 1
    ensures |Priority()| == |Variants()| == 3
    ensures forall i | 0 <= i < 3 :: Priority()[i] == Variants()[2 - i] && FoldPos(Priority()[i]) == i
  {
  }

  /**
   * `read_scope_entries` after the file has been opened: entries whose name
   * or value is unavailable are skipped, the others are tagged with the
   * scope and carry no `overriddenBy`.
   */
  function ReadEntries(scope: Scope, raws: seq<RawEntry>): (r: seq<ConfigEntry>)
    ensures |r| <= |raws|
    ensures forall e | e in r :: e.scope == scope && e.overriddenBy.None?
  {
    if raws == [] then []
    else
      var last := raws[|raws| - 1];
      ReadEntries(scope, raws[..|raws| - 1])
      + if last.name.Some? && last.raw.Some? then [ConfigEntry(last.name.value, last.raw.value, scope, None)] else []
  }

  /** When every raw entry is available, each one is read, in order, with its name and value. */
  lemma {:induction false} ReadEntriesComplete(scope: Scope, raws: seq<RawEntry>)
    requires forall x | x in raws :: x.name.Some? && x.raw.Some?
    ensures |ReadEntries(scope, raws)| == |raws|
    ensures forall i | 0 <= i < |raws| ::
      ReadEntries(scope, raws)[i] == ConfigEntry(raws[i].name.value, raws[i].raw.value, scope, None)
  {
    if raws != [] {
      var p, x := raws[..|raws| - 1], raws[|raws| - 1];
      assert forall y | y in p :: y in raws;
      ReadEntriesComplete(scope, p);
      assert ReadEntries(scope, raws) == ReadEntries(scope, p) + [ConfigEntry(x.name.value, x.raw.value, scope, None)];
    }
  }

  /** The concatenation the fold walks through. */
  function FoldInput(system: seq<RawEntry>, global: seq<RawEntry>, local: seq<RawEntry>): seq<ConfigEntry> {
    ReadEntries(System, system) + ReadEntries(Global, global) + ReadEntries(Local, local)
  }

  // ---------------------------------------------------------------- reference definitions

  /** The keys that occur in `s`. */
  function KeySet(s: seq<ConfigEntry>): set<string> {
    set e | e in s :: e.key
  }

  /** The last entry of `s` with key `k`. */
  function LastWith(s: seq<ConfigEntry>, k: string): (r: ConfigEntry)
    requires k in KeySet(s)
    ensures r in s && r.key == k
  {
    var p := s[..|s| - 1];
    if s[|s| - 1].key == k then s[|s| - 1]
    else
      assert k in KeySet(p) by {
        var e :| e in s && e.key == k;
        var i :| 0 <= i < |s| && s[i] == e;
        assert p[i] == e;
      }
      LastWith(p, k)
  }

  /**
   * The displaced entries in displacement order: an entry whose key was
   * already seen displaces the last earlier entry with that key, which is
   * recorded with the displacing entry's scope as `overriddenBy`.
   */
  function History(s: seq<ConfigEntry>): seq<ConfigEntry> {
    if s == [] then []
    else
      var p, e := s[..|s| - 1], s[|s| - 1];
      History(p) + if e.key in KeySet(p) then [LastWith(p, e.key).(overriddenBy := Some(e.scope))] else []
  }

  /** The winning entry of every key. */
  function Winners(s: seq<ConfigEntry>): map<string, ConfigEntry> {
    map k | k in KeySet(s) :: LastWith(s, k)
  }

  /** Number of entries of `s` with key `k`. */
  function CountKey(s: seq<ConfigEntry>, k: string): nat {
    if s == [] then 0
    else CountKey(s[..|s| - 1], k) + if s[|s| - 1].key == k then 1 else 0
  }

  // ---------------------------------------------------------------- facts about the reference definitions

  lemma KeySetSnoc(p: seq<ConfigEntry>, e: ConfigEntry)
    ensures (p + [e])[..|p|] == p && (p + [e])[|p|] == e
    ensures KeySet(p + [e]) == KeySet(p) + {e.key}
  {
    assert forall x | x in p + [e] :: x in p || x == e;
  }

  /** One step of the fold: how appending an entry changes the winners and the history. */
  lemma FoldStep(p: seq<ConfigEntry>, e: ConfigEntry)
    ensures Winners(p + [e]) == Winners(p)[e.key := e]
    ensures History(p + [e]) == History(p) +
      if e.key in KeySet(p) then [Winners(p)[e.key].(overriddenBy := Some(e.scope))] else []
  {
    KeySetSnoc(p, e);
    var s := p + [e];
    forall k | k in KeySet(s)
      ensures LastWith(s, k) == if k == e.key then e else LastWith(p, k)
    {
    }
  }

  /** Every entry read ends up once, either in the history or among the winners. */
  lemma {:induction false} HistoryLength(s: seq<ConfigEntry>)
    ensures |History(s)| + |KeySet(s)| == |s|
  {
    if s != [] {
      var p, e := s[..|s| - 1], s[|s| - 1];
      assert s == p + [e];
      KeySetSnoc(p, e);
      HistoryLength(p);
      if e.key !in KeySet(p) {
        assert |KeySet(p) + {e.key}| == |KeySet(p)| + 1;
      } else {
        assert KeySet(p) + {e.key} == KeySet(p);
      }
    }
  }

  /** The winner of a key is the last entry read with that key: no later entry has it. */
  lemma {:induction false} LastWithIsLast(s: seq<ConfigEntry>, k: string)
    requires k in KeySet(s)
    ensures exists i | 0 <= i < |s| :: s[i] == LastWith(s, k) && forall j | i < j < |s| :: s[j].key != k
  {
    var p := s[..|s| - 1];
    if s[|s| - 1].key == k {
      assert s[|s| - 1] == LastWith(s, k);
    } else {
      LastWithIsLast(p, k);
      var i :| 0 <= i < |p| && p[i] == LastWith(p, k) && forall j | i < j < |p| :: p[j].key != k;
      assert s[i] == LastWith(s, k);
      assert forall j | i < j < |s| :: s[j].key != k by {
        forall j | i < j < |s| ensures s[j].key != k {
          if j < |p| { assert s[j] == p[j]; }
        }
      }
    }
  }

  /** A later block decides every key it holds; an earlier block decides only the keys the later one lacks. */
  lemma {:induction false} LastWithAppend(a: seq<ConfigEntry>, b: seq<ConfigEntry>, k: string)
    requires k in KeySet(a) || k in KeySet(b)
    ensures k in KeySet(a + b)
    ensures k in KeySet(b) ==> LastWith(a + b, k) == LastWith(b, k)
    ensures k !in KeySet(b) ==> LastWith(a + b, k) == LastWith(a, k)
  {
    assert forall x | x in a || x in b :: x in a + b;
    if b == [] {
      assert a + b == a;
    } else {
      var q := b[..|b| - 1];
      assert (a + b)[..|a + b| - 1] == a + q;
      assert (a + b)[|a + b| - 1] == b[|b| - 1];
      if b[|b| - 1].key != k {
        KeySetSnoc(q, b[|b| - 1]);
        assert b == q + [b[|b| - 1]];
        LastWithAppend(a, q, k);
      }
    }
  }

  /** Local beats Global beats System: the winner comes from the highest-precedence scope holding the key. */
  lemma WinnerPrecedence(system: seq<RawEntry>, global: seq<RawEntry>, local: seq<RawEntry>, k: string)
    requires k in KeySet(FoldInput(system, global, local))
    ensures var w := Winners(FoldInput(system, global, local))[k];
      && w.key == k && w.overriddenBy.None?
      && (w.scope == Local <==> k in KeySet(ReadEntries(Local, local)))
      && (w.scope == Global <==> k !in KeySet(ReadEntries(Local, local)) && k in KeySet(ReadEntries(Global, global)))
      && (w.scope == System <==> k !in KeySet(ReadEntries(Local, local)) && k !in KeySet(ReadEntries(Global, global)))
  {
    var s, g, l := ReadEntries(System, system), ReadEntries(Global, global), ReadEntries(Local, local);
    assert FoldInput(system, global, local) == (s + g) + l;
    assert forall x | x in s + g :: x in s || x in g;
    assert forall x | x in (s + g) + l :: x in s + g || x in l;
    if k in KeySet(l) {
      LastWithAppend(s + g, l, k);
    } else {
      LastWithAppend(s + g, l, k);
      LastWithAppend(s, g, k);
    }
  }

  /** The history holds one entry for every occurrence of a key after its first. */
  lemma {:induction false} HistoryCountKey(s: seq<ConfigEntry>, k: string)
    ensures k in KeySet(s) <==> CountKey(s, k) > 0
    ensures CountKey(History(s), k) == if k in KeySet(s) then CountKey(s, k) - 1 else 0
  {
    if s != [] {
      var p, e := s[..|s| - 1], s[|s| - 1];
      assert s == p + [e];
      KeySetSnoc(p, e);
      HistoryCountKey(p, k);
      var tail := if e.key in KeySet(p) then [LastWith(p, e.key).(overriddenBy := Some(e.scope))] else [];
      CountKeyAppend(History(p), tail, k);
    }
  }

  lemma {:induction false} CountKeyAppend(a: seq<ConfigEntry>, b: seq<ConfigEntry>, k: string)
    ensures CountKey(a + b, k) == CountKey(a, k) + CountKey(b, k)
  {
    if b == [] {
      assert a + b == a;
    } else {
      var q := b[..|b| - 1];
      assert (a + b)[..|a + b| - 1] == a + q;
      CountKeyAppend(a, q, k);
    }
  }

  /** Every history entry is an earlier entry with `overriddenBy` set to the scope of a later entry with the same key. */
  lemma {:induction false} HistoryEntriesDisplaced(s: seq<ConfigEntry>)
    ensures forall h | h in History(s) ::
      exists i, j | 0 <= i < j < |s| :: s[i].key == s[j].key && h == s[i].(overriddenBy := Some(s[j].scope))
  {
    if s != [] {
      var p, e := s[..|s| - 1], s[|s| - 1];
      HistoryEntriesDisplaced(p);
      forall h | h in History(s)
        ensures exists i, j | 0 <= i < j < |s| :: s[i].key == s[j].key && h == s[i].(overriddenBy := Some(s[j].scope))
      {
        if h in History(p) {
          var i, j :| 0 <= i < j < |p| && p[i].key == p[j].key && h == p[i].(overriddenBy := Some(p[j].scope));
          assert s[i] == p[i] && s[j] == p[j];
        } else {
          LastWithIsLast(p, e.key);
          var i :| 0 <= i < |p| && p[i] == LastWith(p, e.key) && forall j | i < j < |p| :: p[j].key != e.key;
          assert s[i] == p[i] && s[|p|] == e;
        }
      }
    }
  }

  /** In the fold input, entries of a lower-precedence scope all come before those of a higher one. */
  lemma FoldInputOrdered(system: seq<RawEntry>, global: seq<RawEntry>, local: seq<RawEntry>)
    ensures var s := FoldInput(system, global, local);
      forall i, j | 0 <= i < j < |s| :: FoldPos(s[i].scope) <= FoldPos(s[j].scope)
  {
    var s, g, l := ReadEntries(System, system), ReadEntries(Global, global), ReadEntries(Local, local);
    var all := s + g + l;
    forall i | 0 <= i < |all|
      ensures FoldPos(all[i].scope) == if i < |s| then 0 else if i < |s| + |g| then 1 else 2
    {
      if i < |s| { assert all[i] == s[i]; }
      else if i < |s| + |g| { assert all[i] == g[i - |s|]; }
      else { assert all[i] == l[i - |s| - |g|]; }
    }
  }

  /** A displaced entry is displaced by its own scope or by one of higher precedence, never lower. */
  lemma HistoryDisplacedUpward(system: seq<RawEntry>, global: seq<RawEntry>, local: seq<RawEntry>)
    ensures forall h | h in History(FoldInput(system, global, local)) ::
      h.overriddenBy.Some? && FoldPos(h.scope) <= FoldPos(h.overriddenBy.value)
  {
    var s := FoldInput(system, global, local);
    HistoryEntriesDisplaced(s);
    FoldInputOrdered(system, global, local);
  }

  /** A key repeated within one file is recorded as overridden by that same scope. */
  lemma DuplicateWithinScope()
    ensures var s := FoldInput([], [RawEntry(Some("user.name"), Some("a")), RawEntry(Some("user.name"), Some("b"))], []);
      && History(s) == [ConfigEntry("user.name", "a", Global, Some(Global))]
      && Winners(s) == map["user.name" := ConfigEntry("user.name", "b", Global, None)]
  {
    var raws := [RawEntry(Some("user.name"), Some("a")), RawEntry(Some("user.name"), Some("b"))];
    var a := ConfigEntry("user.name", "a", Global, None);
    var b := ConfigEntry("user.name", "b", Global, None);
    assert FoldInput([], raws, []) == [a] + [b] by {
      assert raws[..1] == [raws[0]];
      assert [raws[0]][..0] == [];
      assert ReadEntries(Global, raws) == [a, b];
    }
    TwoEntriesSameKey(a, b);
  }

  lemma TwoEntriesSameKey(a: ConfigEntry, b: ConfigEntry)
    requires a.key == b.key
    ensures History([a] + [b]) == [a.(overriddenBy := Some(b.scope))]
    ensures Winners([a] + [b]) == map[a.key := b]
  {
    KeySetSnoc([], a);
    FoldStep([], a);
    assert [] + [a] == [a];
    KeySetSnoc([a], b);
    FoldStep([a], b);
  }

  // ---------------------------------------------------------------- the fold

  /**
   * `merged_view`: reads System, Global and Local (a scope that cannot be
   * read is `None` and fails the whole view), folds the entries, and
   * returns the history followed by one winner per key, in an order left
   * open (the hash map's iteration order).
   */
  method MergedView(system: Option<seq<RawEntry>>, global: Option<seq<RawEntry>>, local: Option<seq<RawEntry>>)
    returns (r: Option<seq<ConfigEntry>>)
    ensures r.None? <==> system.None? || global.None? || local.None?
    ensures r.Some? ==>
      var all := FoldInput(system.value, global.value, local.value);
      var h := History(all);
      && |r.value| == |h| + |KeySet(all)| == |all|
      && r.value[..|h|] == h
      && ListsEachValueOnce(r.value[|h|..], Winners(all))
  {
    var priority := Priority();
    var effective: map<string, ConfigEntry> := map[];
    var history: seq<ConfigEntry> := [];
    ghost var seen: seq<ConfigEntry> := [];
    for n := 0 to |priority|
      invariant ReadableSoFar(n, system, global, local)
      invariant seen == ReadSoFar(n, system, global, local)
      invariant effective == Winners(seen)
      invariant history == History(seen)
    {
      var scope := priority[n];
      var read := Read(scope, system, global, local);
      if read.None? {
        return None;
      }
      var entries := ReadEntries(scope, read.value);
      effective, history := Absorb(effective, history, entries, seen);
      ReadSoFarNext(n, system, global, local);
      seen := seen + entries;
    }
    var winners := IntoValues(effective);
    r := Some(history + winners);
    MergedViewResult(seen, history, winners);
  }

  /** The outcome of reading one scope. */
  function Read(scope: Scope, system: Option<seq<RawEntry>>, global: Option<seq<RawEntry>>, local: Option<seq<RawEntry>>): Option<seq<RawEntry>> {
    match scope
    case System => system
    case Global => global
    case Local => local
  }

  /** Whether the first `n` scopes of the fold order could be read. */
  predicate ReadableSoFar(n: nat, system: Option<seq<RawEntry>>, global: Option<seq<RawEntry>>, local: Option<seq<RawEntry>>) {
    (n >= 1 ==> system.Some?) && (n >= 2 ==> global.Some?) && (n >= 3 ==> local.Some?)
  }

  /** The entries of the first `n` scopes of the fold order. */
  ghost function ReadSoFar(n: nat, system: Option<seq<RawEntry>>, global: Option<seq<RawEntry>>, local: Option<seq<RawEntry>>): seq<ConfigEntry>
    requires n <= 3 && ReadableSoFar(n, system, global, local)
  {
    if n == 0 then []
    else if n == 1 then ReadEntries(System, system.value)
    else if n == 2 then ReadEntries(System, system.value) + ReadEntries(Global, global.value)
    else FoldInput(system.value, global.value, local.value)
  }

  lemma ReadSoFarNext(n: nat, system: Option<seq<RawEntry>>, global: Option<seq<RawEntry>>, local: Option<seq<RawEntry>>)
    requires n < 3 && ReadableSoFar(n, system, global, local)
    requires Read(Priority()[n], system, global, local).Some?
    ensures ReadableSoFar(n + 1, system, global, local)
    ensures ReadSoFar(n + 1, system, global, local) ==
      ReadSoFar(n, system, global, local) + ReadEntries(Priority()[n], Read(Priority()[n], system, global, local).value)
  {
    if n == 0 {
      assert ReadSoFar(1, system, global, local) == [] + ReadEntries(System, system.value);
    }
  }

  /** The history followed by the winners: sizes and the two halves. */
  lemma MergedViewResult(all: seq<ConfigEntry>, history: seq<ConfigEntry>, winners: seq<ConfigEntry>)
    requires history == History(all)
    requires |winners| == |Winners(all)|
    ensures |history + winners| == |history| + |KeySet(all)| == |all|
    ensures (history + winners)[..|history|] == history
    ensures (history + winners)[|history|..] == winners
  {
    HistoryLength(all);
    assert Winners(all).Keys == KeySet(all);
  }

  /** The inner loop of the fold: every entry of one scope either displaces the current winner of its key or becomes the first. */
  method Absorb(effective0: map<string, ConfigEntry>, history0: seq<ConfigEntry>, entries: seq<ConfigEntry>, ghost seen: seq<ConfigEntry>)
    returns (effective: map<string, ConfigEntry>, history: seq<ConfigEntry>)
    requires effective0 == Winners(seen) && history0 == History(seen)
    ensures effective == Winners(seen + entries) && history == History(seen + entries)
  {
    effective, history := effective0, history0;
    assert seen + entries[..0] == seen;
    for j := 0 to |entries|
      invariant effective == Winners(seen + entries[..j])
      invariant history == History(seen + entries[..j])
    {
      var entry := entries[j];
      AbsorbStep(effective, history, seen, entries, j);
      if entry.key in effective {
        var prev := effective[entry.key];
        history := history + [prev.(overriddenBy := Some(entry.scope))];
        effective := effective[entry.key := entry];
      } else {
        effective := effective[entry.key := entry];
      }
    }
    assert entries[..|entries|] == entries;
  }

  /** `w` lists every value of `m` exactly once and nothing else, in any order. */
  ghost predicate ListsEachValueOnce(w: seq<ConfigEntry>, m: map<string, ConfigEntry>) {
    && (forall e | e in w :: e.key in m && e == m[e.key])
    && (forall k | k in m :: m[k] in w)
    && (forall i, j | 0 <= i < j < |w| :: w[i].key != w[j].key)
  }

  /** The keys of a hash map in its iteration order, which the model leaves open. */
  method KeysInSomeOrder<K>(keys: set<K>) returns (ks: seq<K>)
    ensures |ks| == |keys|
    ensures forall k :: k in ks <==> k in keys
    ensures forall i, j | 0 <= i < j < |ks| :: ks[i] != ks[j]
  {
    ks := [];
    var rest := keys;
    while rest != {}
      invariant rest <= keys
      invariant |ks| + |rest| == |keys|
      invariant forall k :: k in ks <==> k in keys && k !in rest
      invariant forall i, j | 0 <= i < j < |ks| :: ks[i] != ks[j]
      decreases rest
    {
      var k :| k in rest;
      ks := ks + [k];
      rest := rest - {k};
    }
  }

  lemma AbsorbStep(effective: map<string, ConfigEntry>, history: seq<ConfigEntry>, seen: seq<ConfigEntry>, entries: seq<ConfigEntry>, j: nat)
    requires j < |entries|
    requires effective == Winners(seen + entries[..j]) && history == History(seen + entries[..j])
    ensures var e := entries[j];
      && (e.key in effective ==>
            && effective[e.key := e] == Winners(seen + entries[..j + 1])
            && history + [effective[e.key].(overriddenBy := Some(e.scope))] == History(seen + entries[..j + 1]))
      && (e.key !in effective ==>
            && effective[e.key := e] == Winners(seen + entries[..j + 1])
            && history == History(seen + entries[..j + 1]))
  {
    var before := seen + entries[..j];
    assert seen + entries[..j + 1] == before + [entries[j]];
    FoldStep(before, entries[j]);
  }

  /** `into_values` of a map from each key to an entry with that key: every value once, in some order. */
  method IntoValues(m: map<string, ConfigEntry>) returns (w: seq<ConfigEntry>)
    requires forall k | k in m :: m[k].key == k
    ensures |w| == |m|
    ensures ListsEachValueOnce(w, m)
  {
    var ks := KeysInSomeOrder(m.Keys);
    w := seq(|ks|, i requires 0 <= i < |ks| => m[ks[i]]);
    assert forall i | 0 <= i < |w| :: w[i] == m[ks[i]] && w[i].key == ks[i];
    forall k | k in m ensures m[k] in w {
      var i :| 0 <= i < |ks| && ks[i] == k;
      assert w[i] == m[k];
    }
  }
}
