/**
 * The cross-scope comparison panel: which schema keys are listed, which
 * value each of `local`, `global` and `system` shows for a key, and when the
 * key is flagged as a conflict.
 */
module DiffSummary {
  import opened Wrappers
  import opened Seqs
  import ConfigSchema
  import opened ConfigStore

  /** Some entry has the key and a non-empty value. */
  predicate HasValue(entries: seq<ConfigEntry>, key: string) {
    exists i | 0 <= i < |entries| :: entries[i].key == key && entries[i].value != ""
  }

  /** `changedKeys`: the schema items some entry gives a non-empty value, in schema order. */
  function ChangedKeys(schema: seq<ConfigSchema.ConfigMeta>, entries: seq<ConfigEntry>): seq<ConfigSchema.ConfigMeta> {
    Filter((m: ConfigSchema.ConfigMeta) => HasValue(entries, m.key), schema)
  }

  /** The value of the first entry with this key and scope, or nothing when there is none. */
  function ScopeValue(entries: seq<ConfigEntry>, key: string, scope: Scope): Option<string> {
    if entries == [] then None
    else if entries[0].key == key && entries[0].scope == scope then Some(entries[0].value)
    else ScopeValue(entries[1..], key, scope)
  }

  /** The truthy values among local, global and system, in that order. */
  function PresentValues(entries: seq<ConfigEntry>, key: string): seq<Option<string>> {
    Filter((v: Option<string>) => v.Some? && v.value != "",
      [ScopeValue(entries, key, Local), ScopeValue(entries, key, Global), ScopeValue(entries, key, System)])
  }

  /** More than one distinct value remains among the compared values. */
  predicate HasConflict(entries: seq<ConfigEntry>, key: string) {
    |set v | v in PresentValues(entries, key) :: v.value| > 1
  }

  // ---------------------------------------------------------------- properties

  /** A schema item is listed exactly when some entry gives its key a non-empty value; the listing keeps schema order. */
  lemma ChangedKeysListing(schema: seq<ConfigSchema.ConfigMeta>, entries: seq<ConfigEntry>, m: ConfigSchema.ConfigMeta)
    ensures m in ChangedKeys(schema, entries) <==> m in schema && HasValue(entries, m.key)
    ensures forall a, b :: ChangedKeys(a + b, entries) == ChangedKeys(a, entries) + ChangedKeys(b, entries)
  {
    FilterMembership((m: ConfigSchema.ConfigMeta) => HasValue(entries, m.key), schema, m);
    forall a, b ensures ChangedKeys(a + b, entries) == ChangedKeys(a, entries) + ChangedKeys(b, entries) {
      FilterAppend((m: ConfigSchema.ConfigMeta) => HasValue(entries, m.key), a, b);
    }
  }

  /** The value shown for a scope is that of the first entry with the key and scope, and absent when there is none. */
  lemma {:induction false} ScopeValueIsFirst(entries: seq<ConfigEntry>, key: string, scope: Scope)
    ensures ScopeValue(entries, key, scope).None? <==>
      forall i | 0 <= i < |entries| :: !(entries[i].key == key && entries[i].scope == scope)
    ensures ScopeValue(entries, key, scope).Some? ==>
      exists i | 0 <= i < |entries| ::
        && entries[i].key == key && entries[i].scope == scope
        && entries[i].value == ScopeValue(entries, key, scope).value
        && forall j | 0 <= j < i :: !(entries[j].key == key && entries[j].scope == scope)
  {
    if entries != [] && !(entries[0].key == key && entries[0].scope == scope) {
      var t := entries[1..];
      ScopeValueIsFirst(t, key, scope);
      assert forall i | 0 <= i < |t| :: t[i] == entries[i + 1];
      if ScopeValue(t, key, scope).Some? {
        var i :| 0 <= i < |t| && t[i].key == key && t[i].scope == scope && t[i].value == ScopeValue(t, key, scope).value
          && forall j | 0 <= j < i :: !(t[j].key == key && t[j].scope == scope);
        assert entries[i + 1] == t[i];
      } else {
        forall i | 0 <= i < |entries| ensures !(entries[i].key == key && entries[i].scope == scope) {
          if i > 0 { assert entries[i] == t[i - 1]; }
        }
      }
    }
  }

  /** Missing and empty values never take part in the comparison. */
  lemma PresentValuesAreNonEmpty(entries: seq<ConfigEntry>, key: string, v: Option<string>)
    ensures v in PresentValues(entries, key) <==>
      && v.Some? && v.value != ""
      && (v == ScopeValue(entries, key, Local) || v == ScopeValue(entries, key, Global) || v == ScopeValue(entries, key, System))
  {
    FilterMembership((v: Option<string>) => v.Some? && v.value != "",
      [ScopeValue(entries, key, Local), ScopeValue(entries, key, Global), ScopeValue(entries, key, System)], v);
  }

  lemma SetAboveOne<T>(s: set<T>)
    ensures |s| > 1 <==> exists a, b | a in s && b in s :: a != b
  {
    if |s| > 1 {
      var a :| a in s;
      assert |s - {a}| == |s| - 1;
      var b :| b in s - {a};
    }
    if exists a, b | a in s && b in s :: a != b {
      var a, b :| a in s && b in s && a != b;
      assert |s - {a}| == |s| - 1;
      assert b in s - {a};
    }
  }

  /** The value a scope shows, when it is truthy. */
  predicate Shows(entries: seq<ConfigEntry>, key: string, s: Scope, x: string) {
    ScopeValue(entries, key, s) == Some(x) && x != ""
  }

  /** The compared values are exactly the truthy ones shown by local, global or system. */
  lemma ComparedValues(entries: seq<ConfigEntry>, key: string, x: string)
    ensures x in (set v | v in PresentValues(entries, key) :: v.value) <==>
      Shows(entries, key, Local, x) || Shows(entries, key, Global, x) || Shows(entries, key, System, x)
  {
    PresentValuesAreNonEmpty(entries, key, Some(x));
    if x in (set v | v in PresentValues(entries, key) :: v.value) {
      var v :| v in PresentValues(entries, key) && v.value == x;
      PresentValuesAreNonEmpty(entries, key, v);
    }
  }

  /** A key is flagged exactly when two of local, global and system show different non-empty values. */
  lemma ConflictIffTwoValues(entries: seq<ConfigEntry>, key: string)
    ensures HasConflict(entries, key) <==>
      exists s, t, x, y | s != Merged && t != Merged && Shows(entries, key, s, x) && Shows(entries, key, t, y) :: x != y
  {
    var vs := set v | v in PresentValues(entries, key) :: v.value;
    SetAboveOne(vs);
    if HasConflict(entries, key) {
      var x, y :| x in vs && y in vs && x != y;
      ComparedValues(entries, key, x);
      ComparedValues(entries, key, y);
      var s :| s != Merged && Shows(entries, key, s, x);
      var t :| t != Merged && Shows(entries, key, t, y);
    }
    if exists s, t, x, y | s != Merged && t != Merged && Shows(entries, key, s, x) && Shows(entries, key, t, y) :: x != y {
      var s, t, x, y :| s != Merged && t != Merged && Shows(entries, key, s, x) && Shows(entries, key, t, y) && x != y;
      ComparedValues(entries, key, x);
      ComparedValues(entries, key, y);
      assert x in vs && y in vs;
    }
  }

  /** A key given a non-empty value only by `merged` entries is listed but never flagged. */
  lemma MergedOnlyListedNotFlagged(schema: seq<ConfigSchema.ConfigMeta>, entries: seq<ConfigEntry>, i: nat)
    requires i < |schema|
    requires forall e | e in entries && e.key == schema[i].key :: e.scope == Merged
    requires HasValue(entries, schema[i].key)
    ensures schema[i] in ChangedKeys(schema, entries)
    ensures !HasConflict(entries, schema[i].key)
  {
    var key := schema[i].key;
    ChangedKeysListing(schema, entries, schema[i]);
    forall s | s != Merged ensures ScopeValue(entries, key, s).None? {
      ScopeValueIsFirst(entries, key, s);
    }
    assert PresentValues(entries, key) == [] by {
      FilterKeepsNone(entries, key);
    }
  }

  lemma FilterKeepsNone(entries: seq<ConfigEntry>, key: string)
    requires ScopeValue(entries, key, Local).None? && ScopeValue(entries, key, Global).None? && ScopeValue(entries, key, System).None?
    ensures PresentValues(entries, key) == []
  {
    if PresentValues(entries, key) != [] {
      PresentValuesAreNonEmpty(entries, key, PresentValues(entries, key)[0]);
    }
  }

  /** With at most one entry per key and scope, distinct non-empty local and global values are a conflict. */
  lemma LocalGlobalDisagree(entries: seq<ConfigEntry>, i: nat, j: nat)
    requires KeyScopeUnique(entries)
    requires i < |entries| && j < |entries|
    requires entries[i].scope == Local && entries[j].scope == Global && entries[i].key == entries[j].key
    requires entries[i].value != "" && entries[j].value != "" && entries[i].value != entries[j].value
    ensures HasConflict(entries, entries[i].key)
  {
    var key := entries[i].key;
    UniqueScopeValue(entries, i);
    UniqueScopeValue(entries, j);
    ConflictIffTwoValues(entries, key);
    assert Shows(entries, key, Local, entries[i].value) && Shows(entries, key, Global, entries[j].value);
  }

  /** Under unique key and scope pairs, the value shown for an entry's scope is that entry's value. */
  lemma UniqueScopeValue(entries: seq<ConfigEntry>, i: nat)
    requires KeyScopeUnique(entries) && i < |entries|
    ensures ScopeValue(entries, entries[i].key, entries[i].scope) == Some(entries[i].value)
  {
    ScopeValueIsFirst(entries, entries[i].key, entries[i].scope);
    var k :| 0 <= k < |entries| && entries[k].key == entries[i].key && entries[k].scope == entries[i].scope
      && entries[k].value == ScopeValue(entries, entries[i].key, entries[i].scope).value
      && forall j | 0 <= j < k :: !(entries[j].key == entries[i].key && entries[j].scope == entries[i].scope);
    assert k == i;
  }
}
