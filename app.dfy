/**
 * The editor screen's own logic: the category and search projection of the
 * schema, the typed default for a new key, the capped key suggestions, the
 * subset handed to a save, the add-or-overwrite of an entry, and the choice
 * between the global file and a repository.
 */
module App {
  import opened Wrappers
  import opened Text
  import opened Seqs
  import ConfigSchema
  import opened ConfigStore

  type Meta = ConfigSchema.ConfigMeta

  // ---------------------------------------------------------------- grouped schema

  datatype Group = Group(category: string, items: seq<Meta>)

  /** An empty term matches everything; otherwise the lower-cased key or label must contain it. */
  predicate MatchesTerm(m: Meta, term: string) {
    term == [] || Includes(ToLower(m.key), term) || Includes(ToLower(m.labelText), term)
  }

  predicate InGroup(m: Meta, category: string, term: string) {
    m.category == category && MatchesTerm(m, term)
  }

  /** `groupedSchema`: one group per category, holding the schema items of that category that match the search. */
  function GroupedSchema(schema: seq<Meta>, categories: seq<string>, search: string): seq<Group> {
    var term := ToLower(Trim(search));
    seq(|categories|, i requires 0 <= i < |categories| =>
      Group(categories[i], Filter((m: Meta) => InGroup(m, categories[i], term), schema)))
  }

  /** One group per category in category order; an item is in a group exactly when it has that category and matches. */
  lemma GroupedSchemaContents(schema: seq<Meta>, categories: seq<string>, search: string, i: nat, m: Meta)
    requires i < |categories|
    ensures |GroupedSchema(schema, categories, search)| == |categories|
    ensures GroupedSchema(schema, categories, search)[i].category == categories[i]
    ensures m in GroupedSchema(schema, categories, search)[i].items <==>
      m in schema && m.category == categories[i] && MatchesTerm(m, ToLower(Trim(search)))
    ensures multiset(GroupedSchema(schema, categories, search)[i].items)[m] ==
      if InGroup(m, categories[i], ToLower(Trim(search))) then multiset(schema)[m] else 0
  {
    var term := ToLower(Trim(search));
    FilterMembership((m: Meta) => InGroup(m, categories[i], term), schema, m);
    FilterCounts((m: Meta) => InGroup(m, categories[i], term), schema, m);
  }

  /** A blank search keeps, in schema order, every item of each category. */
  lemma BlankSearchKeepsCategory(schema: seq<Meta>, categories: seq<string>, search: string, i: nat)
    requires AllWhitespace(search) && i < |categories|
    ensures GroupedSchema(schema, categories, search)[i].items == Filter((m: Meta) => m.category == categories[i], schema)
  {
    TrimEmptyIff(search);
    var term := ToLower(Trim(search));
    assert term == [];
    FilterSamePredicate((m: Meta) => InGroup(m, categories[i], term), (m: Meta) => m.category == categories[i], schema);
  }

  /**
   * With a blank search and categories that are distinct and cover the
   * schema, every schema item appears in exactly one group: its own
   * category's.
   */
  lemma BlankSearchGroupsWholeSchema(schema: seq<Meta>, categories: seq<string>, search: string, m: Meta)
    requires AllWhitespace(search) && m in schema
    requires forall x | x in schema :: x.category in categories
    ensures exists i | 0 <= i < |categories| :: m.category == categories[i]
    ensures forall i | 0 <= i < |categories| ::
      m in GroupedSchema(schema, categories, search)[i].items <==> m.category == categories[i]
  {
    TrimEmptyIff(search);
    assert m.category in categories;
    forall i | 0 <= i < |categories|
      ensures m in GroupedSchema(schema, categories, search)[i].items <==> m.category == categories[i]
    {
      GroupedSchemaContents(schema, categories, search, i, m);
    }
  }

  /** The real schema's six categories are distinct and cover it, so a blank search places each item in exactly one group. */
  lemma BlankSearchGroupsRealSchema(search: string, m: Meta)
    requires AllWhitespace(search) && m in ConfigSchema.Schema
    ensures exists i | 0 <= i < |ConfigSchema.Categories| :: m.category == ConfigSchema.Categories[i]
    ensures forall i, j | 0 <= i < |ConfigSchema.Categories| && 0 <= j < |ConfigSchema.Categories| ::
      (m in GroupedSchema(ConfigSchema.Schema, ConfigSchema.Categories, search)[i].items &&
       m in GroupedSchema(ConfigSchema.Schema, ConfigSchema.Categories, search)[j].items) ==> i == j
    ensures exists i | 0 <= i < |ConfigSchema.Categories| ::
      m in GroupedSchema(ConfigSchema.Schema, ConfigSchema.Categories, search)[i].items
  {
    ConfigSchema.CategoriesCoverSchema();
    BlankSearchGroupsWholeSchema(ConfigSchema.Schema, ConfigSchema.Categories, search, m);
  }

  // ---------------------------------------------------------------- typed default

  /** The first schema item with exactly this key, if any. */
  function FindMeta(schema: seq<Meta>, key: string): Option<Meta> {
    if schema == [] then None
    else if schema[0].key == key then Some(schema[0])
    else FindMeta(schema[1..], key)
  }

  /** The lookup finds the first item with the key, and nothing when no item has it. */
  lemma {:induction false} FindMetaIsFirst(schema: seq<Meta>, key: string)
    ensures FindMeta(schema, key).None? <==> forall m | m in schema :: m.key != key
    ensures FindMeta(schema, key).Some? ==>
      exists i | 0 <= i < |schema| :: schema[i] == FindMeta(schema, key).value && schema[i].key == key
        && forall j | 0 <= j < i :: schema[j].key != key
  {
    if schema != [] && schema[0].key != key {
      var t := schema[1..];
      FindMetaIsFirst(t, key);
      assert forall m | m in schema :: m == schema[0] || m in t;
      if FindMeta(t, key).Some? {
        var i :| 0 <= i < |t| && t[i] == FindMeta(t, key).value && t[i].key == key && forall j | 0 <= j < i :: t[j].key != key;
        assert schema[i + 1] == t[i];
        assert forall j | 1 <= j <= i :: schema[j] == t[j - 1];
      }
    }
  }

  /** `getDefaultValueByType`: the default a key shows when it has no value (`DefaultPriority`). */
  function DefaultValueByType(schema: seq<Meta>, key: string): string {
    match FindMeta(schema, key)
    case None => ""
    case Some(m) =>
      if m.defaultValue.Some? then m.defaultValue.value
      else if m.configType == ConfigSchema.BooleanType then "false"
      else if m.configType == ConfigSchema.EnumType then
        (if m.enumValues.Some? && |m.enumValues.value| > 0 then m.enumValues.value[0] else "")
      else ""
  }

  /**
   * The typed default in priority order, over any schema: "" for an unknown
   * key, then the explicit default, then "false" for booleans, the first
   * listed value (or "") for enums and "" for everything else.
   */
  lemma DefaultPriority(schema: seq<Meta>, key: string)
    ensures FindMeta(schema, key).None? ==> DefaultValueByType(schema, key) == ""
    ensures FindMeta(schema, key).Some? && FindMeta(schema, key).value.defaultValue.Some? ==>
      DefaultValueByType(schema, key) == FindMeta(schema, key).value.defaultValue.value
    ensures FindMeta(schema, key).Some? && FindMeta(schema, key).value.defaultValue.None? ==>
      var m := FindMeta(schema, key).value;
      && (m.configType == ConfigSchema.BooleanType ==> DefaultValueByType(schema, key) == "false")
      && (m.configType == ConfigSchema.EnumType ==>
            DefaultValueByType(schema, key) == if m.enumValues.Some? && |m.enumValues.value| > 0 then m.enumValues.value[0] else "")
      && (m.configType in {ConfigSchema.StringType, ConfigSchema.PathType} ==> DefaultValueByType(schema, key) == "")
  {
  }

  /** Over a well-typed schema the typed default of a known key is legal: a boolean literal, or one of the enum's values. */
  lemma DefaultIsLegal(schema: seq<Meta>, key: string)
    requires forall m | m in schema :: ConfigSchema.WellTyped(m)
    ensures FindMeta(schema, key).Some? ==>
      var m := FindMeta(schema, key).value;
      && (m.configType == ConfigSchema.BooleanType ==> DefaultValueByType(schema, key) in ["true", "false"])
      && (m.configType == ConfigSchema.EnumType ==> m.enumValues.Some? && DefaultValueByType(schema, key) in m.enumValues.value)
  {
    FindMetaIsFirst(schema, key);
    if FindMeta(schema, key).Some? {
      var i :| 0 <= i < |schema| && schema[i] == FindMeta(schema, key).value && schema[i].key == key;
      assert ConfigSchema.WellTyped(schema[i]);
    }
  }

  /** Every key of the real schema gets a legal default; an unknown key gets the empty string. */
  lemma SchemaDefaultsLegal(key: string)
    ensures (forall m | m in ConfigSchema.Schema :: m.key != key) ==> DefaultValueByType(ConfigSchema.Schema, key) == ""
    ensures forall m | m in ConfigSchema.Schema && m.key == key && m.configType == ConfigSchema.BooleanType ::
      DefaultValueByType(ConfigSchema.Schema, key) in ["true", "false"]
  {
    ConfigSchema.SchemaWellTyped();
    ConfigSchema.SchemaKeysDistinct();
    DefaultPriority(ConfigSchema.Schema, key);
    DefaultIsLegal(ConfigSchema.Schema, key);
    FindMetaIsFirst(ConfigSchema.Schema, key);
    forall m | m in ConfigSchema.Schema && m.key == key && m.configType == ConfigSchema.BooleanType
      ensures DefaultValueByType(ConfigSchema.Schema, key) in ["true", "false"]
    {
      var i :| 0 <= i < |ConfigSchema.Schema| && ConfigSchema.Schema[i] == FindMeta(ConfigSchema.Schema, key).value;
      var k :| 0 <= k < |ConfigSchema.Schema| && ConfigSchema.Schema[k] == m;
      assert i == k;
    }
  }

  /** Two keys of the real schema: a string key with no default gets "", an enum key its explicit default. */
  lemma SchemaDefaultExamples()
    ensures DefaultValueByType(ConfigSchema.Schema, "user.name") == ""
    ensures DefaultValueByType(ConfigSchema.Schema, "core.autocrlf") == "input"
  {
    assert ConfigSchema.Schema[0].key == "user.name";
    assert ConfigSchema.Schema[1].key != "core.autocrlf" && ConfigSchema.Schema[2].key == "core.autocrlf";
  }

  // ---------------------------------------------------------------- suggestions

  const MaxSuggestions: nat := 8

  /** The schema items whose key contains the trimmed input, case-sensitively, in schema order. */
  function QueryHits(schema: seq<Meta>, newKey: string): seq<Meta> {
    Filter((m: Meta) => Includes(m.key, Trim(newKey)), schema)
  }

  /** `suggestions`: the schema items whose key contains the trimmed input, case-sensitively, at most eight. */
  function Suggestions(schema: seq<Meta>, newKey: string): seq<Meta> {
    var hits := QueryHits(schema, newKey);
    if |hits| <= MaxSuggestions then hits else hits[..MaxSuggestions]
  }

  lemma IncludesEmpty(s: string)
    ensures Includes(s, [])
  {
  }

  /** The suggestions are the first matches in schema order, at most eight; when fewer than eight, none is missing. */
  lemma SuggestionsBounded(schema: seq<Meta>, newKey: string)
    ensures |Suggestions(schema, newKey)| <= MaxSuggestions
    ensures forall m | m in Suggestions(schema, newKey) :: m in schema && Includes(m.key, Trim(newKey))
    ensures |Suggestions(schema, newKey)| < MaxSuggestions ==>
      forall m | m in schema && Includes(m.key, Trim(newKey)) :: m in Suggestions(schema, newKey)
    ensures Suggestions(schema, newKey) <= QueryHits(schema, newKey)
  {
    var p := (m: Meta) => Includes(m.key, Trim(newKey));
    forall m | m in schema && Includes(m.key, Trim(newKey)) ensures m in Filter(p, schema) {
      FilterMembership(p, schema, m);
    }
  }

  /** A blank query suggests the first eight schema items, in schema order. */
  lemma BlankQuerySuggestsFirstItems(schema: seq<Meta>, newKey: string)
    requires AllWhitespace(newKey)
    ensures Suggestions(schema, newKey) == if |schema| <= MaxSuggestions then schema else schema[..MaxSuggestions]
  {
    TrimEmptyIff(newKey);
    forall m | m in schema ensures Includes(m.key, Trim(newKey)) {
      IncludesEmpty(m.key);
    }
    FilterKeepsAll((m: Meta) => Includes(m.key, Trim(newKey)), schema);
  }

  // ---------------------------------------------------------------- save subset

  /** `handleSave`: the entries of the current scope, in order. */
  function SavePayload(entries: seq<ConfigEntry>, scope: Scope): seq<ConfigEntry> {
    Filter((e: ConfigEntry) => e.scope == scope, entries)
  }

  /** Exactly the entries of the scope are sent, each as often as it occurs, and their keys are then distinct. */
  lemma SavePayloadIsScope(entries: seq<ConfigEntry>, scope: Scope, e: ConfigEntry)
    ensures e in SavePayload(entries, scope) <==> e in entries && e.scope == scope
    ensures e.scope == scope ==> multiset(SavePayload(entries, scope))[e] == multiset(entries)[e]
    ensures KeyScopeUnique(entries) ==> KeyScopeUnique(SavePayload(entries, scope))
  {
    FilterMembership((e: ConfigEntry) => e.scope == scope, entries, e);
    FilterCounts((e: ConfigEntry) => e.scope == scope, entries, e);
    if KeyScopeUnique(entries) {
      FilterKeepsUnique(entries, scope);
    }
  }

  lemma {:induction false} FilterKeepsUnique(entries: seq<ConfigEntry>, scope: Scope)
    requires KeyScopeUnique(entries)
    ensures KeyScopeUnique(SavePayload(entries, scope))
  {
    if entries != [] {
      var t := entries[1..];
      assert KeyScopeUnique(t) by {
        forall i, j | 0 <= i < j < |t| ensures t[i].key != t[j].key || t[i].scope != t[j].scope {
          assert t[i] == entries[i + 1] && t[j] == entries[j + 1];
        }
      }
      FilterKeepsUnique(t, scope);
      var r := SavePayload(t, scope);
      if entries[0].scope == scope {
        forall x | x in r ensures x.key != entries[0].key || x.scope != entries[0].scope {
          var k :| 0 <= k < |t| && t[k] == x;
          assert entries[k + 1] == x;
        }
        var u := [entries[0]] + r;
        forall i, j | 0 <= i < j < |u| ensures u[i].key != u[j].key || u[i].scope != u[j].scope {
          assert u[j] == r[j - 1] && u[j] in r;
          if i > 0 { assert u[i] == r[i - 1]; }
        }
      }
    }
  }

  // ---------------------------------------------------------------- add or overwrite

  predicate HasEntry(entries: seq<ConfigEntry>, key: string, scope: Scope) {
    exists i | 0 <= i < |entries| :: entries[i].key == key && entries[i].scope == scope
  }

  /** The value a new entry gets: the typed-in value, or the typed default when it is empty. */
  function ChosenValue(schema: seq<Meta>, key: string, newValue: string): string {
    if newValue != "" then newValue else DefaultValueByType(schema, key)
  }

  /**
   * The entries after `handleAddConfig`, or `None` when it returns early
   * (blank key, or an existing key and scope whose overwrite is declined).
   * `confirmed` is the answer to the overwrite question, read only when asked.
   */
  function AddConfig(entries: seq<ConfigEntry>, scope: Scope, schema: seq<Meta>, newKey: string, newValue: string, confirmed: bool): Option<seq<ConfigEntry>> {
    var key := Trim(newKey);
    if key == [] then None
    else
      var value := ChosenValue(schema, key, newValue);
      if HasEntry(entries, key, scope) then
        if confirmed then Some(WithValue(entries, key, scope, value)) else None
      else Some(entries + [ConfigEntry(key, value, scope, None)])
  }

  /** The add is abandoned exactly for a blank key or a declined overwrite. */
  lemma AddConfigAbandoned(entries: seq<ConfigEntry>, scope: Scope, schema: seq<Meta>, newKey: string, newValue: string, confirmed: bool)
    ensures AddConfig(entries, scope, schema, newKey, newValue, confirmed).None? <==>
      AllWhitespace(newKey) || (HasEntry(entries, Trim(newKey), scope) && !confirmed)
  {
    TrimEmptyIff(newKey);
  }

  /** A confirmed overwrite keeps length and order and gives the new value to exactly the entries with that key and scope. */
  lemma AddConfigOverwrites(entries: seq<ConfigEntry>, scope: Scope, schema: seq<Meta>, newKey: string, newValue: string)
    requires Trim(newKey) != [] && HasEntry(entries, Trim(newKey), scope)
    ensures var r := AddConfig(entries, scope, schema, newKey, newValue, true);
      var key, value := Trim(newKey), ChosenValue(schema, Trim(newKey), newValue);
      && r.Some? && |r.value| == |entries|
      && forall i | 0 <= i < |entries| ::
        && r.value[i].key == entries[i].key && r.value[i].scope == entries[i].scope
        && r.value[i].overriddenBy == entries[i].overriddenBy
        && r.value[i].value == (if entries[i].key == key && entries[i].scope == scope then value else entries[i].value)
  {
    WithValueFrame(entries, Trim(newKey), scope, ChosenValue(schema, Trim(newKey), newValue));
  }

  /** A new key and scope appends exactly one entry, at the end, with the trimmed key and the chosen value. */
  lemma AddConfigAppends(entries: seq<ConfigEntry>, scope: Scope, schema: seq<Meta>, newKey: string, newValue: string, confirmed: bool)
    requires Trim(newKey) != [] && !HasEntry(entries, Trim(newKey), scope)
    ensures var r := AddConfig(entries, scope, schema, newKey, newValue, confirmed);
      && r.Some? && |r.value| == |entries| + 1 && r.value[..|entries|] == entries
      && r.value[|entries|] == ConfigEntry(Trim(newKey), ChosenValue(schema, Trim(newKey), newValue), scope, None)
  {
  }

  /** Adding keeps key and scope pairs unique, and afterwards the key holds the chosen value in that scope. */
  lemma AddConfigKeepsUnique(entries: seq<ConfigEntry>, scope: Scope, schema: seq<Meta>, newKey: string, newValue: string, confirmed: bool)
    requires KeyScopeUnique(entries)
    requires AddConfig(entries, scope, schema, newKey, newValue, confirmed).Some?
    ensures var r := AddConfig(entries, scope, schema, newKey, newValue, confirmed).value;
      && KeyScopeUnique(r)
      && exists i | 0 <= i < |r| :: r[i].key == Trim(newKey) && r[i].scope == scope && r[i].value == ChosenValue(schema, Trim(newKey), newValue)
  {
    var key, value := Trim(newKey), ChosenValue(schema, Trim(newKey), newValue);
    var r := AddConfig(entries, scope, schema, newKey, newValue, confirmed).value;
    if HasEntry(entries, key, scope) {
      WithValueKeepsUnique(entries, key, scope, value);
      WithValueFrame(entries, key, scope, value);
      var i :| 0 <= i < |entries| && entries[i].key == key && entries[i].scope == scope;
      assert r[i].value == value;
    } else {
      forall i, j | 0 <= i < j < |r| ensures r[i].key != r[j].key || r[i].scope != r[j].scope {
        assert r[i] == entries[i];
        if j < |entries| { assert r[j] == entries[j]; }
      }
      assert r[|entries|].key == key;
    }
  }

  // ---------------------------------------------------------------- target selection

  datatype Target = NoTarget | GlobalTarget | RepoTarget

  /** The part of the screen state the target buttons change, together with the store's scope. */
  datatype Selection = Selection(target: Target, selectedRepo: string, selectedRepoPath: string, scope: Scope)

  /** `handleChooseGlobal`: the repository path is left as it was. */
  function ChooseGlobal(s: Selection): Selection {
    s.(target := GlobalTarget, selectedRepo := "", scope := Global)
  }

  /** `handleChooseRepo`: `isRepo` is the answer of the repository check for the trimmed input. */
  function ChooseRepo(s: Selection, repoInput: string, isRepo: bool): Selection {
    var path := Trim(repoInput);
    if path == [] || !isRepo then s
    else Selection(RepoTarget, path, path, Local)
  }

  /**
   * `handlePickRepo` after the directory dialog returned `path` and the
   * repository check answered `isRepo`: the path is taken as returned,
   * without trimming.
   */
  function PickRepo(s: Selection, path: string, isRepo: bool): Selection {
    if !isRepo then s else Selection(RepoTarget, path, path, Local)
  }

  /** A repository target always names the same trimmed, non-blank path twice. */
  predicate RepoNamed(s: Selection) {
    s.target == RepoTarget ==> s.selectedRepo == s.selectedRepoPath && s.selectedRepoPath != [] && Trim(s.selectedRepoPath) == s.selectedRepoPath
  }

  /** A blank input or a failed check changes nothing; otherwise the repository is selected in the local scope. */
  lemma ChooseRepoOutcome(s: Selection, repoInput: string, isRepo: bool)
    ensures AllWhitespace(repoInput) || !isRepo ==> ChooseRepo(s, repoInput, isRepo) == s
    ensures !AllWhitespace(repoInput) && isRepo ==>
      var t := ChooseRepo(s, repoInput, isRepo);
      t.target == RepoTarget && t.scope == Local && t.selectedRepoPath == Trim(repoInput) && RepoNamed(t)
  {
    TrimEmptyIff(repoInput);
    TrimIdempotent(repoInput);
  }

  /** Choosing a repository keeps a repository target well named, and each choice is idempotent. */
  lemma ChoicesKeepRepoNamed(s: Selection, repoInput: string, isRepo: bool)
    requires RepoNamed(s)
    ensures RepoNamed(ChooseRepo(s, repoInput, isRepo))
    ensures ChooseGlobal(ChooseGlobal(s)) == ChooseGlobal(s)
    ensures ChooseRepo(ChooseRepo(s, repoInput, isRepo), repoInput, isRepo) == ChooseRepo(s, repoInput, isRepo)
    ensures ChooseGlobal(s).selectedRepoPath == s.selectedRepoPath
  {
    TrimIdempotent(repoInput);
  }

  /** Picking a path selects it; for a trimmed, non-blank path it selects exactly what typing it and choosing would. */
  lemma PickRepoAgreesWithChoose(s: Selection, path: string, isRepo: bool)
    ensures isRepo ==> PickRepo(s, path, isRepo).selectedRepoPath == path && PickRepo(s, path, isRepo).scope == Local
    ensures !isRepo ==> PickRepo(s, path, isRepo) == s
    ensures Trim(path) == path && path != [] ==> PickRepo(s, path, isRepo) == ChooseRepo(s, path, isRepo)
    ensures isRepo ==> (RepoNamed(PickRepo(s, path, isRepo)) <==> path != [] && Trim(path) == path)
  {
  }

  // ---------------------------------------------------------------- the screen

  class Screen {
    var store: Store
    var target: Target
    var repoInput: string
    var selectedRepo: string
    var selectedRepoPath: string
    var showAddModal: bool
    var newKey: string
    var newValue: string
    var isDefaultValue: bool
    var showSuggestions: bool
    /** The schema the screen was built with. */
    const schema: seq<Meta>

    function Current(): Selection
      reads this, store
    {
      Selection(target, selectedRepo, selectedRepoPath, store.scope)
    }

    constructor ()
      ensures schema == ConfigSchema.Schema
      ensures fresh(store) && store.scope == Merged && store.entries == SeedEntries(ConfigSchema.Schema) && store.search == ""
      ensures target == NoTarget && repoInput == "" && selectedRepo == "" && selectedRepoPath == ""
      ensures !showAddModal && newKey == "" && newValue == "" && !isDefaultValue && !showSuggestions
    {
      schema := ConfigSchema.Schema;
      store := new Store();
      target := NoTarget;
      repoInput, selectedRepo, selectedRepoPath := "", "", "";
      showAddModal := false;
      newKey, newValue := "", "";
      isDefaultValue, showSuggestions := false, false;
    }

    method HandleChooseGlobal()
      modifies this, store
      ensures store == old(store) && Current() == ChooseGlobal(old(Current()))
      ensures store.entries == old(store.entries) && store.search == old(store.search)
      ensures repoInput == old(repoInput) && newKey == old(newKey) && newValue == old(newValue)
      ensures showAddModal == old(showAddModal) && isDefaultValue == old(isDefaultValue) && showSuggestions == old(showSuggestions)
    {
      target := GlobalTarget;
      selectedRepo := "";
      store.SetScope(Global);
    }

    method HandleChooseRepo(isRepo: bool)
      modifies this, store
      ensures store == old(store) && Current() == ChooseRepo(old(Current()), repoInput, isRepo)
      ensures store.entries == old(store.entries) && store.search == old(store.search)
      ensures repoInput == old(repoInput) && newKey == old(newKey) && newValue == old(newValue)
      ensures showAddModal == old(showAddModal) && isDefaultValue == old(isDefaultValue) && showSuggestions == old(showSuggestions)
    {
      var path := Trim(repoInput);
      if path == [] {
        return;
      }
      if !isRepo {
        return;
      }
      target := RepoTarget;
      selectedRepo := path;
      selectedRepoPath := path;
      store.SetScope(Local);
    }

    /** `handlePickRepo` in the desktop build, once the dialog returned a path and the repository check answered. */
    method HandlePickRepo(path: string, isRepo: bool)
      modifies this, store
      ensures store == old(store) && Current() == PickRepo(old(Current()), path, isRepo)
      ensures repoInput == if isRepo then path else old(repoInput)
      ensures store.entries == old(store.entries) && store.search == old(store.search)
      ensures newKey == old(newKey) && newValue == old(newValue)
      ensures showAddModal == old(showAddModal) && isDefaultValue == old(isDefaultValue) && showSuggestions == old(showSuggestions)
    {
      if !isRepo {
        return;
      }
      repoInput := path;
      selectedRepoPath := path;
      selectedRepo := path;
      target := RepoTarget;
      store.SetScope(Local);
    }

    method HandleAddConfig(confirmed: bool)
      modifies this, store
      ensures store == old(store) && store.scope == old(store.scope) && store.search == old(store.search)
      ensures target == old(target) && repoInput == old(repoInput)
      ensures selectedRepo == old(selectedRepo) && selectedRepoPath == old(selectedRepoPath)
      ensures var next := AddConfig(old(store.entries), old(store.scope), schema, old(newKey), old(newValue), confirmed);
        if next.None? then
          && store.entries == old(store.entries) && newKey == old(newKey) && newValue == old(newValue)
          && showAddModal == old(showAddModal) && isDefaultValue == old(isDefaultValue) && showSuggestions == old(showSuggestions)
        else
          && store.entries == next.value && newKey == "" && newValue == ""
          && !showAddModal && !isDefaultValue && !showSuggestions
    {
      var next := AddConfig(store.entries, store.scope, schema, newKey, newValue, confirmed);
      if next.None? {
        return;
      }
      store.SetEntries(next.value);
      showAddModal := false;
      newKey := "";
      newValue := "";
      isDefaultValue := false;
      showSuggestions := false;
    }
  }
}
