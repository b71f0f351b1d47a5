/**
 * The front end's bridge to the native side: loaded entries are normalised
 * into store entries, and when the native call fails a deterministic
 * placeholder list is built from the schema instead.
 */
module Bridge {
  import opened Wrappers
  import opened Text
  import ConfigSchema
  import opened ConfigStore

  /** The scope literal as it travels over the bridge. */
  function ScopeName(s: Scope): string {
    match s
    case Local => "local"
    case Global => "global"
    case System => "system"
    case Merged => "merged"
  }

  /** `toScope`: the three non-local names map to themselves, anything else to `local`. */
  function ToScope(name: string): Scope {
    if name == "global" then Global
    else if name == "system" then System
    else if name == "merged" then Merged
    else Local
  }

  /** Normalisation is the inverse of naming: `toScope` is the identity on the four scope literals. */
  lemma ToScopeInvertsName(s: Scope)
    ensures ToScope(ScopeName(s)) == s
  {
  }

  /** A name maps to a non-local scope exactly when it is that scope's literal; every other string becomes `local`. */
  lemma ToScopeOfOtherNames(name: string)
    ensures ToScope(name) != Local <==> name in ["global", "system", "merged"]
    ensures ToScope(name) != Local ==> ScopeName(ToScope(name)) == name
  {
  }

  /** One entry as the native call returns it, before normalisation; the override field may be absent. */
  datatype WireEntry = WireEntry(key: string, value: string, scope: string, overriddenBy: Option<string>)

  /** JavaScript truthiness of an optional string: absent and empty are both false. */
  predicate Truthy(s: Option<string>) {
    s.Some? && s.value != ""
  }

  function Normalise(w: WireEntry): ConfigEntry {
    ConfigEntry(w.key, w.value, ToScope(w.scope),
      if Truthy(w.overriddenBy) then Some(ToScope(w.overriddenBy.value)) else None)
  }

  /** The fallback list: one entry per schema item, booleans `false`, others `mock-` and the 0-based index. */
  function Fallback(schema: seq<ConfigSchema.ConfigMeta>, scope: Scope): seq<ConfigEntry> {
    seq(|schema|, i requires 0 <= i < |schema| =>
      ConfigEntry(schema[i].key,
        if schema[i].configType == ConfigSchema.BooleanType then "false" else "mock-" + NatToString(i),
        scope, None))
  }

  /**
   * `loadConfigFromNative`: the native result is `None` when the call
   * fails, in which case the fallback for the requested scope is returned.
   */
  function LoadConfig(scope: Scope, native: Option<seq<WireEntry>>): seq<ConfigEntry> {
    match native
    case Some(ws) => seq(|ws|, i requires 0 <= i < |ws| => Normalise(ws[i]))
    case None => Fallback(ConfigSchema.Schema, scope)
  }

  /** A successful load keeps length, order, keys and values; scopes and overrides are normalised. */
  lemma LoadKeepsEntries(scope: Scope, ws: seq<WireEntry>)
    ensures var r := LoadConfig(scope, Some(ws));
      && |r| == |ws|
      && forall i | 0 <= i < |ws| ::
        && r[i].key == ws[i].key && r[i].value == ws[i].value
        && r[i].scope == ToScope(ws[i].scope)
        && (r[i].overriddenBy.None? <==> ws[i].overriddenBy.None? || ws[i].overriddenBy == Some(""))
        && (r[i].overriddenBy.Some? ==> r[i].overriddenBy.value == ToScope(ws[i].overriddenBy.value))
  {
  }

  /** Loading what the store itself would send back reproduces it, overrides included. */
  lemma LoadInvertsNaming(scope: Scope, es: seq<ConfigEntry>)
    ensures LoadConfig(scope, Some(seq(|es|, i requires 0 <= i < |es| =>
      WireEntry(es[i].key, es[i].value, ScopeName(es[i].scope),
        if es[i].overriddenBy.Some? then Some(ScopeName(es[i].overriddenBy.value)) else None)))) == es
  {
    var ws := seq(|es|, i requires 0 <= i < |es| =>
      WireEntry(es[i].key, es[i].value, ScopeName(es[i].scope),
        if es[i].overriddenBy.Some? then Some(ScopeName(es[i].overriddenBy.value)) else None));
    forall i | 0 <= i < |es| ensures Normalise(ws[i]) == es[i] {
      ToScopeInvertsName(es[i].scope);
      if es[i].overriddenBy.Some? {
        ToScopeInvertsName(es[i].overriddenBy.value);
      }
    }
  }

  /** A failed load yields one entry per schema item, in schema order, all in the requested scope. */
  lemma FallbackShape(scope: Scope)
    ensures var r := LoadConfig(scope, None);
      && |r| == |ConfigSchema.Schema| == 18
      && forall i | 0 <= i < |r| ::
        && r[i].key == ConfigSchema.Schema[i].key && r[i].scope == scope && r[i].overriddenBy.None?
        && (ConfigSchema.Schema[i].configType == ConfigSchema.BooleanType ==> r[i].value == "false")
        && (ConfigSchema.Schema[i].configType != ConfigSchema.BooleanType ==> r[i].value == "mock-" + NatToString(i))
  {
    ConfigSchema.SchemaSize();
  }

  /** With distinct schema keys the fallback has unique key and scope pairs, and its placeholder values differ. */
  lemma FallbackWellFormed(schema: seq<ConfigSchema.ConfigMeta>, scope: Scope)
    requires ConfigSchema.KeysDistinct(schema)
    ensures KeyScopeUnique(Fallback(schema, scope))
    ensures forall i, j | 0 <= i < j < |schema| &&
      schema[i].configType != ConfigSchema.BooleanType && schema[j].configType != ConfigSchema.BooleanType ::
        Fallback(schema, scope)[i].value != Fallback(schema, scope)[j].value
  {
    var f := Fallback(schema, scope);
    forall i, j | 0 <= i < j < |schema| &&
      schema[i].configType != ConfigSchema.BooleanType && schema[j].configType != ConfigSchema.BooleanType
      ensures f[i].value != f[j].value
    {
      NatToStringInjective(i, j);
      assert f[i].value[5..] == NatToString(i);
      assert f[j].value[5..] == NatToString(j);
    }
  }

  /** The real schema's fallback is well formed. */
  lemma SchemaFallbackUnique(scope: Scope)
    ensures KeyScopeUnique(LoadConfig(scope, None))
  {
    ConfigSchema.SchemaKeysDistinct();
    FallbackWellFormed(ConfigSchema.Schema, scope);
  }
}
