/**
 * The static table of known configuration keys: one `ConfigMeta` per key,
 * with its display label, value type, category and optional allowed values
 * and default. Every other part of the editor reads this table.
 */
module ConfigSchema {
  import opened Wrappers

  datatype ConfigType = StringType | BooleanType | EnumType | PathType

  datatype ConfigMeta = ConfigMeta(
    key: string,
    labelText: string,
    configType: ConfigType,
    category: string,
    description: Option<string>,
    enumValues: Option<seq<string>>,
    defaultValue: Option<string>)

  const Schema: seq<ConfigMeta> := [
    ConfigMeta("user.name", "User Name", StringType, "User",
      Some("Name used to identify the author for commits."), None, None),
    ConfigMeta("user.email", "User Email", StringType, "User",
      Some("Email used to identify the author for commits."), None, None),
    ConfigMeta("core.autocrlf", "Auto CRLF", EnumType, "Core",
      Some("Control line ending conversion on checkout/commit."), Some(["true", "false", "input"]), Some("input")),
    ConfigMeta("core.filemode", "File Mode", BooleanType, "Core",
      Some("Check file permission bit changes."), None, Some("true")),
    ConfigMeta("core.editor", "Editor", PathType, "Core",
      Some("Default text editor path."), None, None),
    ConfigMeta("core.ignorecase", "Ignore Case", BooleanType, "Core",
      Some("Ignore case in filenames."), None, Some("true")),
    ConfigMeta("init.defaultBranch", "Default Branch", StringType, "Core",
      Some("Default branch name when initializing repositories."), None, Some("main")),
    ConfigMeta("color.ui", "Color UI", EnumType, "Core",
      Some("Enable colored output in the command line."), Some(["auto", "true", "false"]), Some("auto")),
    ConfigMeta("alias.st", "Alias: st", StringType, "Alias",
      Some("Shortcut for git status."), None, None),
    ConfigMeta("alias.ci", "Alias: ci", StringType, "Alias",
      Some("Shortcut for git commit."), None, None),
    ConfigMeta("remote.origin.url", "Remote origin URL", StringType, "Remote",
      Some("Fetch URL for origin."), None, None),
    ConfigMeta("remote.origin.pushurl", "Remote origin Push URL", StringType, "Remote",
      Some("Push URL for origin."), None, None),
    ConfigMeta("fetch.prune", "Fetch Prune", BooleanType, "Remote",
      Some("Auto prune removed remote branches when fetching."), None, Some("false")),
    ConfigMeta("push.autoSetupRemote", "Auto Setup Remote", BooleanType, "Remote",
      Some("Auto create upstream tracking on first push."), None, Some("true")),
    ConfigMeta("pull.rebase", "Pull Rebase", EnumType, "Workflow",
      Some("Default strategy for git pull."), Some(["false", "true", "merges"]), Some("false")),
    ConfigMeta("merge.ff", "Merge Fast-Forward", EnumType, "Workflow",
      Some("Allow fast-forward merges."), Some(["true", "false", "only"]), Some("true")),
    ConfigMeta("commit.gpgsign", "Commit GPG Sign", BooleanType, "Security",
      Some("Sign commits with GPG by default."), None, Some("false")),
    ConfigMeta("gpg.format", "GPG Format", EnumType, "Security",
      Some("Format used for signatures."), Some(["openpgp", "ssh"]), Some("openpgp"))
  ]

  const Categories: seq<string> := ["User", "Core", "Alias", "Remote", "Workflow", "Security"]

  /** No two items of `schema` share a key. */
  predicate KeysDistinct(schema: seq<ConfigMeta>) {
    forall i, j | 0 <= i < j < |schema| :: schema[i].key != schema[j].key
  }

  /** Enum items list their allowed values and default to one of them; others list none. */
  predicate WellTyped(meta: ConfigMeta) {
    && (meta.configType == EnumType ==>
          && meta.enumValues.Some? && |meta.enumValues.value| > 0
          && meta.defaultValue.Some? && meta.defaultValue.value in meta.enumValues.value)
    && (meta.configType != EnumType ==> meta.enumValues.None?)
    && (meta.configType == BooleanType && meta.defaultValue.Some? ==>
          meta.defaultValue.value in ["true", "false"])
  }

  lemma SchemaSize()
    ensures |Schema| == 18 && |Categories| == 6
  {
  }

  const SchemaKeys: seq<string> := ["user.name", "user.email", "core.autocrlf", "core.filemode", "core.editor", "core.ignorecase", "init.defaultBranch", "color.ui", "alias.st", "alias.ci", "remote.origin.url", "remote.origin.pushurl", "fetch.prune", "push.autoSetupRemote", "pull.rebase", "merge.ff", "commit.gpgsign", "gpg.format"]

  function KeysOf(schema: seq<ConfigMeta>): seq<string> {
    seq(|schema|, i requires 0 <= i < |schema| => schema[i].key)
  }

  lemma SchemaKeyList()
    ensures KeysOf(Schema) == SchemaKeys
  {
  }

  lemma SchemaKeysPairwiseDistinct()
    ensures forall i, j | 0 <= i < j < |SchemaKeys| :: SchemaKeys[i] != SchemaKeys[j]
  {
    var lengths := [9, 10, 13, 13, 11, 15, 18, 8, 8, 8, 17, 21, 11, 20, 11, 8, 14, 10];
    assert forall i | 0 <= i < |SchemaKeys| :: |SchemaKeys[i]| == lengths[i];
    // Keys of equal length differ at the position given.
    assert SchemaKeys[1][0] != SchemaKeys[17][0];
    assert SchemaKeys[2][5] != SchemaKeys[3][5];
    assert SchemaKeys[4][0] != SchemaKeys[12][0];
    assert SchemaKeys[4][0] != SchemaKeys[14][0];
    assert SchemaKeys[7][0] != SchemaKeys[8][0];
    assert SchemaKeys[7][0] != SchemaKeys[9][0];
    assert SchemaKeys[7][0] != SchemaKeys[15][0];
    assert SchemaKeys[8][6] != SchemaKeys[9][6];
    assert SchemaKeys[8][0] != SchemaKeys[15][0];
    assert SchemaKeys[9][0] != SchemaKeys[15][0];
    assert SchemaKeys[12][0] != SchemaKeys[14][0];
  }

  /** Schema keys are pairwise distinct across all eighteen items. */
  lemma SchemaKeysDistinct()
    ensures KeysDistinct(Schema)
  {
    SchemaKeyList();
    SchemaKeysPairwiseDistinct();
    assert forall i | 0 <= i < |Schema| :: Schema[i].key == KeysOf(Schema)[i];
  }

  /** The six categories are distinct and every item's category is one of them. */
  lemma CategoriesCoverSchema()
    ensures forall i, j | 0 <= i < j < |Categories| :: Categories[i] != Categories[j]
    ensures forall m | m in Schema :: m.category in Categories
  {
  }

  /**
   * Every enum item has non-empty allowed values and a default among them,
   * every boolean default is "true" or "false", and only enum items carry
   * allowed values.
   */
  lemma SchemaWellTyped()
    ensures forall i | 0 <= i < |Schema| :: WellTyped(Schema[i])
  {
  }
}
