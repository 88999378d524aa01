/**
 * LoadConfig.js: the default configuration and the local override file,
 * merged into the live tree that the rest of the server reads, and the
 * save path that writes a new setting to the local file.
 *
 * The file system and TOML are outside the model: every read is supplied
 * as its outcome (`Read`), every write as whether it succeeded.
 */
module LoadConfig {
  import opened ConfigTree

  /** What TOML.parse makes of a text: a parse error, or a tree. */
  datatype Parsed = Invalid | Valid(tree: Tree)

  /** What fs.readFileSync gives for a configuration file: an error, or a
      text, represented by what it parses to. */
  datatype Read = Unreadable | Text(parsed: Parsed)

  /** TOML.parse("") */
  const EmptyText: Parsed := Valid(map[])

  /** The default tree from the path given (or the default path) and, when
      that cannot be read, the default path: `{}` when the text read does not
      parse, and when neither read succeeds. */
  function MainTree(primary: Read, fallback: Read): Tree {
    var raw := if primary.Text? then primary else fallback;
    if raw.Text? && raw.parsed.Valid? then raw.parsed.tree else map[]
  }

  /** What the local file parses to: a file that cannot be read counts as "". */
  function LocalText(localFile: Read): Parsed {
    if localFile.Text? then localFile.parsed else EmptyText
  }

  /** `updateConfig(globalConfig, localConfig)`: walks the keys of the local
      tree, handing each to the `forEach` callback below. */
  method UpdateConfig(g: Tree, l: Tree) returns (r: Tree)
    requires Mergeable(g, l)
    ensures r == Merge(g, l)
    decreases Table(l), 1
  {
    MergeKeys(g, l);
    r := g;
    var todo := l.Keys;
    while todo != {}
      invariant todo <= l.Keys
      invariant r.Keys == g.Keys + (l.Keys - todo)
      invariant forall k :: k in r && k !in todo ==> r[k] == Merge(g, l)[k]
      invariant forall k :: k in todo && k in g ==> r[k] == g[k]
      decreases todo
    {
      var key :| key in todo;
      r := UpdateKey(g, l, r, key);
      todo := todo - {key};
    }
  }

  /** The `forEach` callback for one key of the local tree: a scalar or an
      array is copied; a table or a date first puts `{}` in place of an
      absent or falsy default, then has its keys merged into it. `r` is the
      tree being updated, still holding the default `g` at `key`. */
  method UpdateKey(g: Tree, l: Tree, r: Tree, key: string) returns (r': Tree)
    requires Mergeable(g, l) && key in l
    requires key in g <==> key in r
    requires key in g ==> r[key] == g[key]
    ensures r' == r[key := Merge(g, l)[key]]
    decreases Table(l), 0
  {
    MergeAt(g, l, key);
    r' := r;
    var value := l[key];
    if value.Table? || value.DateTime? {
      if !(key in r' && Truthy(r'[key])) {
        r' := r'[key := Table(map[])];
      }
      // A local date has no keys to copy; and a non-table default only
      // ever meets an empty local table here, whose walk writes nothing.
      if r'[key].Table? && value.Table? {
        var sub := UpdateConfig(r'[key].entries, value.entries);
        r' := r'[key := Table(sub)];
      }
    } else {
      r' := r'[key := value];
    }
  }

  /** The local tree must be mergeable onto the default tree whenever it parses. */
  predicate Loadable(primary: Read, fallback: Read, localFile: Read) {
    LocalText(localFile).Valid? ==> Mergeable(MainTree(primary, fallback), LocalText(localFile).tree)
  }

  /** `loadConfiguration(main, local)`: `primary` is the read of `main ||
      defaultConfig`, `fallback` the read of defaultConfig that follows when
      it fails, `localFile` the read of `local || defaultLocal`. Returns the
      merged tree and the local tree (None when the local text does not
      parse, in which case the merge is skipped). */
  method LoadConfiguration(primary: Read, fallback: Read, localFile: Read) returns (config: Tree, local: Option<Tree>)
    requires Loadable(primary, fallback, localFile)
    ensures local == (if LocalText(localFile).Valid? then Some(LocalText(localFile).tree) else None)
    ensures local.None? ==> config == MainTree(primary, fallback)
    ensures local.Some? ==> config == Merge(MainTree(primary, fallback), local.value)
    ensures primary.Text? && primary.parsed.Valid? && localFile.Unreadable? ==> config == primary.parsed.tree
    ensures localFile.Unreadable? ==> local == Some(map[]) && config == MainTree(primary, fallback)
    ensures localFile.Text? && localFile.parsed.Invalid? ==> local.None? && config == MainTree(primary, fallback)
    ensures (primary.Text? && primary.parsed.Invalid?) || (primary.Unreadable? && !(fallback.Text? && fallback.parsed.Valid?)) ==>
              config == (if local.Some? then Merge(map[], local.value) else map[])
  {
    var rawConfig := primary;
    if rawConfig.Unreadable? {
      rawConfig := fallback;
    }
    var configObject: Tree := map[];
    if rawConfig.Text? && rawConfig.parsed.Valid? {
      configObject := rawConfig.parsed.tree;
    }
    var rawLocalConfig := if localFile.Text? then localFile.parsed else EmptyText;
    config := configObject;
    if rawLocalConfig.Valid? {
      local := Some(rawLocalConfig.tree);
      config := UpdateConfig(configObject, rawLocalConfig.tree);
    } else {
      local := None;
    }
  }

  /** The merge on the save path is defined when the re-read local file parses. */
  predicate Saveable(localFile: Read, setting: Tree) {
    LocalText(localFile).Valid? ==> Mergeable(LocalText(localFile).tree, setting)
  }

  /** The save as intended is defined: the setting merges into the re-read
      local tree and, when that is written, the result merges into `live`. */
  predicate LiveSaveable(live: Tree, localFile: Read, setting: Tree, writeOk: bool) {
    Saveable(localFile, setting)
    && (LocalText(localFile).Valid? && writeOk ==> Mergeable(live, Persisted(localFile, setting)))
  }

  /** The tree the save path writes, when it writes. */
  function Persisted(localFile: Read, setting: Tree): Tree
    requires Saveable(localFile, setting) && LocalText(localFile).Valid?
  {
    Merge(LocalText(localFile).tree, setting)
  }

  /** The module's exported state: `config` is `module.exports`, the live
      merged tree; `local` is `module.exports.Local`, None when the local
      file did not parse at load time. */
  class Settings {
    var config: Tree
    var local: Option<Tree>

    /** The module body: `loadConfiguration(defaultConfig, defaultLocal)`. */
    constructor Load(primary: Read, fallback: Read, localFile: Read)
      requires Loadable(primary, fallback, localFile)
      ensures local == (if LocalText(localFile).Valid? then Some(LocalText(localFile).tree) else None)
      ensures local.None? ==> config == MainTree(primary, fallback)
      ensures local.Some? ==> config == Merge(MainTree(primary, fallback), local.value)
    {
      var c, l := LoadConfiguration(primary, fallback, localFile);
      config, local := c, l;
    }

    /** `saveConfigSetting(setting)` as written: re-read the local file (a
        read failure counts as ""), merge the setting into it, write it back.
        What it returns is the tree written, None when nothing is written.
        The live merge that follows the write names `config`, which
        LoadConfig.js never declares: it raises a ReferenceError, the same
        catch swallows it, and neither `config` nor `local` changes. */
    method SaveConfigSetting(setting: Tree, localFile: Read, writeOk: bool) returns (written: Option<Tree>)
      requires Saveable(localFile, setting)
      ensures written.Some? <==> LocalText(localFile).Valid? && writeOk
      ensures written.Some? ==> written.value == Persisted(localFile, setting)
      ensures written.Some? ==> Covers(written.value, setting)
      ensures localFile.Unreadable? && writeOk ==> written == Some(Merge(map[], setting))
    {
      var rawLocalConfig := if localFile.Text? then localFile.parsed else EmptyText;
      if rawLocalConfig.Invalid? {
        return None;
      }
      var localConfig := UpdateConfig(rawLocalConfig.tree, setting);
      MergeCovers(rawLocalConfig.tree, setting);
      if !writeOk {
        return None;
      }
      written := Some(localConfig);
    }

    /** The save path as evidently intended: once the write has succeeded,
        the tree written is merged into the live tree; when nothing was
        written the live tree is left as it was. */
    method SaveSetting(setting: Tree, localFile: Read, writeOk: bool) returns (written: Option<Tree>)
      requires LiveSaveable(config, localFile, setting, writeOk)
      modifies this`config
      ensures written.Some? <==> LocalText(localFile).Valid? && writeOk
      ensures written.Some? ==> written.value == Persisted(localFile, setting)
      ensures config == if written.Some? then Merge(old(config), written.value) else old(config)
    {
      written := SaveConfigSetting(setting, localFile, writeOk);
      if written.Some? {
        config := UpdateConfig(config, written.value);
      }
    }
  }

  /** With the intended save, a setting that was written can be read back
      from the live tree. */
  lemma SavedSettingIsLive(live: Tree, localFile: Read, setting: Tree)
    requires Saveable(localFile, setting) && LocalText(localFile).Valid?
    requires Mergeable(live, Persisted(localFile, setting))
    ensures Covers(Merge(live, Persisted(localFile, setting)), setting)
  {
    var w := Persisted(localFile, setting);
    MergeCovers(LocalText(localFile).tree, setting);
    MergeCovers(live, w);
    CoversTransitive(Merge(live, w), w, setting);
  }

  /** A setting naming the owner of a wiki called "notes". */
  const NotesOwnedByAlice: Tree := map["wikis" := Table(map["notes" := Table(map["owner" := Str("alice")])])]

  /** As written, a successful save leaves the live tree stale: starting
      from an empty live tree and an unreadable local file, the owner the
      save writes is not in the live tree, which the save never touches. */
  lemma SavedSettingStaysOffline()
    ensures Saveable(Unreadable, NotesOwnedByAlice)
    ensures Persisted(Unreadable, NotesOwnedByAlice) == NotesOwnedByAlice
    ensures !Covers(map[], NotesOwnedByAlice)
  {
    MergeOntoEmpty(NotesOwnedByAlice);
    assert "wikis" in NotesOwnedByAlice;
  }

  /** The same on the object: after SaveConfigSetting writes the owner of
      "notes" to the local file, the settings' live tree, loaded from
      nothing, still lacks it. */
  method SaveLeavesLiveStale() returns (written: Option<Tree>, live: Tree)
    ensures written.Some? && Covers(written.value, NotesOwnedByAlice)
    ensures !Covers(live, NotesOwnedByAlice)
  {
    EmptyMergeable(map[]);
    var settings := new Settings.Load(Unreadable, Unreadable, Unreadable);
    MergeKeys(map[], map[]);
    EmptyMergeable(NotesOwnedByAlice);
    written := settings.SaveConfigSetting(NotesOwnedByAlice, Unreadable, true);
    live := settings.config;
    assert live == map[];
    assert "wikis" in NotesOwnedByAlice;
  }
}
