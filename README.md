# SecureWikiServer configuration and access core, in Dafny

This project models two parts of a multi-wiki TiddlyWiki server:

- **The layered configuration** (LoadConfig.js).
  - The default tree and the local override tree are read and parsed.
  - `updateConfig` deep-merges the override onto the default.
  - `saveConfigSetting` re-reads the local file, merges a setting into it and writes it back. It also means to merge the result into the live tree, but it names an undeclared `config` there, so the live tree never changes (see Findings).
- **The access and media decisions** (startWiki.js).
  - `checkAuthorisation` and `checkUploadAuthorisation` fill in empty policy defaults in the live settings. They then decide from the wiki's policy `{public, owner, access}` and the request's decoded token.
  - `loadMediaFile` picks the file's MIME type by its lower-cased extension. It opens the joined path only if the path string starts with the wiki's `files` folder path, so a sibling such as `files-old` also passes (see Findings).
  - `initialiseWikiSettings` records a new wiki's `{public, owner}` in the local tree and saves it with `saveConfigSetting`.

Modules:

- `ConfigTree` (config_tree.dfy): the parsed TOML values and JavaScript truthiness.
  - `Merge` is the pure specification of `updateConfig`.
  - The lemmas cover what the merge keeps, copies and covers, its idempotence, and how merges of disjoint patches commute.
- `LoadConfig` (load_config.dfy): `UpdateConfig`, the key walk of `updateConfig`, is proved equal to `Merge`. Also in this module:
  - `LoadConfiguration`, over the outcomes of the file reads and parses;
  - the class `Settings`, i.e. `module.exports` (the live tree) and `module.exports.Local`;
  - the save path, both as written and as intended.
- `Paths` (paths.dfy): the parts of Node's `path.posix` that the media handler uses (`path` on a POSIX host):
  - `join` and `normalize`, as segment resolution;
  - `extname`;
  - the string-prefix test, and the segment-boundary test that it should have been.
- `StartWiki` (start_wiki.dfy): the policy defaults, the view and upload verdicts, the built-in MIME table, the media decision, and the new-wiki set-up.

I/O is modelled as follows:

- Each file read is a parameter of type `Read`: unreadable, or a text given by what TOML makes of it (`Parsed`: invalid, or a tree).
- Each write is a parameter saying whether it succeeded.
- `fs.access` and `fs.readFile` on a media file are the parameters `found` and `readOk`.
- The decoded login token is an `Option<Identity>`.
- The wiki's loaded folder is an `Option<string>`.

Most `updateConfig` preconditions say where a default can take the merge. The `Mergeable` predicate holds them: wherever the local tree has a non-empty table, the default is absent, falsy or a table.

The checks read `wikis`, `wikis[name]` and `access` with own-property lookups. `PolicyShaped` requires each of these to be absent, falsy or a table, so that every lookup the checks make has a meaning in the model.

## Model

| member | source | states |
|---|---|---|
| ConfigTree.Merge | LoadConfig.js:115-132 | The pure specification of `updateConfig`. It has no contract of its own: MergeShape, MergeCovers, MergeIdempotent and MergeCommutesOnDisjoint state what it yields, and UpdateConfig is proved equal to it. |
| ConfigTree.Slot | LoadConfig.js:123-125 | The value the nested merge starts from is truthy. It is the default when the default is truthy, and a fresh empty table otherwise. |
| ConfigTree.MergeShape | LoadConfig.js:121-131 | After the merge, the keys are those of both trees. A default key the local tree does not set keeps its value. A local scalar or array replaces the default whole. Where both sides hold tables, the result is their nested merge. |
| ConfigTree.EmptyMergeable | LoadConfig.js:115-132 | Any local tree can be merged onto an empty default. |
| ConfigTree.MergeOntoEmpty | LoadConfig.js:122-127 | Merging a date-free local tree onto `{}` yields the local tree itself. |
| ConfigTree.FreshSubtreeIsCopied | LoadConfig.js:122-127 | Take a local table that holds no date at any depth, and whose default is absent or falsy. It starts from a fresh `{}`, so the result at that key equals the local subtree. |
| ConfigTree.MergeCovers | LoadConfig.js:121-131 | Everything the local tree sets can be read back from the merged tree: its scalars and arrays at the same paths, and the contents of its non-empty tables. |
| ConfigTree.MergeIdempotent | LoadConfig.js:115-132 | Merging the same local tree a second time changes nothing. |
| ConfigTree.MergeableAfterDisjoint | LoadConfig.js:115-132 | A patch can still be merged after a patch with disjoint key paths has been merged. |
| ConfigTree.MergeCommutesOnDisjoint | LoadConfig.js:115-132 | Two patches with disjoint key paths give the same tree in either order. |
| LoadConfig.UpdateConfig | LoadConfig.js:115-132 | The key walk leaves exactly the tree `Merge(g, l)`. |
| LoadConfig.UpdateKey | LoadConfig.js:121-131 | The `forEach` callback for one key changes that key only, and writes the merged value there. |
| LoadConfig.MainTree | LoadConfig.js:42-67 | The default tree: the text read from the given path or else the default path, parsed, and `{}` when no read succeeds or the text does not parse. It has no contract of its own; LoadConfiguration's contract relates it to the reads. |
| LoadConfig.LocalText | LoadConfig.js:73-84 | What the local file parses to, an unreadable file counting as `""` and so as `{}`. It has no contract of its own; LoadConfiguration's and SaveConfigSetting's contracts use it. |
| LoadConfig.LoadConfiguration | LoadConfig.js:38-107 | The main tree comes from the given path, or else the default path. It is `{}` when the text read does not parse and when neither read succeeds. An unreadable local file counts as empty, so the live tree is then the main tree alone. A local file that does not parse skips the merge, and `local` is then unset. Otherwise the live tree is the main tree merged with the local one. |
| LoadConfig.Settings.Load | LoadConfig.js:175-178 | The module's exports are the merged tree and the local tree, as `loadConfiguration` left them. |
| LoadConfig.Settings.SaveConfigSetting | LoadConfig.js:138-172 | As written. Something is written exactly when the re-read local text parses and the write succeeds. What is written is the fresh local tree merged with the setting, and it covers the setting. An unreadable local file persists only the setting. The live tree and `Local` are not changed. |
| LoadConfig.Settings.SaveSetting | LoadConfig.js:163-166 | As intended. The same tree is written, and only after a successful write is it merged into the live tree. A failed parse or write leaves the live tree as it was. An unreadable file still writes the setting and merges it. |
| LoadConfig.SavedSettingIsLive | LoadConfig.js:163-166 | With the intended save, everything the setting sets can be read from the live tree once the save has written. |
| LoadConfig.SavedSettingStaysOffline | LoadConfig.js:166 | As written, a save that writes a wiki's owner still leaves that owner out of the live tree. |
| LoadConfig.SaveLeavesLiveStale | LoadConfig.js:138-178 | The same on the `Settings` object: after `SaveConfigSetting` has written a tree covering the setting, the object's live tree, loaded from nothing, does not cover it. |
| Paths.Split | startWiki.js:266-267 | A path splits into at least one segment, and no segment contains '/'. |
| Paths.SplitRooted | startWiki.js:266-267 | Splitting the absolute path built from some segments gives an empty first segment followed by those segments. |
| Paths.ResolveAbsoluteIsClean | startWiki.js:266-267 | Resolving the segments of an absolute path never leaves an empty, ".", or ".." segment. |
| Paths.Normalize | startWiki.js:266-267 | `path.posix.normalize`. It has no contract of its own; NormalizeRooted and NormalizeClean state what it yields on absolute paths. |
| Paths.Join | startWiki.js:266-267 | `path.posix.join` of two strings. It has no contract of its own; JoinInside and ClimbToSibling state what it yields for the media folder. |
| Paths.NormalizeRooted | startWiki.js:266-267 | For an absolute path whose last segment is not empty, that is one without a trailing '/', `path.normalize` is "/" or the absolute path of its resolved segments, and those segments are clean. |
| Paths.NormalizeClean | startWiki.js:266-267 | Normalising an absolute path whose segments are already clean changes nothing. |
| Paths.ExtName | startWiki.js:265 | `path.extname` is either empty, or a dot followed by characters that include no further dot and no '/'. |
| Paths.LastDot | startWiki.js:265 | The index found holds the last '.' of the name; -1 means there is none. |
| Paths.JoinInside | startWiki.js:266-267 | Joining a normalised absolute folder with plain relative segments gives the folder's segments followed by them. The result passes both containment tests. |
| Paths.ClimbToSibling | startWiki.js:266-267 | Joining `parent/name` with `../other/rest` gives `parent/other/rest`. |
| Paths.StartsWith | startWiki.js:270 | `startsWith`, the containment test the code applies. It has no contract of its own; PrefixCheckOnSegments restates it on segments. |
| Paths.PrefixCheckOnSegments | startWiki.js:270 | On normalised paths, the string-prefix test holds exactly when the file's segments match the folder's, except that the file's segment at the folder's last position need only begin with the folder's last name. |
| Paths.WithinFolderOnSegments | startWiki.js:268-270 | On normalised paths, the segment-boundary test holds exactly when the folder's segments begin the file's. |
| Paths.SiblingFolderPasses | startWiki.js:270 | `parent/name/../name-suffix/...` passes the string-prefix test for `parent/name`, but it is not inside that folder. |
| StartWiki.Policy | startWiki.js:62-63 | The policy the checks read has a table at `access`. Every recorded entry is kept, except a falsy `access`, which becomes `{}`. |
| StartWiki.WithWiki | startWiki.js:61-62 | `wikis` becomes a table whose entry `name` is the given policy. The other settings and the other wikis are unchanged. |
| StartWiki.WithPolicyDefaults | startWiki.js:61-63 | The live tree after the three defaults. It has no contract of its own; DefaultsOnlyInsert states what it keeps and adds. |
| StartWiki.DefaultsOnlyInsert | startWiki.js:60-63 | Filling in defaults keeps every other setting and every other wiki, and keeps the recorded policy. It is idempotent, and it leaves a tree whose path is already filled in exactly as it was. |
| StartWiki.LevelVerdict | startWiki.js:71-83 | The level grants access exactly when its entry is truthy and its `indexOf` finds the right. It throws exactly when the entry has no `indexOf`, and it refuses when there is no entry. |
| StartWiki.ViewVerdict | startWiki.js:64-87 | View is granted exactly when the wiki is public, or an identity is present and either owns the wiki (a string name equal to `owner`) or has a level entry listing "view". With no identity, only a public wiki is granted. It throws only on a level entry without `indexOf`. |
| StartWiki.UploadVerdict | startWiki.js:100-117 | Upload is granted exactly when an identity is present and its level entry lists "upload". With no identity, upload is refused. |
| StartWiki.OwnershipNeverGrantsUpload | startWiki.js:90-117 | Whatever `owner` is recorded, the upload answer is the same. |
| StartWiki.UnrecordedWikiRefused | startWiki.js:59-118 | A wiki with no recorded policy is refused for viewing and for upload, with or without an identity. |
| StartWiki.OwnerViewsButCannotUpload | startWiki.js:68-117 | The owner of a private wiki with no levels may view it, but may not upload to it. |
| StartWiki.UploadByLevel | startWiki.js:101-112 | A level whose entry lists "upload" may upload. A level with no entry may not. |
| StartWiki.FillInDefaults | startWiki.js:60-63 | The three `x = x \|\| {}` assignments leave `WithPolicyDefaults` of the old tree, and yield the defaulted policy. |
| StartWiki.CheckAuthorisation | startWiki.js:59-88 | The live tree gets the policy defaults, and the answer is the view verdict on the defaulted policy. |
| StartWiki.CheckUploadAuthorisation | startWiki.js:95-118 | The live tree gets the policy defaults, and the answer is the upload verdict on the defaulted policy. |
| StartWiki.MimeKey | startWiki.js:265 | The lower-cased extension that is looked up. It has no contract of its own; ExtName, ExtNameOfFileName and BuiltinServesWav describe it. |
| StartWiki.MimeType | startWiki.js:265 | A file is listed exactly when the table has a truthy entry under its lower-cased extension. That entry is its Content-Type. |
| StartWiki.ExtNameOfFileName | startWiki.js:265 | The extension of a plain file name is the dot and what follows its last dot. |
| StartWiki.BuiltinServesWav | startWiki.js:239-265 | With the built-in table, `name.WAV` is served as `audio/wav`, because the extension is lower-cased before the lookup. |
| StartWiki.BuiltinSkipsBareName | startWiki.js:239-265 | With the built-in table, a name without a dot is not listed. |
| StartWiki.MediaDecision | startWiki.js:262-293 | A file is opened exactly when the view check grants, the extension is listed, the wiki has a folder, and the joined path passes the containment test; the file opened is the joined path. It is served with the listed type exactly when it was opened, exists and reads. A 404 with an end is sent exactly when it was opened and exists but does not read. A refused request, a path that fails the test, and a missing file get no reply at all. An unlisted extension gets a bare 404 head without any file access. A thrown check, or a missing wiki folder, throws. |
| StartWiki.FilesFolderOf | startWiki.js:266 | The media folder of a normalised absolute wiki path is that path's segments followed by "files". |
| StartWiki.PlainNamesOpened | startWiki.js:266-270 | Under either test, a listed file named by plain relative segments is opened inside the media folder. |
| StartWiki.ClimbOutPath | startWiki.js:266-270 | A path `../other/...` lands in the media folder's sibling `other`. It passes the prefix test exactly when `other` begins with "files". |
| StartWiki.SiblingPrefix | startWiki.js:270 | On segments, the sibling `other` passes the prefix test for the media folder exactly when its name begins with "files". |
| StartWiki.ClimbOutNotOpened | startWiki.js:266-270 | Under either test, a climb into a sibling whose name does not begin with "files" is never opened. |
| StartWiki.ContainedIsPrefix | startWiki.js:270 | What the segment-boundary test admits, the string-prefix test admits too. |
| StartWiki.SiblingFolderOpened | startWiki.js:266-270 | As written, a climb into `files-<suffix>` is opened, although it lies outside the media folder. The segment-boundary test refuses it. |
| StartWiki.SegmentCheckStaysInside | startWiki.js:268-270 | With the segment-boundary test, every file opened lies below the wiki's `files` folder. This is stated for joined paths written as their segments, that is without a trailing '/'. |
| StartWiki.PrefixCheckStaysNearFolder | startWiki.js:266-270 | As written, with the string-prefix test, every file opened lies below the wiki's folder, in a segment whose name begins with "files". This is stated for joined paths without a trailing '/'. |
| StartWiki.LoadMediaFile | startWiki.js:237-295 | The built-in table is installed only when no `mimeMap` is set. The live tree gets the policy defaults. The file opened and the reply are those of `MediaDecision` with the string-prefix test. |
| StartWiki.PublicFlag | startWiki.js:326 | `data.public \|\| false` is truthy exactly when `data.public` is truthy, and is then that value. |
| StartWiki.InitialiseWikiSettings | startWiki.js:322-329 | An unset `Local` throws before any change. A missing token throws after `{public}` has been recorded. Otherwise `Local.wikis[name]` becomes exactly `{public, owner}`, with no access entries, and the whole local tree goes to the save named by `save`. `AsWritten` is the code's `saveConfigSetting`, which leaves the live tree alone; `Intended` also merges what was written into the live tree. The write follows the save's outcome. |
| StartWiki.CreatorRefusedAsWritten | startWiki.js:322-328 | As written, from nothing on disk, the save writes the creator's ownership, yet the view check that follows refuses the creator. |
| StartWiki.CreatorCanViewNewWiki | startWiki.js:322-328 | With the intended save, once it has written, the creator of a new wiki may view it. |

## Left out

- File system reads and writes, and TOML parsing and stringifying, are outcomes given as parameters. The text formats are not part of this model.
- Floating-point numbers: TOML floats are not modelled, and numbers are integers.
- Keys inherited from `Object.prototype`, such as `constructor` and `toString`, are treated as absent in every lookup.
- `Lower` lower-cases ASCII letters only; `toLowerCase` on other characters is not modelled.
- Trees are values. Updating them in place, and arrays shared between the local tree and the merged tree, are not modelled.
- Arrays share identity (aliasing), and that is not modelled either: nothing in the core mutates an array after a merge.
- ConfigTree.Mergeable: this `updateConfig` precondition excludes a truthy number, string, boolean, array or date as the default under a non-empty local table. JavaScript does the following there:
  - over a primitive, a local scalar or array is dropped silently;
  - over a primitive, a non-empty nested local table leads to `updateConfig(undefined, …)`, whose next write or read throws a TypeError; that is caught at LoadConfig.js:95 when loading and at :167 when saving, leaving the keys walked so far merged;
  - an array or `Date` default gets the nested keys as properties.
  - An empty local table over such a default is modelled; it leaves the default as it was.
- StartWiki.PolicyShaped: `wikis`, `wikis[name]` and `access` must each be absent, falsy or a table. JavaScript does the following otherwise:
  - a truthy primitive `wikis` loses the write at startWiki.js:62, so line 63 reads `access` of `undefined` and throws a TypeError;
  - a truthy primitive `wikis[name]` loses the `access` write at line 63, so a request with a token that does not own the wiki throws a TypeError at line 71;
  - a truthy primitive `access` finds no entry for any level, so such a request is refused;
  - an array at any of the three keeps the writes made onto it as extra properties.
- StartWiki.InitialiseWikiSettings: the retained local `wikis` must be absent, falsy or a table. A truthy primitive there loses the write at startWiki.js:325, so line 326 throws a TypeError; an array keeps the new wiki as an extra property.
- An identity's level is a string. A token whose `level` is some other value, or absent, is not modelled.
- `Local`, `saveSetting` and `loadConfig` are also properties of the exported tree, so they are visible as settings. The model keeps `Local` as a separate field and leaves the two functions out.
- HTTP routing, response writing, the favicon and unauthorised-page handlers, upload streaming and its size cap, base64 decoding, and directory creation are not modelled.
- The environment variables, `os.homedir`, the TiddlyWiki boot, and `loadWiki`/`prepareWiki` are not part of this model.
- The commented-out `fs.watch` reload and the no-op `httpServer` placeholders are not part of this model.
- There is no concurrency: the save path is synchronous, and nothing serialises concurrent saves.
- A save whose re-read fails does not abort: the code reads `""` and persists only the setting. The model does the same.
- `module.exports.Local` is never reassigned after a save. The model leaves `local` as it was.
- `LoadMediaFile` follows the code's string-prefix test. The segment-boundary test is modelled beside it (`Containment.SegmentBoundary`), and the second finding below compares the two.
- A TOML offset date-time is a JavaScript `Date`: an object with no own keys. The merge descends into it rather than copying it, so a local offset date-time never overrides a default. This follows the code.
- ConfigTree.Merge: the model treats every TOML date-time as having no own keys. The TOML library gives local dates, local times and local date-times one own key each (`isDate`, `isTime` or `isFloating`, set to `true`), which LoadConfig.js:127 then writes into the slot; over an absent default a local date gives `{isDate: true}` where the model gives `{}`. Only offset date-times are modelled faithfully.
- `path` is modelled as `path.posix`, so the model assumes the server runs on a POSIX host; `path.win32`, which Node uses on Windows, is left out.

## Findings

| source | as written | input that shows it | evidently intended | confidence | as-written member | corrected member |
|---|---|---|---|---|---|---|
| LoadConfig.js:166 | `updateConfig(config, LocalConfig)` names `config`, which LoadConfig.js never declares. The ReferenceError is swallowed by the catch at line 167, so the live tree never sees a saved setting. | An unreadable local file, a successful write, and the setting `{wikis: {notes: {owner: "alice"}}}`: the owner is written, but the live tree does not gain it. | The written tree is merged into the live tree `module.exports`. | high (not executed; neither LoadConfig.js nor startWiki.js declares a global `config`, and the claim assumes no other file of the repository does) | LoadConfig.Settings.SaveConfigSetting, LoadConfig.SavedSettingStaysOffline | LoadConfig.Settings.SaveSetting, LoadConfig.SavedSettingIsLive |
| startWiki.js:270 | `file.startsWith(fileFolderPath)` compares raw strings. | Wiki folder `/w`, file path `../files-old/a.png`: the join is `/w/files-old/a.png`, which begins with `/w/files`. | Only paths at or below the `files` folder are opened: a segment-boundary test. | high (not executed) | Paths.SiblingFolderPasses, StartWiki.SiblingFolderOpened | Paths.WithinFolderOnSegments, StartWiki.SegmentCheckStaysInside |
