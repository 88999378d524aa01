/**
 * startWiki.js: the per-wiki access decisions, the media-file handler's
 * MIME lookup and confinement test, and the set-up of a new wiki's policy.
 *
 * The shared `settings` object is LoadConfig.Settings: its `config` is the
 * live tree the checks read and fill in, its `local` the local tree a new
 * wiki is recorded in. The request's decoded token, the wiki's folder and
 * the outcomes of the file system calls are parameters.
 */
module StartWiki {
  import opened ConfigTree
  import opened LoadConfig
  import opened Paths

  /** A decoded login token: `decoded.name` and `decoded.level`. */
  datatype Identity = Identity(name: Value, level: string)

  /** The outcome of a check: true, false, or a TypeError thrown from
      calling `indexOf` on a value that has none. */
  datatype Verdict = Granted | Refused | TypeError

  // ------------------------------------------------------------ policies

  /** `t[k] || {}` yields a table: `t[k]` is absent, falsy or a table. */
  predicate TableOrFalsy(t: Tree, k: string) {
    k !in t || !Truthy(t[k]) || t[k].Table?
  }

  /** The settings along the path the checks fill in are tables where
      they are set at all: `wikis`, `wikis[name]` and its `access`. */
  predicate PolicyShaped(config: Tree, name: string) {
    TableOrFalsy(config, "wikis")
    && TableOrFalsy(Slot(config, "wikis").entries, name)
    && TableOrFalsy(Slot(Slot(config, "wikis").entries, name).entries, "access")
  }

  /** The policy recorded for wiki `name`: `{}` when there is none. */
  function RecordedPolicy(config: Tree, name: string): Tree
    requires TableOrFalsy(config, "wikis") && TableOrFalsy(Slot(config, "wikis").entries, name)
  {
    Slot(Slot(config, "wikis").entries, name).entries
  }

  /** The policy the checks read: the recorded one with `access` defaulted
      to `{}`. Nothing recorded is kept or changed but a missing access. */
  function Policy(config: Tree, name: string): (p: Tree)
    requires PolicyShaped(config, name)
    ensures "access" in p && p["access"].Table?
    ensures p.Keys == RecordedPolicy(config, name).Keys + {"access"}
    ensures forall k :: k in RecordedPolicy(config, name) && (k != "access" || Truthy(RecordedPolicy(config, name)[k])) ==>
              p[k] == RecordedPolicy(config, name)[k]
    ensures "access" !in RecordedPolicy(config, name) || !Truthy(RecordedPolicy(config, name)["access"]) ==>
              p["access"] == Table(map[])
  {
    var entry := RecordedPolicy(config, name);
    entry["access" := Slot(entry, "access")]
  }

  /** `t.wikis = t.wikis || {}` followed by `t.wikis[name] = policy`. */
  function WithWiki(t: Tree, name: string, policy: Tree): (r: Tree)
    requires TableOrFalsy(t, "wikis")
    ensures r.Keys == t.Keys + {"wikis"} && r["wikis"].Table?
    ensures forall k :: k in t && k != "wikis" ==> r[k] == t[k]
    ensures r["wikis"].entries.Keys == Slot(t, "wikis").entries.Keys + {name}
    ensures forall w :: w in Slot(t, "wikis").entries && w != name ==>
              r["wikis"].entries[w] == Slot(t, "wikis").entries[w]
    ensures r["wikis"].entries[name] == Table(policy)
  {
    var wikis := Slot(t, "wikis").entries;
    t["wikis" := Table(wikis[name := Table(policy)])]
  }

  /** The live tree once a check has run: `wikis`, `wikis[name]` and its
      `access` default to `{}`; everything else is left as it was. */
  function WithPolicyDefaults(config: Tree, name: string): (r: Tree)
    requires PolicyShaped(config, name)
  {
    WithWiki(config, name, Policy(config, name))
  }

  /** The defaults only ever insert: every other setting, every other wiki
      and every recorded part of this wiki's policy survive; a policy whose
      path is already filled in is left exactly as it was; and filling in
      twice is filling in once. */
  lemma DefaultsOnlyInsert(config: Tree, name: string)
    requires PolicyShaped(config, name)
    ensures var r := WithPolicyDefaults(config, name);
            && (forall k :: k in config && k != "wikis" ==> r[k] == config[k])
            && (forall w :: w in Slot(config, "wikis").entries && w != name ==>
                  r["wikis"].entries[w] == Slot(config, "wikis").entries[w])
            && PolicyShaped(r, name) && RecordedPolicy(r, name) == Policy(config, name)
            && Policy(r, name) == Policy(config, name)
            && WithPolicyDefaults(r, name) == r
    ensures "wikis" in config && Truthy(config["wikis"]) && name in config["wikis"].entries
            && Truthy(config["wikis"].entries[name])
            && "access" in config["wikis"].entries[name].entries
            && Truthy(config["wikis"].entries[name].entries["access"]) ==>
              WithPolicyDefaults(config, name) == config
  {
    var r := WithPolicyDefaults(config, name);
    var p := Policy(config, name);
    assert Slot(r, "wikis") == r["wikis"];
    assert Slot(r["wikis"].entries, name) == Table(p);
    assert RecordedPolicy(r, name) == p;
    assert Slot(p, "access") == p["access"];
    assert p["access" := p["access"]] == p;
    assert Policy(r, name) == p;
    var wikis := r["wikis"].entries;
    assert wikis[name := Table(p)] == wikis;
    assert r["wikis" := Table(wikis)] == r;
    if "wikis" in config && Truthy(config["wikis"]) && name in config["wikis"].entries
      && Truthy(config["wikis"].entries[name])
      && "access" in config["wikis"].entries[name].entries
      && Truthy(config["wikis"].entries[name].entries["access"])
    {
      var entry := config["wikis"].entries[name].entries;
      assert p == entry;
      assert config["wikis"].entries[name := Table(entry)] == config["wikis"].entries;
      assert config["wikis" := Table(config["wikis"].entries)] == config;
    }
  }

  // ----------------------------------------------------------- decisions

  /** `policy.public` is truthy. */
  predicate Public(policy: Tree) {
    "public" in policy && Truthy(policy["public"])
  }

  /** `typeof who.name === 'string' && who.name === policy.owner` */
  predicate Owns(policy: Tree, who: Identity) {
    who.name.Str? && "owner" in policy && policy["owner"] == who.name
  }

  /** The policy's level table: `policy.access`. */
  function Access(policy: Tree): Tree {
    if "access" in policy && policy["access"].Table? then policy["access"].entries else map[]
  }

  /** `word` occurs in `s` from index `i` on. */
  predicate OccursAt(s: string, word: string, i: int) {
    0 <= i <= |s| - |word| && s[i..i + |word|] == word
  }

  /** `s.indexOf(word) !== -1` on a string. */
  predicate Contains(s: string, word: string) {
    exists i | 0 <= i <= |s| - |word| :: OccursAt(s, word, i)
  }

  /** `v.indexOf(right) !== -1` where `v` has an indexOf: an array holding
      the string `right`, or a string containing it. */
  predicate Lists(v: Value, right: string) {
    (v.Arr? && Str(right) in v.items) || (v.Str? && Contains(v.s, right))
  }

  /** `access[level]` is truthy: the level has an entry. */
  predicate HasEntry(access: Tree, level: string) {
    level in access && Truthy(access[level])
  }

  /** The level's entry has no `indexOf`: a number, a boolean, a table or a date. */
  predicate Throws(access: Tree, level: string) {
    HasEntry(access, level) && !access[level].Arr? && !access[level].Str?
  }

  /** `access[level] ? access[level].indexOf(right) !== -1 : false` */
  function LevelVerdict(access: Tree, level: string, right: string): (v: Verdict)
    ensures v == Granted <==> HasEntry(access, level) && Lists(access[level], right)
    ensures v == TypeError <==> Throws(access, level)
    ensures !HasEntry(access, level) ==> v == Refused
  {
    if !HasEntry(access, level) then Refused
    else
      match access[level]
      case Arr(items) => if Str(right) in items then Granted else Refused
      case Str(s) => if Contains(s, right) then Granted else Refused
      case _ => TypeError
  }

  /** `checkAuthorisation`'s decision on the defaulted policy: a public wiki
      is open to everyone; otherwise a request needs an identity, and is let
      in when it names the owner or its level's entry lists "view". */
  function ViewVerdict(policy: Tree, decoded: Option<Identity>): (v: Verdict)
    ensures Public(policy) ==> v == Granted
    ensures decoded.None? ==> (v == Granted <==> Public(policy)) && v != TypeError
    ensures v == Granted <==>
              Public(policy)
              || (decoded.Some? && (Owns(policy, decoded.value)
                                   || (HasEntry(Access(policy), decoded.value.level)
                                       && Lists(Access(policy)[decoded.value.level], "view"))))
    ensures v == TypeError <==>
              !Public(policy) && decoded.Some? && !Owns(policy, decoded.value)
              && Throws(Access(policy), decoded.value.level)
  {
    if Public(policy) then Granted
    else if decoded.None? then Refused
    else if Owns(policy, decoded.value) then Granted
    else LevelVerdict(Access(policy), decoded.value.level, "view")
  }

  /** `checkUploadAuthorisation`'s decision: an identity whose level's entry
      lists "upload"; neither a public wiki nor ownership is enough. */
  function UploadVerdict(policy: Tree, decoded: Option<Identity>): (v: Verdict)
    ensures decoded.None? ==> v == Refused
    ensures v == Granted <==>
              decoded.Some? && HasEntry(Access(policy), decoded.value.level)
              && Lists(Access(policy)[decoded.value.level], "upload")
    ensures v == TypeError <==> decoded.Some? && Throws(Access(policy), decoded.value.level)
  {
    if decoded.None? then Refused
    else LevelVerdict(Access(policy), decoded.value.level, "upload")
  }

  /** Ownership never changes the upload decision: whatever the owner
      recorded, the same identity gets the same answer. */
  lemma OwnershipNeverGrantsUpload(policy: Tree, owner: Value, decoded: Option<Identity>)
    ensures UploadVerdict(policy["owner" := owner], decoded) == UploadVerdict(policy, decoded)
  {
    assert Access(policy["owner" := owner]) == Access(policy);
  }

  /** A wiki with nothing recorded is closed: no identity, or any identity,
      may view it or upload to it. */
  lemma UnrecordedWikiRefused(config: Tree, name: string, decoded: Option<Identity>)
    requires PolicyShaped(config, name) && RecordedPolicy(config, name) == map[]
    ensures ViewVerdict(Policy(config, name), decoded) == Refused
    ensures UploadVerdict(Policy(config, name), decoded) == Refused
  {
    var p := Policy(config, name);
    assert p == map["access" := Table(map[])];
    assert Access(p) == map[];
  }

  /** The owner of a private wiki with no levels may view it but not upload. */
  lemma OwnerViewsButCannotUpload(owner: string, level: string)
    ensures var policy := map["public" := Bool(false), "owner" := Str(owner), "access" := Table(map[])];
            var who := Some(Identity(Str(owner), level));
            ViewVerdict(policy, who) == Granted && UploadVerdict(policy, who) == Refused
  {
    var policy := map["public" := Bool(false), "owner" := Str(owner), "access" := Table(map[])];
    assert Access(policy) == map[];
  }

  /** A level whose entry lists "upload" may upload; another level may not. */
  lemma UploadByLevel(name: Value)
    ensures var policy := map["access" := Table(map["Editor" := Arr([Str("upload")])])];
            UploadVerdict(policy, Some(Identity(name, "Editor"))) == Granted
            && UploadVerdict(policy, Some(Identity(name, "Guest"))) == Refused
  {
    var policy := map["access" := Table(map["Editor" := Arr([Str("upload")])])];
    assert Access(policy) == map["Editor" := Arr([Str("upload")])];
    assert Str("upload") in Access(policy)["Editor"].items;
  }

  /** `checkAuthorisation(response, fullName)`: fills in the policy
      defaults in the live tree, then decides whether the request may view
      the wiki. */
  method CheckAuthorisation(settings: Settings, decoded: Option<Identity>, fullName: string) returns (v: Verdict)
    requires PolicyShaped(settings.config, fullName)
    modifies settings`config
    ensures settings.config == WithPolicyDefaults(old(settings.config), fullName)
    ensures v == ViewVerdict(Policy(old(settings.config), fullName), decoded)
  {
    var policy := FillInDefaults(settings, fullName);
    v := ViewVerdict(policy, decoded);
  }

  /** `checkUploadAuthorisation(response, fullName)`: the same defaults,
      then whether the request may upload to the wiki. */
  method CheckUploadAuthorisation(settings: Settings, decoded: Option<Identity>, fullName: string) returns (v: Verdict)
    requires PolicyShaped(settings.config, fullName)
    modifies settings`config
    ensures settings.config == WithPolicyDefaults(old(settings.config), fullName)
    ensures v == UploadVerdict(Policy(old(settings.config), fullName), decoded)
  {
    var policy := FillInDefaults(settings, fullName);
    v := UploadVerdict(policy, decoded);
  }

  /** The three `x = x || {}` assignments both checks open with. */
  method FillInDefaults(settings: Settings, fullName: string) returns (policy: Tree)
    requires PolicyShaped(settings.config, fullName)
    modifies settings`config
    ensures settings.config == WithPolicyDefaults(old(settings.config), fullName)
    ensures policy == Policy(old(settings.config), fullName)
  {
    var wikis := Slot(settings.config, "wikis").entries;
    settings.config := settings.config["wikis" := Table(wikis)];
    policy := Slot(wikis, fullName).entries;
    settings.config := settings.config["wikis" := Table(wikis[fullName := Table(policy)])];
    policy := policy["access" := Slot(policy, "access")];
    settings.config := settings.config["wikis" := Table(wikis[fullName := Table(policy)])];
  }

  // ---------------------------------------------------------- media files

  /** The table used when the TiddlyWiki settings supply no `mimeMap`. */
  const BuiltinMimeMap: Tree := map[
    ".aac" := Str("audio/aac"),
    ".avi" := Str("video/x-msvideo"),
    ".csv" := Str("text/csv"),
    ".doc" := Str("application/msword"),
    ".epub" := Str("application/epub+zip"),
    ".gif" := Str("image/gif"),
    ".html" := Str("text/html"),
    ".htm" := Str("text/html"),
    ".ico" := Str("image/x-icon"),
    ".jpg" := Str("image/jpeg"),
    ".jpeg" := Str("image/jpeg"),
    ".mp3" := Str("audio/mpeg"),
    ".mpeg" := Str("video/mpeg"),
    ".oga" := Str("audio/ogg"),
    ".ogv" := Str("video/ogg"),
    ".ogx" := Str("application/ogg"),
    ".png" := Str("image/png"),
    ".svg" := Str("image/svg+xml"),
    ".weba" := Str("audio/weba"),
    ".webm" := Str("video/webm"),
    ".wav" := Str("audio/wav")
  ]

  /** `path.extname(filePath).toLowerCase()`: the key looked up. */
  function MimeKey(filePath: string): string {
    Lower(ExtName(filePath))
  }

  /** `mimeMap[key]` when it is truthy: the Content-Type a listed file is
      served with. */
  function MimeType(mimeMap: Tree, filePath: string): (t: Option<Value>)
    ensures t.Some? <==> MimeKey(filePath) in mimeMap && Truthy(mimeMap[MimeKey(filePath)])
    ensures t.Some? ==> t.value == mimeMap[MimeKey(filePath)] && Truthy(t.value)
  {
    var key := MimeKey(filePath);
    if key in mimeMap && Truthy(mimeMap[key]) then Some(mimeMap[key]) else None
  }

  /** A name with no '/' is a single segment, kept whole by StripTrailing
      when it does not end in '/'. */
  lemma PlainName(p: string)
    requires '/' !in p
    ensures StripTrailing(p) == p && Split(p) == [p]
  {
    if p != "" {
      assert p[|p| - 1] in p;
    }
    SplitSegment(p, "");
    assert p + "" == p;
  }

  /** The extension of a plain file name is what follows its last dot. */
  lemma ExtNameOfFileName(stem: string, ext: string)
    requires '/' !in stem && '/' !in ext && '.' !in ext && stem != "" && ext != ""
    ensures ExtName(stem + "." + ext) == "." + ext
  {
    var p := stem + "." + ext;
    assert '/' !in p;
    PlainName(p);
    LastDotAt(stem, ext);
    assert p[|stem|..] == "." + ext;
  }

  lemma LastDotAt(stem: string, ext: string)
    requires '.' !in ext
    ensures LastDot(stem + "." + ext) == |stem|
    decreases |ext|
  {
    var p := stem + "." + ext;
    if ext == [] {
      assert p[|p| - 1] == '.';
    } else {
      assert p[|p| - 1] == ext[|ext| - 1] != '.';
      assert p[..|p| - 1] == stem + "." + ext[..|ext| - 1];
      LastDotAt(stem, ext[..|ext| - 1]);
    }
  }

  /** ".WAV" lower-cased. */
  lemma LowerWav()
    ensures Lower(".WAV") == ".wav"
  {
    var l := Lower(".WAV");
    assert |l| == 4;
    assert l[0] == '.' && l[1] == 'w' && l[2] == 'a' && l[3] == 'v';
  }

  /** With the built-in table, an upper-case WAV name is served as
      audio/wav: the extension is lower-cased before the lookup. */
  lemma BuiltinServesWav(stem: string)
    requires '/' !in stem && stem != ""
    ensures MimeType(BuiltinMimeMap, stem + ".WAV") == Some(Str("audio/wav"))
  {
    ExtNameOfFileName(stem, "WAV");
    assert stem + "." + "WAV" == stem + ".WAV" && "." + "WAV" == ".WAV";
    LowerWav();
    assert MimeKey(stem + ".WAV") == ".wav";
  }

  /** A name with no dot has no extension, which the built-in table does
      not list. */
  lemma BuiltinSkipsBareName(stem: string)
    requires '/' !in stem && '.' !in stem
    ensures MimeType(BuiltinMimeMap, stem).None?
  {
    PlainName(stem);
    assert LastDot(stem) == -1;
    assert ExtName(stem) == "";
    assert Lower("") == "";
    assert "" !in BuiltinMimeMap;
  }

  /** What a media request comes to: the file opened, if any, and the reply. */
  datatype MediaReply =
    | Silent                      // no reply is written
    | HeadOnly404                 // `writeHead(404)` without an end
    | NotFound                    // 404 and end: the read failed
    | Served(contentType: Value)  // 200 with the file's contents
    | Thrown                      // a TypeError escapes the handler
  datatype MediaOutcome = MediaOutcome(target: Option<string>, reply: MediaReply)

  /** `path.join(wikiPath, 'files')`: the wiki's media folder. */
  function FilesFolder(wikiPath: string): string {
    Join(wikiPath, "files")
  }

  /** The containment test a media request must pass: the raw string
      prefix startWiki.js applies, or the segment-boundary test it
      evidently intends. */
  datatype Containment = StringPrefix | SegmentBoundary

  predicate Contained(check: Containment, file: string, folder: string) {
    match check
    case StringPrefix => StartsWith(file, folder)
    case SegmentBoundary => WithinFolder(file, folder)
  }

  /** The decision `loadMediaFile` takes once the view check has answered
      `verdict`: a listed extension, a known wiki folder and a joined path
      that passes the containment test are needed before the file is
      opened. `wikiPath` is None when the wiki has no loaded folder. */
  function MediaDecision(check: Containment, verdict: Verdict, mimeMap: Tree, filePath: string,
                         wikiPath: Option<string>, found: bool, readOk: bool): (o: MediaOutcome)
    ensures o.target.Some? <==>
              verdict == Granted && MimeType(mimeMap, filePath).Some? && wikiPath.Some?
              && Contained(check, Join(FilesFolder(wikiPath.value), filePath), FilesFolder(wikiPath.value))
    ensures o.target.Some? ==> o.target.value == Join(FilesFolder(wikiPath.value), filePath)
    ensures o.reply.Served? <==> o.target.Some? && found && readOk
    ensures o.reply == NotFound <==> o.target.Some? && found && !readOk
    ensures o.reply.Served? ==> Some(o.reply.contentType) == MimeType(mimeMap, filePath)
    ensures o.reply == HeadOnly404 <==> verdict == Granted && MimeType(mimeMap, filePath).None?
    ensures o.reply == Thrown <==>
              verdict == TypeError || (verdict == Granted && MimeType(mimeMap, filePath).Some? && wikiPath.None?)
  {
    match verdict
    case TypeError => MediaOutcome(None, Thrown)
    case Refused => MediaOutcome(None, Silent)
    case Granted =>
      var mime := MimeType(mimeMap, filePath);
      if mime.None? then MediaOutcome(None, HeadOnly404)
      else if wikiPath.None? then MediaOutcome(None, Thrown)
      else
        var folder := FilesFolder(wikiPath.value);
        var file := Join(folder, filePath);
        if !Contained(check, file, folder) then MediaOutcome(None, Silent)
        else if !found then MediaOutcome(Some(file), Silent)
        else if !readOk then MediaOutcome(Some(file), NotFound)
        else MediaOutcome(Some(file), Served(mime.value))
  }

  /** The media folder of a wiki at an absolute normalised path: its
      segments are the wiki's and "files". */
  lemma FilesFolderOf(wiki: seq<string>)
    requires Clean(wiki) && wiki != []
    ensures FilesFolder(Rooted(wiki)) == Rooted(wiki + ["files"])
    ensures Clean(wiki + ["files"])
  {
    CleanAppend(wiki, ["files"]);
    assert Clean(["files"]);
    assert Rooted(["files"]) == "/" + ("files" + Rooted([]));
    assert Rooted(["files"])[1..] == "files";
    JoinInside(wiki, ["files"]);
  }

  /** Under either test, a listed file named by plain names below the
      media folder is opened there. */
  lemma PlainNamesOpened(check: Containment, mimeMap: Tree, wiki: seq<string>, rel: seq<string>,
                         found: bool, readOk: bool)
    requires Clean(wiki) && wiki != [] && Clean(rel) && rel != []
    requires MimeType(mimeMap, Rooted(rel)[1..]).Some?
    ensures MediaDecision(check, Granted, mimeMap, Rooted(rel)[1..], Some(Rooted(wiki)), found, readOk).target
            == Some(Rooted(wiki + ["files"] + rel))
  {
    FilesFolderOf(wiki);
    JoinInside(wiki + ["files"], rel);
  }

  /** Climbing out of the media folder into a sibling `other`: the joined
      path is the sibling's, and it fails the prefix test unless `other`
      begins with "files". */
  lemma ClimbOutPath(wiki: seq<string>, other: string, rest: seq<string>)
    requires Clean(wiki + ["files", other] + rest) && wiki != []
    ensures Join(FilesFolder(Rooted(wiki)), Rooted([".."] + [other] + rest)[1..]) == Rooted(wiki + [other] + rest)
    ensures StartsWith(Rooted(wiki + [other] + rest), FilesFolder(Rooted(wiki))) <==> StartsWith(other, "files")
  {
    assert wiki + ["files", other] + rest == (wiki + ["files"]) + ([other] + rest);
    CleanAppend(wiki + ["files"], [other] + rest);
    CleanAppend(wiki, ["files"]);
    FilesFolderOf(wiki);
    ClimbToSibling(wiki, "files", other, rest);
    SiblingPrefix(wiki, other, rest);
  }

  /** The sibling `other` of the media folder passes the string-prefix test
      exactly when its name begins with "files". */
  lemma SiblingPrefix(wiki: seq<string>, other: string, rest: seq<string>)
    requires Clean(wiki + ["files"]) && Clean([other] + rest) && wiki != []
    ensures StartsWith(Rooted(wiki + [other] + rest), Rooted(wiki + ["files"])) <==> StartsWith(other, "files")
  {
    CleanAppend(wiki, ["files"]);
    var file := wiki + [other] + rest;
    assert file == wiki + ([other] + rest);
    CleanAppend(wiki, [other] + rest);
    PrefixCheckOnSegments(file, wiki + ["files"]);
    var n := |wiki + ["files"]|;
    assert file[n - 1] == other;
    assert file[..n - 1] == wiki == (wiki + ["files"])[..n - 1];
  }

  /** Under either test, a request that climbs out of the media folder into
      a sibling whose name does not begin with "files" is never opened. */
  lemma ClimbOutNotOpened(check: Containment, mimeMap: Tree, wiki: seq<string>, other: string,
                          rest: seq<string>, verdict: Verdict, found: bool, readOk: bool)
    requires Clean(wiki + ["files", other] + rest) && wiki != [] && !StartsWith(other, "files")
    ensures MediaDecision(check, verdict, mimeMap, Rooted([".."] + [other] + rest)[1..],
                          Some(Rooted(wiki)), found, readOk).target.None?
  {
    ClimbOutPath(wiki, other, rest);
    ContainedIsPrefix(check, Rooted(wiki + [other] + rest), FilesFolder(Rooted(wiki)));
  }

  /** The segment-boundary test is the stricter one: what it admits the
      string prefix admits too. */
  lemma ContainedIsPrefix(check: Containment, file: string, folder: string)
    ensures Contained(check, file, folder) ==> StartsWith(file, folder)
  {
    if check == SegmentBoundary && StartsWith(file, folder + "/") {
      assert file[..|folder|] == (folder + "/")[..|folder|] == folder;
    }
  }

  /** As written, a request that climbs into a sibling folder whose name
      extends "files" (such as `files-old`) is opened, although the file
      lies outside the media folder; the segment-boundary test refuses it. */
  lemma SiblingFolderOpened(mimeMap: Tree, wiki: seq<string>, suffix: string, rest: seq<string>,
                            found: bool, readOk: bool)
    requires Clean(wiki + ["files", "files" + suffix] + rest) && wiki != [] && suffix != ""
    requires MimeType(mimeMap, Rooted([".."] + ["files" + suffix] + rest)[1..]).Some?
    ensures var filePath := Rooted([".."] + ["files" + suffix] + rest)[1..];
            var o := MediaDecision(StringPrefix, Granted, mimeMap, filePath, Some(Rooted(wiki)), found, readOk);
            && o.target.Some? && !WithinFolder(o.target.value, Rooted(wiki + ["files"]))
            && MediaDecision(SegmentBoundary, Granted, mimeMap, filePath, Some(Rooted(wiki)), found, readOk).target.None?
  {
    var all := wiki + ["files", "files" + suffix] + rest;
    assert all == (wiki + ["files"]) + (["files" + suffix] + rest);
    CleanAppend(wiki + ["files"], ["files" + suffix] + rest);
    CleanAppend(wiki, ["files"]);
    FilesFolderOf(wiki);
    SiblingFolderPasses(wiki, "files", suffix, rest);
  }

  /** With the segment-boundary test, whenever a file is opened and the
      joined path names the segments `file`, those segments begin with the
      wiki's folder followed by "files": nothing outside the media folder
      is ever opened. */
  lemma SegmentCheckStaysInside(mimeMap: Tree, wiki: seq<string>, filePath: string, file: seq<string>,
                                verdict: Verdict, found: bool, readOk: bool)
    requires Clean(wiki) && wiki != [] && Clean(file)
    ensures Join(Rooted(wiki + ["files"]), filePath) == Rooted(file)
            && MediaDecision(SegmentBoundary, verdict, mimeMap, filePath, Some(Rooted(wiki)), found, readOk).target.Some?
            ==> |file| > |wiki| && file[..|wiki| + 1] == wiki + ["files"]
  {
    FilesFolderOf(wiki);
    WithinFolderOnSegments(file, wiki + ["files"]);
  }

  /** As written, with the string-prefix test, an opened file still lies
      below the wiki's folder, in a segment whose name begins with "files":
      the media folder itself or a sibling such as `files-old`, and no
      further away. */
  lemma PrefixCheckStaysNearFolder(mimeMap: Tree, wiki: seq<string>, filePath: string, file: seq<string>,
                                   verdict: Verdict, found: bool, readOk: bool)
    requires Clean(wiki) && wiki != [] && Clean(file)
    ensures Join(Rooted(wiki + ["files"]), filePath) == Rooted(file)
            && MediaDecision(StringPrefix, verdict, mimeMap, filePath, Some(Rooted(wiki)), found, readOk).target.Some?
            ==> |file| > |wiki| && file[..|wiki|] == wiki && StartsWith(file[|wiki|], "files")
  {
    FilesFolderOf(wiki);
    PrefixCheckOnSegments(file, wiki + ["files"]);
    if |file| > |wiki| {
      assert (wiki + ["files"])[..|wiki|] == wiki;
    }
  }

  /** The TiddlyWiki settings object: `mimeMap`, None while unset. */
  class TwSettings {
    var mimeMap: Option<Tree>

    constructor(mimeMap: Option<Tree>)
      ensures this.mimeMap == mimeMap
    {
      this.mimeMap := mimeMap;
    }
  }

  /** `loadMediaFile(request, response)` for `/:wikiName/files/:filePath`:
      installs the built-in table when none is set, runs the view check,
      and opens the file only as MediaDecision allows. `found` and
      `readOk` are the outcomes of `fs.access` and `fs.readFile`. */
  method LoadMediaFile(settings: Settings, tw: TwSettings, wikiName: string, filePath: string,
                       decoded: Option<Identity>, wikiPath: Option<string>, found: bool, readOk: bool)
    returns (target: Option<string>, reply: MediaReply)
    requires PolicyShaped(settings.config, wikiName)
    modifies settings`config, tw`mimeMap
    ensures tw.mimeMap == Some(if old(tw.mimeMap).Some? then old(tw.mimeMap).value else BuiltinMimeMap)
    ensures settings.config == WithPolicyDefaults(old(settings.config), wikiName)
    ensures MediaOutcome(target, reply)
            == MediaDecision(StringPrefix, ViewVerdict(Policy(old(settings.config), wikiName), decoded),
                             tw.mimeMap.value, filePath, wikiPath, found, readOk)
  {
    if tw.mimeMap.None? {
      tw.mimeMap := Some(BuiltinMimeMap);
    }
    target, reply := None, Silent;
    var authorised := CheckAuthorisation(settings, decoded, wikiName);
    if authorised == TypeError {
      reply := Thrown;
      return;
    }
    if authorised == Granted {
      var mime := MimeType(tw.mimeMap.value, filePath);
      if mime.Some? {
        if wikiPath.None? {
          reply := Thrown;
          return;
        }
        var fileFolderPath := FilesFolder(wikiPath.value);
        var file := Join(fileFolderPath, filePath);
        if StartsWith(file, fileFolderPath) {
          target := Some(file);
          if found {
            reply := if readOk then Served(mime.value) else NotFound;
          }
        }
      } else {
        reply := HeadOnly404;
      }
    }
  }

  // ------------------------------------------------------------ new wikis

  /** The message that creates a wiki: `data.public` and `data.decoded`. */
  datatype NewWiki = NewWiki(public: Option<Value>, decoded: Option<Identity>)

  /** `data.public || false` */
  function PublicFlag(data: NewWiki): (v: Value)
    ensures Truthy(v) <==> data.public.Some? && Truthy(data.public.value)
    ensures Truthy(v) ==> v == data.public.value
  {
    if data.public.Some? && Truthy(data.public.value) then data.public.value else Bool(false)
  }

  /** The local tree after `initialiseWikiSettings(name, data)` has recorded
      `{public, owner}` for the wiki, replacing whatever was there. */
  function InitialisedLocal(local: Tree, name: string, data: NewWiki): Tree
    requires TableOrFalsy(local, "wikis") && data.decoded.Some?
  {
    WithWiki(local, name, map["public" := PublicFlag(data), "owner" := data.decoded.value.name])
  }

  datatype InitOutcome =
    | NoLocal                       // `settings.Local` is unset: TypeError
    | NoIdentity                    // `data.decoded` is unset: TypeError
    | Saved(written: Option<Tree>)  // handed to the save; what it wrote

  /** The save `initialiseWikiSettings` hands the local tree to: the
      module's `saveConfigSetting` as written, which leaves the live tree
      alone, or the save as evidently intended, which also merges what it
      writes into the live tree. */
  datatype SavePath = AsWritten | Intended

  /** `initialiseWikiSettings(name, data)`: records the new wiki in the
      local tree in place, then saves the whole local tree along `save`. */
  method InitialiseWikiSettings(settings: Settings, name: string, data: NewWiki, localFile: Read, writeOk: bool,
                                save: SavePath)
    returns (outcome: InitOutcome)
    requires settings.local.Some? ==> TableOrFalsy(settings.local.value, "wikis")
    requires settings.local.Some? && data.decoded.Some? ==>
               if save.Intended?
               then LiveSaveable(settings.config, localFile, InitialisedLocal(settings.local.value, name, data), writeOk)
               else Saveable(localFile, InitialisedLocal(settings.local.value, name, data))
    modifies settings
    ensures old(settings.local).None? ==>
              outcome == NoLocal && settings.local == old(settings.local) && settings.config == old(settings.config)
    ensures old(settings.local).Some? && data.decoded.None? ==>
              outcome == NoIdentity && settings.config == old(settings.config)
              && settings.local == Some(WithWiki(old(settings.local).value, name, map["public" := PublicFlag(data)]))
    ensures old(settings.local).Some? && data.decoded.Some? ==>
              var setting := InitialisedLocal(old(settings.local).value, name, data);
              && settings.local == Some(setting)
              && outcome.Saved?
              && (outcome.written.Some? <==> LocalText(localFile).Valid? && writeOk)
              && (outcome.written.Some? ==>
                    outcome.written.value == Persisted(localFile, setting)
                    && settings.config == if save.Intended? then Merge(old(settings.config), outcome.written.value)
                                          else old(settings.config))
              && (outcome.written.None? ==> settings.config == old(settings.config))
  {
    if settings.local.None? {
      return NoLocal;
    }
    var localSettings := settings.local.value;
    var wikis := Slot(localSettings, "wikis").entries;
    var policy: Tree := map[];
    policy := policy["public" := PublicFlag(data)];
    settings.local := Some(localSettings["wikis" := Table(wikis[name := Table(policy)])]);
    if data.decoded.None? {
      return NoIdentity;
    }
    policy := policy["owner" := data.decoded.value.name];
    settings.local := Some(localSettings["wikis" := Table(wikis[name := Table(policy)])]);
    var written;
    if save.AsWritten? {
      written := settings.SaveConfigSetting(settings.local.value, localFile, writeOk);
    } else {
      written := settings.SaveSetting(settings.local.value, localFile, writeOk);
    }
    outcome := Saved(written);
  }

  /** As written, the creator of a private wiki is shut out of it until the
      server restarts: with nothing on disk, the save writes the creator's
      ownership to the local file, but the live tree the view check reads
      still records nothing for the wiki. */
  method CreatorRefusedAsWritten(name: string, creator: string, level: string)
    returns (written: Option<Tree>, v: Verdict)
    ensures written == Some(map["wikis" := Table(map[name := Table(map["public" := Bool(false), "owner" := Str(creator)])])])
    ensures v == Refused
  {
    EmptyMergeable(map[]);
    var settings := new Settings.Load(Unreadable, Unreadable, Unreadable);
    MergeKeys(map[], map[]);
    assert settings.config == map[];
    var data := NewWiki(None, Some(Identity(Str(creator), level)));
    var setting := InitialisedLocal(map[], name, data);
    assert setting == map["wikis" := Table(map[name := Table(map["public" := Bool(false), "owner" := Str(creator)])])];
    MergeOntoEmpty(setting);
    var outcome := InitialiseWikiSettings(settings, name, data, Unreadable, true, AsWritten);
    written := outcome.written;
    UnrecordedWikiRefused(settings.config, name, data.decoded);
    v := CheckAuthorisation(settings, data.decoded, name);
  }

  /** With the save as intended, the creator of a wiki can view it as soon
      as the save has written: the live tree records them as its owner. */
  lemma CreatorCanViewNewWiki(live: Tree, local: Tree, name: string, data: NewWiki, localFile: Read)
    requires TableOrFalsy(local, "wikis") && data.decoded.Some? && data.decoded.value.name.Str?
    requires LocalText(localFile).Valid?
    requires LiveSaveable(live, localFile, InitialisedLocal(local, name, data), true)
    requires PolicyShaped(Merge(live, Persisted(localFile, InitialisedLocal(local, name, data))), name)
    ensures ViewVerdict(Policy(Merge(live, Persisted(localFile, InitialisedLocal(local, name, data))), name), data.decoded)
            == Granted
  {
    var setting := InitialisedLocal(local, name, data);
    var m := Merge(live, Persisted(localFile, setting));
    SavedSettingIsLive(live, localFile, setting);
    var entry := map["public" := PublicFlag(data), "owner" := data.decoded.value.name];
    assert setting["wikis"].entries[name] == Table(entry);
    assert setting["wikis"].entries != map[];
    assert m["wikis"].Table? && Covers(m["wikis"].entries, setting["wikis"].entries);
    var wikis := m["wikis"].entries;
    assert wikis[name].Table? && Covers(wikis[name].entries, entry);
    assert "owner" in entry;
    assert wikis[name].entries["owner"] == data.decoded.value.name;
    assert RecordedPolicy(m, name) == wikis[name].entries;
    assert Owns(Policy(m, name), data.decoded.value);
  }
}
