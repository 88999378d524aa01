/**
 * The parts of Node's `path` module (POSIX flavour) that startWiki.js uses to
 * find and vet a media file: `path.join` with its normalisation, and
 * `path.extname`; and the confinement test `file.startsWith(folder)`.
 */
module Paths {

  /** The pieces of `p` between its '/' characters: "a//b/" gives
      "a", "", "b", "" and "/a" gives "", "a". */
  function Split(p: string): (segs: seq<string>)
    ensures |segs| >= 1
    ensures forall i :: 0 <= i < |segs| ==> '/' !in segs[i]
    decreases |p|
  {
    if p == [] then [""]
    else
      var rest := Split(p[1..]);
      if p[0] == '/' then [""] + rest
      else [[p[0]] + rest[0]] + rest[1..]
  }

  /** The absolute path with the given segments: "/" before each one. */
  function Rooted(segs: seq<string>): (p: string)
    ensures segs != [] ==> |p| > 0 && p[0] == '/'
    ensures segs == [] ==> p == ""
  {
    if segs == [] then "" else "/" + segs[0] + Rooted(segs[1..])
  }

  predicate NoSlash(segs: seq<string>) {
    forall i :: 0 <= i < |segs| ==> '/' !in segs[i]
  }

  /** Segments that name something: none empty, ".", ".." or holding a '/'. */
  predicate Clean(segs: seq<string>) {
    forall i :: 0 <= i < |segs| ==> segs[i] != "" && segs[i] != "." && segs[i] != ".." && '/' !in segs[i]
  }

  /** One step of Node's `normalizeString`: empty and "." segments vanish,
      ".." drops the last kept segment (unless that is itself ".."), and is
      kept only where the path may climb above its start (a relative path). */
  function Step(acc: seq<string>, seg: string, aboveRoot: bool): seq<string> {
    if seg == "" || seg == "." then acc
    else if seg == ".." then
      if |acc| > 0 && acc[|acc| - 1] != ".." then acc[..|acc| - 1]
      else if aboveRoot then acc + [".."]
      else acc
    else acc + [seg]
  }

  function Resolve(acc: seq<string>, segs: seq<string>, aboveRoot: bool): seq<string>
    decreases |segs|
  {
    if segs == [] then acc else Resolve(Step(acc, segs[0], aboveRoot), segs[1..], aboveRoot)
  }

  /** `path.posix.normalize`. */
  function Normalize(p: string): string {
    if p == "" then "."
    else
      var absolute := p[0] == '/';
      var trailing := p[|p| - 1] == '/';
      var segs := Resolve([], Split(p), !absolute);
      if segs == [] then (if absolute then "/" else if trailing then "./" else ".")
      else (if absolute then Rooted(segs) else Rooted(segs)[1..]) + (if trailing then "/" else "")
  }

  /** `path.posix.join(a, b)`: the non-empty arguments joined with '/', then normalised. */
  function Join(a: string, b: string): string {
    if a == "" && b == "" then "."
    else if a == "" then Normalize(b)
    else if b == "" then Normalize(a)
    else Normalize(a + "/" + b)
  }

  /** `s.startsWith(prefix)`: the containment test startWiki.js applies
      to a media file, on the normalised joined path. */
  predicate StartsWith(s: string, prefix: string) {
    |prefix| <= |s| && s[..|prefix|] == prefix
  }

  /** Containment at a segment boundary: the folder itself, or a path that
      continues it with a '/'. */
  predicate WithinFolder(file: string, folder: string) {
    file == folder || StartsWith(file, folder + "/")
  }

  /** `path.extname`: from the last '.' of the last segment (trailing '/'s
      ignored) to its end; "" when that segment has no '.', starts with its
      only dots, or is "..". */
  function ExtName(p: string): (e: string)
    ensures e == "" || (e[0] == '.' && forall j :: 0 < j < |e| ==> e[j] != '.' && e[j] != '/')
  {
    var segs := Split(StripTrailing(p));
    var base := segs[|segs| - 1];
    var i := LastDot(base);
    if i <= 0 || base == ".." then "" else base[i..]
  }

  function StripTrailing(p: string): string
    decreases |p|
  {
    if p != [] && p[|p| - 1] == '/' then StripTrailing(p[..|p| - 1]) else p
  }

  /** The index of the last '.' in `s`, -1 when there is none. */
  function LastDot(s: string): (i: int)
    ensures -1 <= i < |s|
    ensures i >= 0 ==> s[i] == '.'
    ensures forall j :: i < j < |s| ==> s[j] != '.'
    decreases |s|
  {
    if s == [] then -1
    else if s[|s| - 1] == '.' then |s| - 1
    else LastDot(s[..|s| - 1])
  }

  /** `toLowerCase` on the ASCII letters. */
  function Lower(s: string): string {
    seq(|s|, i requires 0 <= i < |s| => if 'A' <= s[i] <= 'Z' then (s[i] as int + 32) as char else s[i])
  }

  // ---------------------------------------------------------------- lemmas

  lemma {:induction false} SplitSegment(s: string, t: string)
    requires '/' !in s
    ensures Split(s + t) == [s + Split(t)[0]] + Split(t)[1..]
    decreases |s|
  {
    if s == [] {
      assert s + t == t && s + Split(t)[0] == Split(t)[0];
      assert Split(t) == [Split(t)[0]] + Split(t)[1..];
    } else {
      var u := s + t;
      assert u[0] == s[0] && u[0] != '/';
      assert u[1..] == s[1..] + t;
      SplitSegment(s[1..], t);
      var rest := Split(u[1..]);
      assert Split(u) == [[u[0]] + rest[0]] + rest[1..];
      assert [s[0]] + (s[1..] + Split(t)[0]) == s + Split(t)[0];
    }
  }

  /** Splitting an absolute path built from segments gives those segments back. */
  lemma {:induction false} SplitRooted(segs: seq<string>)
    requires NoSlash(segs)
    ensures Split(Rooted(segs)) == [""] + segs
  {
    if segs != [] {
      var rest := Rooted(segs[1..]);
      var p := Rooted(segs);
      assert p == "/" + (segs[0] + rest);
      assert p[0] == '/' && p[1..] == segs[0] + rest;
      assert Split(p) == [""] + Split(p[1..]);
      SplitRooted(segs[1..]);
      SplitSegment(segs[0], rest);
      assert Split(rest)[0] == "" && Split(rest)[1..] == segs[1..];
      assert segs[0] + "" == segs[0];
      assert segs == [segs[0]] + segs[1..];
    }
  }

  lemma {:induction false} RootedAppend(a: seq<string>, b: seq<string>)
    ensures Rooted(a + b) == Rooted(a) + Rooted(b)
  {
    if a == [] {
      assert a + b == b;
    } else {
      assert (a + b)[0] == a[0] && (a + b)[1..] == a[1..] + b;
      RootedAppend(a[1..], b);
    }
  }

  /** An absolute path whose last segment is not empty does not end in '/'. */
  lemma {:induction false} RootedLast(segs: seq<string>)
    requires segs != [] && segs[|segs| - 1] != "" && '/' !in segs[|segs| - 1]
    ensures Rooted(segs)[|Rooted(segs)| - 1] != '/'
  {
    if |segs| == 1 {
      assert Rooted(segs) == "/" + segs[0];
    } else {
      RootedLast(segs[1..]);
    }
  }

  lemma {:induction false} ResolveAppend(acc: seq<string>, s: seq<string>, t: seq<string>, aboveRoot: bool)
    ensures Resolve(acc, s + t, aboveRoot) == Resolve(Resolve(acc, s, aboveRoot), t, aboveRoot)
    decreases |s|
  {
    if s == [] {
      assert s + t == t;
    } else {
      assert (s + t)[1..] == s[1..] + t;
      ResolveAppend(Step(acc, s[0], aboveRoot), s[1..], t, aboveRoot);
    }
  }

  /** Normalisation keeps segments that name something as they are. */
  lemma {:induction false} ResolveClean(acc: seq<string>, segs: seq<string>, aboveRoot: bool)
    requires Clean(segs)
    ensures Resolve(acc, segs, aboveRoot) == acc + segs
    decreases |segs|
  {
    if segs != [] {
      ResolveClean(acc + [segs[0]], segs[1..], aboveRoot);
      assert acc + [segs[0]] + segs[1..] == acc + segs;
    }
  }

  /** An absolute path normalises to segments that all name something: no
      ".." survives, so no normalised absolute path climbs above the root. */
  lemma {:induction false} ResolveAbsoluteIsClean(acc: seq<string>, segs: seq<string>)
    requires Clean(acc) && NoSlash(segs)
    ensures Clean(Resolve(acc, segs, false))
    decreases |segs|
  {
    if segs != [] {
      ResolveAbsoluteIsClean(Step(acc, segs[0], false), segs[1..]);
    }
  }

  /** Normalising an absolute path built from segments, the last of which is
      not empty: the resolved segments, or "/" when none is left. */
  lemma NormalizeRooted(segs: seq<string>)
    requires NoSlash(segs) && segs != [] && segs[|segs| - 1] != ""
    ensures var r := Resolve([], segs, false);
            Clean(r) && Normalize(Rooted(segs)) == if r == [] then "/" else Rooted(r)
  {
    SplitRooted(segs);
    RootedLast(segs);
    ResolveAppend([], [""], segs, false);
    ResolveAbsoluteIsClean([], segs);
  }

  /** Segments that name something stay so when split in two, and back. */
  lemma CleanAppend(a: seq<string>, b: seq<string>)
    ensures Clean(a + b) <==> Clean(a) && Clean(b)
  {
    var ab := a + b;
    assert forall i :: 0 <= i < |a| ==> ab[i] == a[i];
    assert forall i :: 0 <= i < |b| ==> ab[|a| + i] == b[i];
  }

  /** An absolute path of plain names is already normal. */
  lemma NormalizeClean(segs: seq<string>)
    requires Clean(segs) && segs != []
    ensures Normalize(Rooted(segs)) == Rooted(segs)
  {
    assert segs[|segs| - 1] != "";
    NormalizeRooted(segs);
    ResolveClean([], segs, false);
    assert [] + segs == segs;
  }

  /** A relative path of plain names: the absolute one without its '/'. */
  lemma RootedTail(rel: seq<string>)
    requires Clean(rel) && rel != []
    ensures Rooted(rel) == "/" + Rooted(rel)[1..] && Rooted(rel)[1..] != ""
  {
    assert rel[0] != "";
    assert Rooted(rel) == "/" + (rel[0] + Rooted(rel[1..]));
  }

  /** A path that continues `f` with a '/' passes both containment tests. */
  lemma ContinuesFolder(f: string, r: string)
    requires r != "" && r[0] == '/'
    ensures StartsWith(f + r, f) && WithinFolder(f + r, f)
  {
    var w := f + r;
    assert w[..|f|] == f;
    assert w[..|f| + 1] == f + "/";
  }

  /** Joining a normalised folder with a relative path of plain names
      appends those names: such a path always passes both containment tests. */
  lemma JoinInside(folder: seq<string>, rel: seq<string>)
    requires Clean(folder) && folder != [] && Clean(rel) && rel != []
    ensures Join(Rooted(folder), Rooted(rel)[1..]) == Rooted(folder + rel)
    ensures StartsWith(Rooted(folder + rel), Rooted(folder))
    ensures WithinFolder(Rooted(folder + rel), Rooted(folder))
  {
    CleanAppend(folder, rel);
    var f, r := Rooted(folder), Rooted(rel);
    RootedAppend(folder, rel);
    RootedTail(rel);
    JoinBoth(f, r[1..]);
    assert f + "/" + r[1..] == f + r;
    NormalizeClean(folder + rel);
    ContinuesFolder(f, r);
  }

  /** Resolving `parent/name/../t` drops `name` and its "..". */
  lemma ResolveClimb(parent: seq<string>, name: string, t: seq<string>)
    requires Clean(parent + [name]) && Clean(t)
    ensures Resolve([], (parent + [name] + [".."]) + t, false) == parent + t
  {
    var a := parent + [name];
    ResolveAppend([], a + [".."], t, false);
    ResolveAppend([], a, [".."], false);
    ResolveClean([], a, false);
    assert [] + a == a;
    assert Resolve(a, [".."], false) == Step(a, "..", false);
    assert a[..|a| - 1] == parent;
    ResolveClean(parent, t, false);
  }

  lemma NoSlashAppend(a: seq<string>, b: seq<string>)
    requires NoSlash(a) && NoSlash(b)
    ensures NoSlash(a + b)
  {
    var ab := a + b;
    assert forall i :: 0 <= i < |ab| ==> ab[i] == if i < |a| then a[i] else b[i - |a|];
  }

  /** Normalising `/parent/name/../t` gives `/parent/t`. */
  lemma NormalizeClimb(parent: seq<string>, name: string, t: seq<string>)
    requires Clean(parent + [name]) && Clean(t) && t != []
    ensures Normalize(Rooted((parent + [name] + [".."]) + t)) == Rooted(parent + t)
  {
    var a := parent + [name];
    var segs := (a + [".."]) + t;
    NoSlashAppend(a, [".."]);
    NoSlashAppend(a + [".."], t);
    assert segs[|segs| - 1] == t[|t| - 1];
    NormalizeRooted(segs);
    ResolveClimb(parent, name, t);
  }

  lemma RootedCons(x: string, rest: seq<string>)
    ensures Rooted([x] + rest) == "/" + (x + Rooted(rest))
  {
    assert ([x] + rest)[0] == x && ([x] + rest)[1..] == rest;
  }

  /** `path.join` of two non-empty paths normalises them joined by '/'. */
  lemma JoinBoth(a: string, b: string)
    requires a != "" && b != ""
    ensures Join(a, b) == Normalize(a + "/" + b)
  {
  }

  /** Climbing one level out of `parent/name` and into a sibling `other`:
      the joined path is `parent/other/rest`. */
  lemma ClimbToSibling(parent: seq<string>, name: string, other: string, rest: seq<string>)
    requires Clean(parent + [name, other] + rest)
    ensures Join(Rooted(parent + [name]), Rooted([".."] + [other] + rest)[1..]) == Rooted(parent + [other] + rest)
  {
    var a, t := parent + [name], [other] + rest;
    assert Clean(a) && Clean(t) by {
      assert parent + [name, other] + rest == a + t;
      CleanAppend(a, t);
    }
    ClimbJoin(parent, name, t, [".."] + [other] + rest, parent + [other] + rest);
  }

  /** `climb` is `../t` and `landed` is `parent/t`. */
  lemma ClimbJoin(parent: seq<string>, name: string, t: seq<string>, climb: seq<string>, landed: seq<string>)
    requires Clean(parent + [name]) && Clean(t) && t != []
    requires climb == [".."] + t && landed == parent + t
    ensures Join(Rooted(parent + [name]), Rooted(climb)[1..]) == Rooted(landed)
  {
    ClimbText(parent + [name], t);
    NormalizeClimb(parent, name, t);
  }

  /** Joining a path with one that starts by climbing: the text normalised
      is the path followed by "..", then the rest. */
  lemma ClimbText(a: seq<string>, t: seq<string>)
    requires a != []
    ensures Join(Rooted(a), Rooted([".."] + t)[1..]) == Normalize(Rooted((a + [".."]) + t))
  {
    ClimbString(a, t);
    JoinBoth(Rooted(a), Rooted([".."] + t)[1..]);
  }

  lemma ClimbString(a: seq<string>, t: seq<string>)
    requires a != []
    ensures Rooted(a) != "" && Rooted([".."] + t)[1..] != ""
    ensures Rooted(a) + "/" + Rooted([".."] + t)[1..] == Rooted((a + [".."]) + t)
  {
    RootedCons("..", t);
    var r := Rooted([".."] + t);
    var tail := ".." + Rooted(t);
    assert r == "/" + tail && r[1..] == tail;
    RootedFirst(a);
    assert Rooted(a) + "/" + tail == Rooted(a) + r;
    RootedAppend(a, [".."] + t);
    assert a + ([".."] + t) == (a + [".."]) + t;
  }

  lemma PrefixAtSlash(s: string, t: string, f: string)
    requires '/' !in s && '/' !in f && (t == "" || t[0] == '/')
    ensures StartsWith(s + t, f) <==> StartsWith(s, f)
  {
    if |f| <= |s| {
      assert (s + t)[..|f|] == s[..|f|];
    } else if |s + t| >= |f| {
      assert (s + t)[|s|] == '/' && f[|s|] != '/';
    }
  }

  lemma PrefixOfSegment(s: string, t: string, f: string, u: string)
    requires '/' !in s && '/' !in f && (t == "" || t[0] == '/') && u != "" && u[0] == '/'
    ensures StartsWith(s + t, f + u) <==> s == f && StartsWith(t, u)
  {
    var st, fu := s + t, f + u;
    if |s| < |f| && |st| > |s| {
      assert st[|s|] == '/' && fu[|s|] != '/';
    } else if |s| > |f| {
      assert fu[|f|] == '/' && st[|f|] != '/';
    }
    if StartsWith(st, fu) {
      assert |s| == |f|;
      assert s == st[..|s|] == fu[..|f|] == f;
      assert st[|s|..] == t;
      assert fu[|f|..] == u;
    }
  }

  lemma StartsWithSlash(x: string, y: string)
    ensures StartsWith("/" + x, "/" + y) <==> StartsWith(x, y)
  {
    if |y| <= |x| {
      var a, b := ("/" + x)[..|y| + 1], "/" + y;
      assert a == "/" + x[..|y|];
      assert a[1..] == x[..|y|] && b[1..] == y;
    }
  }

  /** The file's segments agree with the folder's but for the last, where
      the file's segment need only begin with the folder's. */
  predicate ExtendsName(file: seq<string>, folder: seq<string>)
    requires folder != []
  {
    |file| >= |folder| && file[..|folder| - 1] == folder[..|folder| - 1]
    && StartsWith(file[|folder| - 1], folder[|folder| - 1])
  }

  lemma ExtendsNameStep(file: seq<string>, folder: seq<string>)
    requires |folder| >= 2 && file != []
    ensures ExtendsName(file, folder) <==> file[0] == folder[0] && ExtendsName(file[1..], folder[1..])
  {
    var n := |folder|;
    if |file| >= n {
      assert file[..n - 1] == [file[0]] + file[1..][..n - 2];
      assert folder[..n - 1] == [folder[0]] + folder[1..][..n - 2];
      assert file[n - 1] == file[1..][n - 2] && folder[n - 1] == folder[1..][n - 2];
    }
  }

  lemma CleanTail(segs: seq<string>)
    requires Clean(segs) && segs != []
    ensures Clean(segs[1..]) && '/' !in segs[0]
  {
    var tail := segs[1..];
    assert forall i :: 0 <= i < |tail| ==> tail[i] == segs[i + 1];
  }

  lemma RootedFirst(segs: seq<string>)
    requires segs != []
    ensures Rooted(segs) == "/" + (segs[0] + Rooted(segs[1..]))
  {
    var r := Rooted(segs[1..]);
    assert "/" + segs[0] + r == "/" + (segs[0] + r);
  }

  /** Peeling the first segment off an absolute path of plain names. */
  lemma RootedUncons(segs: seq<string>)
    requires Clean(segs) && segs != []
    ensures Rooted(segs) == "/" + (segs[0] + Rooted(segs[1..]))
    ensures Clean(segs[1..]) && '/' !in segs[0]
    ensures Rooted(segs[1..]) == "" || Rooted(segs[1..])[0] == '/'
    ensures |segs| == 1 ==> segs[0] + Rooted(segs[1..]) == segs[0]
  {
    CleanTail(segs);
    RootedFirst(segs);
    if |segs| == 1 {
      assert segs[0] + Rooted([]) == segs[0];
    }
  }

  /** On normalised paths the check `file.startsWith(folder)` admits exactly
      the files whose segments agree with the folder's but for the last, and
      whose segment there only has to BEGIN with the folder's name. */
  lemma {:induction false} PrefixCheckOnSegments(file: seq<string>, folder: seq<string>)
    requires Clean(file) && Clean(folder) && folder != []
    ensures StartsWith(Rooted(file), Rooted(folder)) <==> ExtendsName(file, folder)
  {
    if file != [] {
      RootedUncons(file);
      RootedUncons(folder);
      var x, y := file[0] + Rooted(file[1..]), folder[0] + Rooted(folder[1..]);
      StartsWithSlash(x, y);
      if |folder| == 1 {
        PrefixAtSlash(file[0], Rooted(file[1..]), folder[0]);
        assert file[..0] == folder[..0];
      } else {
        PrefixOfSegment(file[0], Rooted(file[1..]), folder[0], Rooted(folder[1..]));
        PrefixCheckOnSegments(file[1..], folder[1..]);
        ExtendsNameStep(file, folder);
      }
    }
  }

  /** The file's segments begin with all of the folder's. */
  predicate BeginsWith(file: seq<string>, folder: seq<string>) {
    |file| >= |folder| && file[..|folder|] == folder
  }

  lemma BeginsWithStep(file: seq<string>, folder: seq<string>)
    requires file != [] && folder != []
    ensures BeginsWith(file, folder) <==> file[0] == folder[0] && BeginsWith(file[1..], folder[1..])
  {
    if |file| >= |folder| {
      assert file[..|folder|] == [file[0]] + file[1..][..|folder| - 1];
      assert folder == [folder[0]] + folder[1..];
    }
  }

  lemma WithinCons(x: string, y: string)
    ensures WithinFolder("/" + x, "/" + y) <==> WithinFolder(x, y)
  {
    StartsWithSlash(x, y + "/");
    assert "/" + y + "/" == "/" + (y + "/");
    if "/" + x == "/" + y {
      assert x == ("/" + x)[1..] && y == ("/" + y)[1..];
    }
  }

  lemma WithinLast(s: string, t: string, f: string)
    requires '/' !in s && '/' !in f && (t == "" || t[0] == '/')
    ensures WithinFolder(s + t, f) <==> s == f
  {
    PrefixOfSegment(s, t, f, "/");
    if t == "" {
      assert s + t == s;
    } else if |s + t| == |f| {
      assert (s + t)[|s|] == '/' && f[|s|] != '/';
    }
    if t != "" && s == f {
      assert StartsWith(t, "/");
    }
  }

  lemma WithinSegment(s: string, t: string, f: string, u: string)
    requires '/' !in s && '/' !in f && (t == "" || t[0] == '/') && u != "" && u[0] == '/'
    ensures WithinFolder(s + t, f + u) <==> s == f && WithinFolder(t, u)
  {
    PrefixOfSegment(s, t, f, u + "/");
    assert f + u + "/" == f + (u + "/");
    PrefixOfSegment(s, t, f, u);
    if s + t == f + u {
      assert StartsWith(s + t, f + u);
      assert t == (s + t)[|s|..] && u == (f + u)[|f|..];
    }
  }

  /** On normalised paths the segment-boundary test admits exactly the files
      under the folder: those whose segments begin with all of the folder's. */
  lemma {:induction false} WithinFolderOnSegments(file: seq<string>, folder: seq<string>)
    requires Clean(file) && Clean(folder) && folder != []
    ensures WithinFolder(Rooted(file), Rooted(folder)) <==> BeginsWith(file, folder)
  {
    if file != [] {
      RootedUncons(file);
      RootedUncons(folder);
      var x, y := file[0] + Rooted(file[1..]), folder[0] + Rooted(folder[1..]);
      WithinCons(x, y);
      BeginsWithStep(file, folder);
      if |folder| == 1 {
        WithinLast(file[0], Rooted(file[1..]), folder[0]);
      } else {
        WithinSegment(file[0], Rooted(file[1..]), folder[0], Rooted(folder[1..]));
        WithinFolderOnSegments(file[1..], folder[1..]);
      }
    }
  }

  /** The sibling-folder gap in the check as written: from `parent/name`,
      the path `../<name><suffix>/...` leaves the folder, yet passes the
      prefix test, while the segment-boundary test refuses it. */
  lemma SiblingFolderPasses(parent: seq<string>, name: string, suffix: string, rest: seq<string>)
    requires Clean(parent + [name, name + suffix] + rest) && suffix != ""
    ensures var folder := Rooted(parent + [name]);
            var file := Join(folder, Rooted([".."] + [name + suffix] + rest)[1..]);
            StartsWith(file, folder) && !WithinFolder(file, folder)
  {
    ClimbToSibling(parent, name, name + suffix, rest);
    var file := parent + [name + suffix] + rest;
    var folder := parent + [name];
    assert parent + [name, name + suffix] + rest == parent + ([name] + [name + suffix]) + rest;
    CleanAppend(parent + [name, name + suffix], rest);
    CleanAppend(parent, [name, name + suffix]);
    CleanAppend(parent + [name + suffix], rest);
    CleanAppend(parent, [name + suffix]);
    CleanAppend(parent, [name]);
    assert [name, name + suffix][0] == name && [name, name + suffix][1] == name + suffix;
    PrefixCheckOnSegments(file, folder);
    WithinFolderOnSegments(file, folder);
    var n := |folder|;
    assert file[..n - 1] == parent == folder[..n - 1];
    assert file[n - 1] == name + suffix && (name + suffix)[..|name|] == name;
    assert file[..n][n - 1] != folder[n - 1];
    assert !BeginsWith(file, folder);
  }
}
