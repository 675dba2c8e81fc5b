/**
 * `require` and its support: the search path `RequirePath` kept in step
 * with `sys.path`, the mtime-keyed cache `JsCode` of file contents, the
 * choice of loader by language, and how a script module is located and
 * named and how a Python module path is split.
 *
 * The file system is a parameter: for each path, whether `os.access`
 * grants reading, the modification time `os.stat` reports and the
 * contents `read()` returns. Python's import machinery is a parameter of
 * `RequirePy`; evaluating a located script is not modelled.
 */
module Require {
  import opened PyValues

  // ---------------------------------------------------------------------
  // Lists

  /** The position of the first occurrence of `x`. */
  function IndexOf<T(==)>(s: seq<T>, x: T): (i: nat)
    requires x in s
    ensures i < |s| && s[i] == x && x !in s[..i]
  {
    if s[0] == x then 0
    else
      var i := 1 + IndexOf(s[1..], x);
      assert s[..i] == [s[0]] + s[1..][..i - 1];
      i
  }

  /** `r` is `s` without its element at `i`, and that element is the
      first `x` in `s`; the others keep their order. */
  predicate RemovedAt<T(==)>(s: seq<T>, x: T, r: seq<T>, i: nat) {
    i < |s| && s[i] == x && x !in s[..i] && r == s[..i] + s[i + 1..]
  }

  /** `r` is `s` with its first occurrence of `x` removed. */
  ghost predicate RemovedFirst<T>(s: seq<T>, x: T, r: seq<T>) {
    exists i: nat :: RemovedAt(s, x, r, i)
  }

  /** What is left after removing the first `x` is one shorter and holds
      one `x` fewer. */
  lemma RemovedFirstCounts<T>(s: seq<T>, x: T, r: seq<T>)
    requires RemovedFirst(s, x, r)
    ensures |r| == |s| - 1
    ensures multiset(r) == multiset(s) - multiset{x}
  {
    var i: nat :| RemovedAt(s, x, r, i);
    assert s == s[..i] + [x] + s[i + 1..];
  }

  /** `list.remove(x)`: the first occurrence of `x` goes, nothing else. */
  function RemoveFirst<T(==)>(s: seq<T>, x: T): (r: seq<T>)
    requires x in s
    ensures RemovedFirst(s, x, r)
    ensures |r| == |s| - 1
    ensures multiset(r) == multiset(s) - multiset{x}
  {
    var i := IndexOf(s, x);
    var r := s[..i] + s[i + 1..];
    assert RemovedAt(s, x, r, i);
    RemovedFirstCounts(s, x, r);
    r
  }

  /** Removing an element just appended to a list without it gives the
      list back. */
  lemma RemoveFirstAppended<T>(s: seq<T>, x: T)
    requires x !in s
    ensures RemoveFirst(s + [x], x) == s
  {
    var t := s + [x];
    assert t[..|s|] == s;
  }

  // ---------------------------------------------------------------------
  // The search path

  /** `RequirePath` as the module initialises it. */
  function DefaultRequirePath(home: string): (rp: seq<string>)
    ensures |rp| == 4 && rp[3] == "/usr/local/dreadnought/d-mods"
  {
    ["./", "./d-mods/", home + "/.d-mods/", "/usr/local/dreadnought/d-mods"]
  }

  /** `addPath(path)`: the search path and `sys.path`, after the call. */
  function AddPathSpec(rp: seq<string>, sp: seq<string>, path: string): (r: (seq<string>, seq<string>))
    ensures path in rp ==> r == (rp, sp)
    ensures path !in rp ==> r.0 == rp + [path]
    ensures path !in rp && path !in sp ==> r.1 == sp + [path]
    ensures path in sp ==> r.1 == sp
  {
    if path in rp then (rp, sp)
    else (rp + [path], if path in sp then sp else sp + [path])
  }

  /** `removePath(path)`: the search path and `sys.path`, after the call. */
  function RemovePathSpec(rp: seq<string>, sp: seq<string>, path: string): (r: (seq<string>, seq<string>))
    ensures path !in rp ==> r == (rp, sp)
    ensures path in rp ==> RemovedFirst(rp, path, r.0)
    ensures path in rp && path in sp ==> RemovedFirst(sp, path, r.1)
    ensures path in rp ==> |r.0| == |rp| - 1 && multiset(r.0) == multiset(rp) - multiset{path}
    ensures path in rp && path in sp ==> |r.1| == |sp| - 1 && multiset(r.1) == multiset(sp) - multiset{path}
    ensures path !in sp ==> r.1 == sp
  {
    if path !in rp then (rp, sp)
    else (RemoveFirst(rp, path), if path in sp then RemoveFirst(sp, path) else sp)
  }

  /** Adding a path twice is adding it once. */
  lemma AddPathIdempotent(rp: seq<string>, sp: seq<string>, path: string)
    ensures var (rp1, sp1) := AddPathSpec(rp, sp, path);
      AddPathSpec(rp1, sp1, path) == (rp1, sp1)
  {
  }

  /** Adding a path that neither list holds and then removing it restores
      both lists. */
  lemma AddThenRemove(rp: seq<string>, sp: seq<string>, path: string)
    requires path !in rp && path !in sp
    ensures var (rp1, sp1) := AddPathSpec(rp, sp, path);
      RemovePathSpec(rp1, sp1, path) == (rp, sp)
  {
    RemoveFirstAppended(rp, path);
    RemoveFirstAppended(sp, path);
  }

  /** The two lists are in step: the search path has no repeats, and
      every directory on it is also on `sys.path`. */
  predicate InStep(rp: seq<string>, sp: seq<string>) {
    (forall a, b :: 0 <= a < b < |rp| ==> rp[a] != rp[b])
    && (forall p :: p in rp ==> p in sp)
  }

  /** `addPath` keeps the lists in step. */
  lemma AddPathInStep(rp: seq<string>, sp: seq<string>, path: string)
    requires InStep(rp, sp)
    ensures var (rp1, sp1) := AddPathSpec(rp, sp, path); InStep(rp1, sp1)
  {
  }

  /** Removing the first `x` keeps every other element. */
  lemma RemoveFirstKeeps<T>(s: seq<T>, x: T, y: T)
    requires x in s && y in s && y != x
    ensures y in RemoveFirst(s, x)
  {
    assert multiset(RemoveFirst(s, x))[y] == multiset(s)[y];
  }

  /** Removing from a list without repeats leaves a list without repeats,
      and without the element removed. */
  lemma RemoveFirstDistinct<T>(s: seq<T>, x: T)
    requires x in s
    requires forall a, b :: 0 <= a < b < |s| ==> s[a] != s[b]
    ensures var r := RemoveFirst(s, x);
      (forall a, b :: 0 <= a < b < |r| ==> r[a] != r[b]) && x !in r
  {
    var i := IndexOf(s, x);
    var r := RemoveFirst(s, x);
    assert r == s[..i] + s[i + 1..];
    RemovedAtShifts(s, r, i);
  }

  /** After removing position `i`, the elements from `i` on move down by
      one. */
  lemma RemovedAtShifts<T>(s: seq<T>, r: seq<T>, i: nat)
    requires i < |s| && r == s[..i] + s[i + 1..]
    ensures |r| == |s| - 1
    ensures forall a :: 0 <= a < |r| ==> r[a] == s[if a < i then a else a + 1]
  {
  }

  /** `removePath` keeps the lists in step, and the path is off the search
      path afterwards. */
  lemma RemovePathInStep(rp: seq<string>, sp: seq<string>, path: string)
    requires InStep(rp, sp)
    ensures var (rp1, sp1) := RemovePathSpec(rp, sp, path); InStep(rp1, sp1) && path !in rp1
  {
    if path in rp {
      RemoveFirstDistinct(rp, path);
      var (rp1, sp1) := RemovePathSpec(rp, sp, path);
      forall p | p in rp1
        ensures p in sp1
      {
        assert p in multiset(rp1);
        assert p in rp && p != path;
        if path in sp {
          RemoveFirstKeeps(sp, path, p);
        }
      }
    }
  }

  /** The default search path has no repeats, whatever the home
      directory. */
  lemma DefaultDistinct(home: string)
    ensures forall a, b :: 0 <= a < b < 4 ==> DefaultRequirePath(home)[a] != DefaultRequirePath(home)[b]
  {
    var rp := DefaultRequirePath(home);
    var d := home + "/.d-mods/";
    assert rp[2] == d && |d| == |home| + 9;
    assert d[|d| - 1] == '/' && d[|home|] == '/';
    assert rp[1][0] == '.' && rp[3][|rp[3]| - 1] == 's';
  }

  // ---------------------------------------------------------------------
  // The file cache

  /** What the operating system reports about a path. */
  datatype FileInfo = FileInfo(readable: bool, mtime: int, contents: string)

  type FileSystem = map<string, FileInfo>

  /** `os.access(f, os.R_OK)`: a missing file is not readable. */
  predicate CanRead(fs: FileSystem, f: string) {
    f in fs && fs[f].readable
  }

  /** The cache `JsCode`: path to (mtime, contents) as last read. */
  type Cache = map<string, (int, string)>

  /** `_file_data(f)` and the cache afterwards: None when the file cannot
      be read; the cached contents when the cached mtime is the current
      one; otherwise the contents read now, which the cache then holds with
      the current mtime. */
  function FileDataSpec(fs: FileSystem, cache: Cache, f: string): (r: (Option<string>, Cache))
    ensures !CanRead(fs, f) ==> r == (None, cache)
    ensures CanRead(fs, f) ==> r.0.Some? && f in r.1 && r.1[f] == (fs[f].mtime, r.0.value)
    ensures CanRead(fs, f) && f in cache && cache[f].0 == fs[f].mtime ==> r == (Some(cache[f].1), cache)
    ensures CanRead(fs, f) && !(f in cache && cache[f].0 == fs[f].mtime) ==> r.0 == Some(fs[f].contents)
    ensures r.1.Keys == cache.Keys + (if CanRead(fs, f) then {f} else {})
    ensures forall g :: g in cache && g != f ==> r.1[g] == cache[g]
  {
    if !CanRead(fs, f) then (None, cache)
    else if f in cache && cache[f].0 == fs[f].mtime then (Some(cache[f].1), cache)
    else (Some(fs[f].contents), cache[f := (fs[f].mtime, fs[f].contents)])
  }

  /** Every cached entry whose mtime is still current holds the file's
      contents: true as long as a file's contents never change without its
      mtime changing. */
  predicate Coherent(fs: FileSystem, cache: Cache) {
    forall g :: g in cache && g in fs && cache[g].0 == fs[g].mtime ==> cache[g].1 == fs[g].contents
  }

  /** On a coherent cache, `_file_data` returns what a fresh read would,
      and the cache stays coherent. */
  lemma FileDataTransparent(fs: FileSystem, cache: Cache, f: string)
    requires Coherent(fs, cache)
    ensures var (data, cache1) := FileDataSpec(fs, cache, f);
      && (CanRead(fs, f) ==> data == Some(fs[f].contents))
      && Coherent(fs, cache1)
  {
  }

  /** A file rewritten without its mtime changing is served from the cache
      with its old contents. */
  lemma FileDataStale(fs: FileSystem, cache: Cache, f: string, old_: string)
    requires CanRead(fs, f) && f in cache && cache[f] == (fs[f].mtime, old_)
    ensures FileDataSpec(fs, cache, f).0 == Some(old_)
  {
  }

  // ---------------------------------------------------------------------
  // Strings and names

  predicate EndsWith(s: string, suffix: string) {
    |suffix| <= |s| && s[|s| - |suffix|..] == suffix
  }

  /** `s.split(sep)` */
  function Split(s: string, sep: char): (parts: seq<string>)
    ensures |parts| >= 1
    ensures forall i :: 0 <= i < |parts| ==> sep !in parts[i]
    ensures |parts| > 1 <==> sep in s
    decreases |s|
  {
    if s == [] then [""]
    else
      var rest := Split(s[1..], sep);
      assert sep in s <==> s[0] == sep || sep in s[1..];
      if s[0] == sep then [""] + rest
      else [[s[0]] + rest[0]] + rest[1..]
  }

  /** `sep.join(parts)` */
  function Join(parts: seq<string>, sep: char): string
    requires |parts| >= 1
    decreases |parts|
  {
    if |parts| == 1 then parts[0] else parts[0] + [sep] + Join(parts[1..], sep)
  }

  /** Joining a piece in front of at least one more puts a separator
      between them. */
  lemma JoinCons(p: string, rest: seq<string>, sep: char)
    requires |rest| >= 1
    ensures Join([p] + rest, sep) == p + [sep] + Join(rest, sep)
  {
    assert ([p] + rest)[1..] == rest;
  }

  /** Joining the pieces of a split gives the string back. */
  lemma {:induction false} JoinSplit(s: string, sep: char)
    ensures Join(Split(s, sep), sep) == s
    decreases |s|
  {
    if s != [] {
      JoinSplit(s[1..], sep);
      JoinSplitStep(s, sep);
    }
  }

  /** The step of `JoinSplit`: the split of `s` rejoins to `s` when the
      split of its tail rejoins to the tail. */
  lemma JoinSplitStep(s: string, sep: char)
    requires s != [] && Join(Split(s[1..], sep), sep) == s[1..]
    ensures Join(Split(s, sep), sep) == s
  {
    var rest := Split(s[1..], sep);
    assert s == [s[0]] + s[1..];
    if s[0] == sep {
      JoinCons("", rest, sep);
    } else if |rest| == 1 {
      assert Join([[s[0]] + rest[0]], sep) == [s[0]] + rest[0];
    } else {
      assert rest == [rest[0]] + rest[1..];
      JoinCons([s[0]] + rest[0], rest[1..], sep);
      JoinCons(rest[0], rest[1..], sep);
    }
  }

  /** The pieces before the last, joined, followed by the separator and the
      last piece, give the whole joined string. */
  lemma {:induction false} JoinLast(parts: seq<string>, sep: char)
    requires |parts| >= 2
    ensures Join(parts, sep) == Join(parts[..|parts| - 1], sep) + [sep] + parts[|parts| - 1]
    decreases |parts|
  {
    if |parts| > 2 {
      JoinLast(parts[1..], sep);
      assert parts[1..][..|parts| - 2] == parts[..|parts| - 1][1..];
    }
  }

  /** The last piece of a split is a tail of the string; when there are
      several pieces, the separator precedes it and the other pieces,
      joined, come before that. */
  lemma SplitLast(s: string, sep: char)
    ensures var parts := Split(s, sep);
      var last := parts[|parts| - 1];
      && |last| <= |s| && s[|s| - |last|..] == last
      && (|parts| == 1 ==> last == s)
      && (|parts| > 1 ==> s == Join(parts[..|parts| - 1], sep) + [sep] + last)
  {
    var parts := Split(s, sep);
    JoinSplit(s, sep);
    if |parts| > 1 {
      JoinLast(parts, sep);
    }
  }

  /** `filename.split('/')[-1].split('.')[0]`: the last path component cut
      at its first dot. */
  function ModuleName(filename: string): (name: string)
    ensures '.' !in name
  {
    var parts := Split(filename, '/');
    Split(parts[|parts| - 1], '.')[0]
  }

  /** The first piece of a split is how the string begins, and the
      separator follows it unless it is the whole string. */
  lemma {:induction false} FirstPiece(s: string, sep: char)
    ensures var p := Split(s, sep)[0];
      && |p| <= |s| && s[..|p|] == p
      && (|p| < |s| ==> s[|p|] == sep)
    decreases |s|
  {
    if s != [] && s[0] != sep {
      FirstPiece(s[1..], sep);
    }
  }

  /** The module name is how the last path component begins, and the
      component goes on with a dot unless the name is all of it. */
  lemma ModuleNameOfLast(filename: string)
    ensures var parts := Split(filename, '/');
      var last := parts[|parts| - 1];
      var name := ModuleName(filename);
      && |name| <= |last| && last[..|name|] == name
      && (|name| < |last| ==> last[|name|] == '.')
      && '/' !in name
  {
    var parts := Split(filename, '/');
    var last := parts[|parts| - 1];
    FirstPiece(last, '.');
    PrefixLacks(Split(last, '.')[0], last, '/');
  }

  /** What a string lacks, its prefixes lack. */
  lemma PrefixLacks(p: string, s: string, c: char)
    requires |p| <= |s| && s[..|p|] == p && c !in s
    ensures c !in p
  {
    assert p == s[..|p|];
  }

  /** `repr` of a list of strings that hold no quote or backslash. */
  function ListRepr(xs: seq<string>): string {
    "[" + ReprItems(xs) + "]"
  }

  function ReprItems(xs: seq<string>): string
    decreases |xs|
  {
    if xs == [] then ""
    else if |xs| == 1 then "'" + xs[0] + "'"
    else "'" + xs[0] + "', " + ReprItems(xs[1..])
  }

  // ---------------------------------------------------------------------
  // Choosing a loader

  datatype Loader = JsLoader | PyLoader | CLoader

  /** `require(spec, options)`'s dispatch on `options.language`, given as
      None when the options object has no such attribute. */
  function SelectLoader(language: Option<Value>): (r: Result<Loader>)
    ensures language.None? ==> r == Ok(JsLoader)
    ensures language == Some(Str("javascript")) ==> r == Ok(JsLoader)
    ensures language == Some(Str("python")) ==> r == Ok(PyLoader)
    ensures language == Some(Str("c")) ==> r == Ok(CLoader)
    ensures r.Raise? <==> language.Some? && language.value !in {Str("javascript"), Str("python"), Str("c")}
    ensures r.Raise? ==> r.fault == Fault(RequireError, Str("options.language must be one of [javascript,python,c]"))
  {
    var lang := if language.Some? then language.value else Str("javascript");
    if lang == Str("javascript") then Ok(JsLoader)
    else if lang == Str("python") then Ok(PyLoader)
    else if lang == Str("c") then Ok(CLoader)
    else Raise(Fault(RequireError, Str("options.language must be one of [javascript,python,c]")))
  }

  // ---------------------------------------------------------------------
  // Locating a script module

  /** The file name `_require_js` looks for: ".js" is appended unless
      already there. */
  function JsFileName(filename: string): (f: string)
    ensures EndsWith(f, ".js")
    ensures EndsWith(filename, ".js") ==> f == filename
    ensures !EndsWith(filename, ".js") ==> f == filename + ".js"
  {
    if EndsWith(filename, ".js") then filename else filename + ".js"
  }

  /** Appending ".js" is done at most once. */
  lemma JsFileNameIdempotent(filename: string)
    ensures JsFileName(JsFileName(filename)) == JsFileName(filename)
  {
  }

  /** A located module: the name it is bound to, the path it came from and
      its text. */
  datatype Located = Located(modname: string, pathname: string, data: string)

  /** The search over the path list: the first directory under which the
      file reads as non-empty text, with the cache after the reads done so
      far. */
  function Search(fs: FileSystem, cache: Cache, paths: seq<string>, name: string): (r: (Option<(string, string)>, Cache))
    ensures r.0.Some? ==> r.0.value.1 != ""
    decreases |paths|
  {
    if paths == [] then (None, cache)
    else
      var (data, cache1) := FileDataSpec(fs, cache, paths[0] + name);
      if data.Some? && data.value != "" then (Some((paths[0] + name, data.value)), cache1)
      else Search(fs, cache1, paths[1..], name)
  }

  /** The first directory under which the file exists, is readable and is
      not empty, looking at the files alone. */
  function FirstHit(fs: FileSystem, paths: seq<string>, name: string): (r: Option<nat>)
    ensures r.Some? ==> r.value < |paths| && CanRead(fs, paths[r.value] + name) && fs[paths[r.value] + name].contents != ""
    ensures r.Some? ==> forall j :: 0 <= j < r.value ==>
                          !CanRead(fs, paths[j] + name) || fs[paths[j] + name].contents == ""
    ensures r.None? ==> forall j :: 0 <= j < |paths| ==>
                          !CanRead(fs, paths[j] + name) || fs[paths[j] + name].contents == ""
    decreases |paths|
  {
    if paths == [] then None
    else if CanRead(fs, paths[0] + name) && fs[paths[0] + name].contents != "" then Some(0)
    else match FirstHit(fs, paths[1..], name)
      case None => None
      case Some(i) => Some(i + 1)
  }

  /** On a coherent cache the search finds the first directory holding a
      readable, non-empty file, and the cache stays coherent. */
  lemma {:induction false} SearchFindsFirst(fs: FileSystem, cache: Cache, paths: seq<string>, name: string)
    requires Coherent(fs, cache)
    ensures var (found, cache1) := Search(fs, cache, paths, name);
      && Coherent(fs, cache1)
      && (FirstHit(fs, paths, name).None? <==> found.None?)
      && (found.Some? ==> var i := FirstHit(fs, paths, name).value;
            found.value == (paths[i] + name, fs[paths[i] + name].contents))
    decreases |paths|
  {
    if paths != [] {
      FileDataTransparent(fs, cache, paths[0] + name);
      var (data, cache1) := FileDataSpec(fs, cache, paths[0] + name);
      if !(data.Some? && data.value != "") {
        SearchFindsFirst(fs, cache1, paths[1..], name);
      }
    }
  }

  /** How `_require_js` ends: the located module, or RequireError. */
  function RequireJsSpec(fs: FileSystem, cache: Cache, rp: seq<string>, filename: string): (r: (Result<Located>, Cache))
    ensures r.0.Ok? ==> r.0.value.modname == ModuleName(JsFileName(filename)) && r.0.value.data != ""
    ensures r.0.Raise? ==> r.0.fault.kind == RequireError
  {
    var f := JsFileName(filename);
    if '/' in f then
      var (data, cache1) := FileDataSpec(fs, cache, f);
      if data.Some? && data.value != "" then (Ok(Located(ModuleName(f), f, data.value)), cache1)
      else (Raise(Fault(RequireError, Str("Path " + f + " either does not exist or not readable"))), cache1)
    else
      var (found, cache1) := Search(fs, cache, rp, f);
      if found.Some? then (Ok(Located(ModuleName(f), found.value.0, found.value.1)), cache1)
      else (Raise(Fault(RequireError, Str("Unable to find " + f + " or was not readable in any search path " + ListRepr(rp)))), cache1)
  }

  /** A name holding '/' is read from exactly that path: it loads when the
      file there is readable and non-empty, under the name the file gives,
      and raises RequireError otherwise. */
  lemma RequireJsReadsPath(fs: FileSystem, cache: Cache, rp: seq<string>, filename: string)
    requires Coherent(fs, cache) && '/' in JsFileName(filename)
    ensures var f := JsFileName(filename);
      var r := RequireJsSpec(fs, cache, rp, filename).0;
      && (r.Ok? <==> CanRead(fs, f) && fs[f].contents != "")
      && (r.Ok? ==> r.value == Located(ModuleName(f), f, fs[f].contents))
      && (r.Raise? ==> r.fault.kind == RequireError)
  {
    FileDataTransparent(fs, cache, JsFileName(filename));
  }

  /** A bare module name is found in the first search directory that
      holds it readable and non-empty, under the name the file gives; an
      empty file counts as missing; none found is RequireError. */
  lemma RequireJsSearches(fs: FileSystem, cache: Cache, rp: seq<string>, filename: string)
    requires Coherent(fs, cache) && '/' !in JsFileName(filename)
    ensures var f := JsFileName(filename);
      var r := RequireJsSpec(fs, cache, rp, filename).0;
      && (r.Ok? <==> FirstHit(fs, rp, f).Some?)
      && (r.Ok? ==> var i := FirstHit(fs, rp, f).value;
            r.value == Located(ModuleName(f), rp[i] + f, fs[rp[i] + f].contents))
      && (r.Raise? ==> r.fault.kind == RequireError)
  {
    SearchFindsFirst(fs, cache, rp, JsFileName(filename));
  }

  /** A string without the separator splits into itself alone. */
  lemma {:induction false} SplitNoSep(t: string, sep: char)
    requires sep !in t
    ensures Split(t, sep) == [t]
    decreases |t|
  {
    if t != [] {
      assert t == [t[0]] + t[1..];
      SplitNoSep(t[1..], sep);
    }
  }

  /** The last piece of a split is what follows the last separator. */
  lemma {:induction false} LastPieceAfter(s: string, sep: char, k: nat)
    requires k < |s| && s[k] == sep && sep !in s[k + 1..]
    ensures var parts := Split(s, sep); parts[|parts| - 1] == s[k + 1..]
    decreases k
  {
    if k == 0 {
      SplitNoSep(s[1..], sep);
    } else {
      var t := s[1..];
      assert t[k - 1] == sep && t[k..] == s[k + 1..];
      LastPieceAfter(t, sep, k - 1);
    }
  }

  /** The fourth default directory lacks its trailing '/': the file the
      search tries there for "m.js" is named "d-modsm.js" and lies beside
      the directory, not in it. */
  lemma DefaultPathMissesDirectory(home: string)
    ensures DefaultRequirePath(home)[3] + "m.js" == "/usr/local/dreadnought/d-modsm.js"
    ensures var parts := Split(DefaultRequirePath(home)[3] + "m.js", '/');
      parts[|parts| - 1] == "d-modsm.js"
  {
    var dir, name := "/usr/local/dreadnought/", "d-modsm.js";
    assert DefaultRequirePath(home)[3] + "m.js" == dir + name;
    CandidateInDirectory(dir, name);
  }

  /** The default search path as evidently intended: every entry a
      directory name ending in '/'. */
  function DefaultRequirePathFixed(home: string): (rp: seq<string>)
    ensures |rp| == 4
    ensures forall i :: 0 <= i < 4 ==> EndsWith(rp[i], "/")
  {
    ["./", "./d-mods/", home + "/.d-mods/", "/usr/local/dreadnought/d-mods/"]
  }

  /** A candidate built from a directory ending in '/' and a bare file name
      lies in that directory: its part before the last '/' is the
      directory. */
  lemma CandidateInDirectory(dir: string, name: string)
    requires |dir| > 0 && dir[|dir| - 1] == '/' && '/' !in name
    ensures var parts := Split(dir + name, '/');
      && parts[|parts| - 1] == name
      && Join(parts[..|parts| - 1], '/') + "/" == dir
  {
    var s := dir + name;
    assert s[|dir| - 1] == '/' && s[|dir|..] == name;
    LastPieceAfter(s, '/', |dir| - 1);
    SplitLast(s, '/');
  }

  /** The directory and module `_require_py` imports from: ".py" is
      dropped; a path with a '/' names the module by its last component,
      imported with the rest of the path prepended to `sys.path`. */
  function PyModuleSpec(filename: string): (r: (Option<string>, string))
    ensures r.0.None? <==> '/' !in (if EndsWith(filename, ".py") then filename[..|filename| - 3] else filename)
    ensures '/' !in r.1
  {
    var f := if EndsWith(filename, ".py") then filename[..|filename| - 3] else filename;
    var p := Split(f, '/');
    if |p| > 1 then (Some(Join(p[..|p| - 1], '/')), p[|p| - 1]) else (None, f)
  }

  /** The directory, a '/', and the module give the path back. */
  lemma PyModuleRoundTrip(filename: string)
    ensures var f := if EndsWith(filename, ".py") then filename[..|filename| - 3] else filename;
      var (dir, name) := PyModuleSpec(filename);
      (dir.Some? ==> dir.value + "/" + name == f) && (dir.None? ==> name == f)
  {
    var f := if EndsWith(filename, ".py") then filename[..|filename| - 3] else filename;
    var p := Split(f, '/');
    if |p| > 1 {
      JoinSplit(f, '/');
      JoinLast(p, '/');
    }
  }

  /** Python's `__import__(name)` run against a given `sys.path`. */
  type Importer = (string, seq<string>) -> Result<Value>

  // ---------------------------------------------------------------------
  // The module's state

  /** `RequirePath`, `sys.path` and `JsCode`. */
  class RequireState {
    var requirePath: seq<string>
    var sysPath: seq<string>
    var jsCode: Cache

    /** Module initialisation: the default search path, appended to
        `sys.path`, and an empty cache. */
    constructor (home: string, initialSysPath: seq<string>)
      ensures requirePath == DefaultRequirePath(home)
      ensures sysPath == initialSysPath + DefaultRequirePath(home)
      ensures jsCode == map[]
      ensures InStep(requirePath, sysPath)
    {
      requirePath := DefaultRequirePath(home);
      sysPath := initialSysPath + DefaultRequirePath(home);
      jsCode := map[];
      DefaultDistinct(home);
    }

    /** `addPath(path)` */
    method AddPath(path: string)
      modifies this
      ensures (requirePath, sysPath) == AddPathSpec(old(requirePath), old(sysPath), path)
      ensures jsCode == old(jsCode)
    {
      if path !in requirePath {
        requirePath := requirePath + [path];
        if path !in sysPath {
          sysPath := sysPath + [path];
        }
      }
    }

    /** `removePath(path)` */
    method RemovePath(path: string)
      modifies this
      ensures (requirePath, sysPath) == RemovePathSpec(old(requirePath), old(sysPath), path)
      ensures jsCode == old(jsCode)
    {
      if path in requirePath {
        requirePath := RemoveFirst(requirePath, path);
        if path in sysPath {
          sysPath := RemoveFirst(sysPath, path);
        }
      }
    }

    /** `_file_data(filename)` */
    method FileData(fs: FileSystem, filename: string) returns (data: Option<string>)
      modifies this
      ensures (data, jsCode) == FileDataSpec(fs, old(jsCode), filename)
      ensures requirePath == old(requirePath) && sysPath == old(sysPath)
    {
      data := None;
      if CanRead(fs, filename) {
        var modtime := fs[filename].mtime;
        if filename in jsCode {
          var (mt, code) := jsCode[filename];
          if mt == modtime {
            return Some(code);
          }
        }
        var code := fs[filename].contents;
        jsCode := jsCode[filename := (modtime, code)];
        data := Some(code);
      }
    }

    /** The locating part of `_require_js(filename)`: the name is completed
        with ".js"; a path is read directly; a bare name is tried under
        each search directory in order until one reads as non-empty. */
    method RequireJs(fs: FileSystem, filename: string) returns (r: Result<Located>)
      modifies this
      ensures (r, jsCode) == RequireJsSpec(fs, old(jsCode), old(requirePath), filename)
      ensures requirePath == old(requirePath) && sysPath == old(sysPath)
    {
      var f := filename;
      if !EndsWith(f, ".js") {
        f := f + ".js";
      }
      var data: Option<string> := None;
      var pathname := f;
      if '/' in f {
        data := FileData(fs, f);
        if !(data.Some? && data.value != "") {
          return Raise(Fault(RequireError, Str("Path " + f + " either does not exist or not readable")));
        }
      } else {
        ghost var cache0 := jsCode;
        var i := 0;
        while i < |requirePath|
          invariant i <= |requirePath| && requirePath == old(requirePath) && sysPath == old(sysPath)
          invariant Search(fs, cache0, requirePath, f) == Search(fs, jsCode, requirePath[i..], f)
          invariant !(data.Some? && data.value != "")
        {
          pathname := requirePath[i] + f;
          assert requirePath[i..] == [requirePath[i]] + requirePath[i + 1..];
          data := FileData(fs, pathname);
          if data.Some? && data.value != "" {
            break;
          }
          i := i + 1;
        }
        if !(data.Some? && data.value != "") {
          return Raise(Fault(RequireError, Str("Unable to find " + f + " or was not readable in any search path " + ListRepr(requirePath))));
        }
      }
      r := Ok(Located(ModuleName(f), pathname, data.value));
    }

    /** `_require_py(filename)`: the import runs with the directory, if
        any, prepended to `sys.path`, which is restored only when the import
        returns. */
    method RequirePy(filename: string, importer: Importer) returns (r: Result<Value>)
      modifies this
      ensures var (dir, name) := PyModuleSpec(filename);
        && (dir.None? ==> r == importer(name, old(sysPath)) && sysPath == old(sysPath))
        && (dir.Some? ==> r == importer(name, [dir.value] + old(sysPath)))
        && (dir.Some? && r.Ok? ==> sysPath == old(sysPath))
        && (dir.Some? && r.Raise? ==> sysPath == [dir.value] + old(sysPath))
      ensures requirePath == old(requirePath) && jsCode == old(jsCode)
    {
      var f := filename;
      if EndsWith(f, ".py") {
        f := f[..|f| - 3];
      }
      var p := Split(f, '/');
        if |p| > 1 {
        var oldpath := sysPath;
        sysPath := [Join(p[..|p| - 1], '/')] + sysPath;
        r := importer(p[|p| - 1], sysPath);
        if r.Raise? {
          return;
        }
        sysPath := oldpath;
      } else {
        r := importer(f, sysPath);
      }
    }
  }
}
