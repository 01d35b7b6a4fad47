/**
 * Listing a folder: the paginated, filtered listing and the lookup of one
 * file for the viewer.
 *
 * The directory walk is given as the sequence of directories it visits, each
 * with its root and its file names, in walk order.  Regular expressions are
 * abstract: `compiles(src)` says whether compiling `src` case-insensitively
 * succeeds and `search(src, name)` whether it then matches somewhere in `name`.
 */
module Listing {
  import opened Wrappers
  import opened Sorting
  import opened Paths

  /** The default page size of a listing. */
  const BatchSize: int := 150

  datatype WalkDir = WalkDir(root: string, filenames: seq<string>)

  datatype RegexEngine = RegexEngine(compiles: string -> bool, search: (string, string) -> bool)

  /** An empty pattern text means "no pattern": every name is accepted. */
  datatype Pattern = AcceptAll | Regex(source: string)

  datatype ListError = DirectoryNotFound | InvalidRegex

  datatype Page = Page(files: seq<string>, folder: string, regex: string, offset: int, hasMore: bool, total: nat)

  datatype ViewError = InvalidFilename | FolderNotFound | InvalidViewRegex | NotInFilteredList

  datatype ViewPage = ViewPage(filename: string, fullPath: string, fileList: seq<string>)

  function Compile(engine: RegexEngine, regex: string): (r: Result<Pattern, ListError>)
    ensures r.Failure? <==> regex != "" && !engine.compiles(regex)
    ensures r.Success? ==> (r.value == AcceptAll <==> regex == "")
    ensures r.Success? && r.value.Regex? ==> r.value.source == regex
  {
    if regex == "" then Success(AcceptAll)
    else if engine.compiles(regex) then Success(Regex(regex))
    else Failure(InvalidRegex)
  }

  /** The pattern is tested against the file NAME, not the joined path. */
  function Accepts(engine: RegexEngine, p: Pattern, name: string): (b: bool)
    ensures p.AcceptAll? ==> b
    ensures p.Regex? ==> (b <==> engine.search(p.source, name))
  {
    p.AcceptAll? || engine.search(p.source, name)
  }

  /** The joined paths of the accepted names of one directory, in walk order. */
  function DirMatches(engine: RegexEngine, p: Pattern, root: string, names: seq<string>): (r: seq<string>)
    ensures |r| <= |names|
  {
    if names == [] then []
    else
      var last := names[|names| - 1];
      DirMatches(engine, p, root, names[..|names| - 1])
        + (if Accepts(engine, p, last) then [Join(root, last)] else [])
  }

  /** The joined paths of every accepted name of the walk, in walk order. */
  function Matches(engine: RegexEngine, p: Pattern, walk: seq<WalkDir>): (r: seq<string>)
    ensures |r| <= FileCount(walk)
  {
    if walk == [] then []
    else
      var last := walk[|walk| - 1];
      Matches(engine, p, walk[..|walk| - 1]) + DirMatches(engine, p, last.root, last.filenames)
  }

  /** How many file names the walk reports in all. */
  function FileCount(walk: seq<WalkDir>): nat
  {
    if walk == [] then 0 else FileCount(walk[..|walk| - 1]) + |walk[|walk| - 1].filenames|
  }

  /** One more name of a directory. */
  lemma DirMatchesStep(engine: RegexEngine, p: Pattern, root: string, names: seq<string>, j: nat)
    requires j < |names|
    ensures DirMatches(engine, p, root, names[..j + 1]) ==
              DirMatches(engine, p, root, names[..j]) + (if Accepts(engine, p, names[j]) then [Join(root, names[j])] else [])
  {
    assert names[..j + 1][..j] == names[..j];
  }

  /** One more directory of the walk. */
  lemma MatchesStep(engine: RegexEngine, p: Pattern, walk: seq<WalkDir>, i: nat)
    requires i < |walk|
    ensures Matches(engine, p, walk[..i + 1]) ==
              Matches(engine, p, walk[..i]) + DirMatches(engine, p, walk[i].root, walk[i].filenames)
  {
    assert walk[..i + 1][..i] == walk[..i];
  }

  lemma {:induction false} DirMatchesMembers(engine: RegexEngine, p: Pattern, root: string, names: seq<string>, x: string)
    ensures x in DirMatches(engine, p, root, names) <==>
              exists j :: 0 <= j < |names| && Accepts(engine, p, names[j]) && x == Join(root, names[j])
  {
    if names != [] {
      var n' := names[..|names| - 1];
      DirMatchesMembers(engine, p, root, n', x);
      if exists j :: 0 <= j < |names| && Accepts(engine, p, names[j]) && x == Join(root, names[j]) {
        var j :| 0 <= j < |names| && Accepts(engine, p, names[j]) && x == Join(root, names[j]);
        if j < |n'| { assert n'[j] == names[j]; }
      }
    }
  }

  /**
   * A path is listed exactly when some walked directory holds a name the
   * pattern accepts and the path is that directory's root joined with it.
   */
  lemma {:induction false} MatchesMembers(engine: RegexEngine, p: Pattern, walk: seq<WalkDir>, x: string)
    ensures x in Matches(engine, p, walk) <==>
              exists i, j :: 0 <= i < |walk| && 0 <= j < |walk[i].filenames|
                && Accepts(engine, p, walk[i].filenames[j]) && x == Join(walk[i].root, walk[i].filenames[j])
  {
    if walk != [] {
      var w' := walk[..|walk| - 1];
      var last := walk[|walk| - 1];
      MatchesMembers(engine, p, w', x);
      DirMatchesMembers(engine, p, last.root, last.filenames, x);
      if exists i, j :: 0 <= i < |walk| && 0 <= j < |walk[i].filenames|
           && Accepts(engine, p, walk[i].filenames[j]) && x == Join(walk[i].root, walk[i].filenames[j])
      {
        var i, j :| 0 <= i < |walk| && 0 <= j < |walk[i].filenames|
           && Accepts(engine, p, walk[i].filenames[j]) && x == Join(walk[i].root, walk[i].filenames[j]);
        if i < |w'| { assert w'[i] == walk[i]; }
      }
    }
  }

  /** A Python slice bound: negative counts from the end, then clamped to [0, n]. */
  function SliceBound(i: int, n: nat): (b: nat)
    ensures b <= n
    ensures 0 <= i <= n ==> b == i
  {
    if i < 0 then (if i + n < 0 then 0 else i + n)
    else if i > n then n
    else i
  }

  /** `s[start:stop]` with Python's semantics. */
  function PySlice<T>(s: seq<T>, start: int, stop: int): (r: seq<T>)
    ensures var a, b := SliceBound(start, |s|), SliceBound(stop, |s|);
            && |r| == (if a < b then b - a else 0)
            && forall k :: 0 <= k < |r| ==> r[k] == s[a + k]
  {
    var a, b := SliceBound(start, |s|), SliceBound(stop, |s|);
    if a < b then s[a..b] else []
  }

  function Min(a: int, b: int): int { if a <= b then a else b }

  /** For a non-negative offset and limit, a page is the window of `limit` items at `offset`. */
  lemma SliceWindow<T>(s: seq<T>, offset: int, limit: int)
    requires 0 <= offset && 0 <= limit
    ensures |PySlice(s, offset, offset + limit)| == if offset >= |s| then 0 else Min(limit, |s| - offset)
    ensures offset <= |s| ==> PySlice(s, offset, offset + limit) == s[offset..offset + |PySlice(s, offset, offset + limit)|]
  {
  }

  /**
   * `has_more` promises a full page, and its absence means the page runs to
   * the end of the list.
   */
  lemma HasMoreMeansFullPage<T>(s: seq<T>, offset: int, limit: int)
    requires 0 <= offset <= |s| && 0 <= limit
    ensures offset + limit < |s| ==> |PySlice(s, offset, offset + limit)| == limit
    ensures !(offset + limit < |s|) ==> PySlice(s, offset, offset + limit) == s[offset..]
  {
    SliceWindow(s, offset, limit);
  }

  /**
   * A non-positive limit that keeps the stop index non-negative gives an
   * empty batch before the end, yet reports more items and an offset that
   * does not move forward.
   */
  lemma NonPositiveLimitStalls<T>(s: seq<T>, offset: int, limit: int)
    requires 0 <= offset < |s| && -offset <= limit <= 0
    ensures PySlice(s, offset, offset + limit) == []
    ensures offset + limit < |s|
    ensures offset + limit <= offset
  {
  }

  /** The items a client sees by following `offset` while `has_more` holds. */
  ghost function PagesFrom<T>(s: seq<T>, offset: int, limit: int): seq<T>
    requires 0 <= offset && 0 < limit
    decreases |s| - offset
  {
    var batch := PySlice(s, offset, offset + limit);
    if offset + limit < |s| then batch + PagesFrom(s, offset + limit, limit) else batch
  }

  /** Paging from any offset with a positive limit yields every item from there on, once, in order. */
  lemma {:induction false} PagingCoversAll<T>(s: seq<T>, offset: int, limit: int)
    requires 0 <= offset <= |s| && 0 < limit
    ensures PagesFrom(s, offset, limit) == s[offset..]
    decreases |s| - offset
  {
    if offset + limit < |s| {
      PagingCoversAll(s, offset + limit, limit);
      assert s[offset..] == s[offset..offset + limit] + s[offset + limit..];
    }
  }

  /** `api_filter_paged`: `isDir` is whether the normalised folder is a directory. */
  method FilterPaged(folder: string, isDir: bool, engine: RegexEngine, regex: string,
                     walk: seq<WalkDir>, offset: int := 0, limit: int := BatchSize)
    returns (r: Result<Page, ListError>)
    ensures !isDir ==> r == Failure(DirectoryNotFound)
    ensures isDir && Compile(engine, regex).Failure? ==> r == Failure(InvalidRegex)
    ensures isDir && Compile(engine, regex).Success? ==>
              var all := Sort(Matches(engine, Compile(engine, regex).value, walk));
              && r.Success?
              && r.value.files == PySlice(all, offset, offset + limit)
              && r.value.total == |Matches(engine, Compile(engine, regex).value, walk)|
              && r.value.hasMore == (offset + limit < r.value.total)
              && r.value.offset == offset + limit
              && r.value.folder == folder && r.value.regex == regex
  {
    if !isDir {
      return Failure(DirectoryNotFound);
    }
    var compiled := Compile(engine, regex);
    if compiled.Failure? {
      return Failure(InvalidRegex);
    }
    var files := Collect(engine, compiled.value, walk);
    var sorted := Sort(files);
    assert |sorted| == |multiset(sorted)| == |multiset(files)| == |files|;
    var total := |sorted|;
    r := Success(Page(PySlice(sorted, offset, offset + limit), folder, regex, offset + limit,
                      offset + limit < total, total));
  }

  /** The walk loop of `api_filter_paged`: the joined paths of the accepted names in walk order. */
  method Collect(engine: RegexEngine, pattern: Pattern, walk: seq<WalkDir>) returns (files: seq<string>)
    ensures files == Matches(engine, pattern, walk)
  {
    files := [];
    var i := 0;
    while i < |walk|
      invariant 0 <= i <= |walk|
      invariant files == Matches(engine, pattern, walk[..i])
    {
      var dirFiles := CollectDir(engine, pattern, walk[i].root, walk[i].filenames);
      files := files + dirFiles;
      MatchesStep(engine, pattern, walk, i);
      i := i + 1;
    }
    assert walk[..i] == walk;
  }

  /** The loop over one directory's names in `api_filter_paged`. */
  method CollectDir(engine: RegexEngine, pattern: Pattern, root: string, names: seq<string>)
    returns (files: seq<string>)
    ensures files == DirMatches(engine, pattern, root, names)
  {
    files := [];
    var j := 0;
    while j < |names|
      invariant 0 <= j <= |names|
      invariant files == DirMatches(engine, pattern, root, names[..j])
    {
      DirMatchesStep(engine, pattern, root, names, j);
      if Accepts(engine, pattern, names[j]) {
        files := files + [Join(root, names[j])];
      }
      j := j + 1;
    }
    assert names[..j] == names;
  }

  /** Whether the final component of `path` equals `filename`, ignoring case. */
  function NameMatches(path: string, filename: string): (b: bool)
    ensures b ==> |BaseName(path)| == |filename|
  {
    SameIgnoringCase(BaseName(path), filename)
  }

  /** The position of the last element satisfying `f`, or -1 when none does. */
  function LastIndexWhere(s: seq<string>, f: string -> bool): (k: int)
    ensures -1 <= k < |s|
    ensures 0 <= k ==> f(s[k])
    ensures forall m :: k < m < |s| ==> !f(s[m])
  {
    if s == [] then -1
    else
      var n := |s| - 1;
      if f(s[n]) then n
      else
        var front := s[..n];
        var k := LastIndexWhere(front, f);
        assert forall m :: k < m < n ==> front[m] == s[m];
        k
  }

  /** The loop's `target_file`: the last path whose name equals `filename` ignoring case. */
  function LastMatch(paths: seq<string>, filename: string): (r: Option<string>)
    ensures r.Some? ==> NameMatches(r.value, filename)
  {
    var k := LastIndexWhere(paths, p => NameMatches(p, filename));
    if k < 0 then None else Some(paths[k])
  }

  /** What `LastMatch` finds: a matching path after which no path matches. */
  lemma LastMatchIsLast(paths: seq<string>, filename: string)
    ensures LastMatch(paths, filename).None? <==> forall k :: 0 <= k < |paths| ==> !NameMatches(paths[k], filename)
    ensures LastMatch(paths, filename).Some? ==>
              exists k :: 0 <= k < |paths| && paths[k] == LastMatch(paths, filename).value
                && NameMatches(paths[k], filename)
                && forall m :: k < m < |paths| ==> !NameMatches(paths[m], filename)
  {
    var k := LastIndexWhere(paths, p => NameMatches(p, filename));
    if 0 <= k {
      assert paths[k] == LastMatch(paths, filename).value;
    }
  }

  lemma LastMatchAppend(paths: seq<string>, x: string, filename: string)
    ensures LastMatch(paths + [x], filename) ==
              if NameMatches(x, filename) then Some(x) else LastMatch(paths, filename)
  {
    var s := paths + [x];
    assert s[|s| - 1] == x;
    assert s[..|s| - 1] == paths;
  }

  /** `[Path(fp).name for fp in paths]` */
  function Names(paths: seq<string>): (r: seq<string>)
    ensures |r| == |paths|
  {
    seq(|paths|, i requires 0 <= i < |paths| => BaseName(paths[i]))
  }

  /** The name contains a forward or a backward slash. */
  function HasSeparator(filename: string): (b: bool)
    ensures b <==> exists i :: 0 <= i < |filename| && (filename[i] == '/' || filename[i] == '\\')
  {
    '/' in filename || '\\' in filename
  }

  /**
   * `api_view` after its parameters are decoded: `isDir` is whether the
   * normalised folder is a directory, `isFile` the set of regular files.
   */
  method View(filename: string, isDir: bool, engine: RegexEngine, regex: string,
              walk: seq<WalkDir>, isFile: set<string>)
    returns (r: Result<ViewPage, ViewError>)
    ensures HasSeparator(filename) ==> r == Failure(InvalidFilename)
    ensures !HasSeparator(filename) && !isDir ==> r == Failure(FolderNotFound)
    ensures !HasSeparator(filename) && isDir && Compile(engine, regex).Failure? ==> r == Failure(InvalidViewRegex)
    ensures !HasSeparator(filename) && isDir && Compile(engine, regex).Success? ==>
              var all := Matches(engine, Compile(engine, regex).value, walk);
              var t := LastMatch(all, filename);
              if t.None? || t.value == "" || t.value !in isFile then r == Failure(NotInFilteredList)
              else r == Success(ViewPage(BaseName(t.value), t.value, Names(all)))
  {
    if HasSeparator(filename) {
      return Failure(InvalidFilename);
    }
    if !isDir {
      return Failure(FolderNotFound);
    }
    var compiled := Compile(engine, regex);
    if compiled.Failure? {
      return Failure(InvalidViewRegex);
    }
    var fileList, target := Scan(engine, compiled.value, walk, filename);
    if target.None? || target.value == "" || target.value !in isFile {
      return Failure(NotInFilteredList);
    }
    r := Success(ViewPage(BaseName(target.value), target.value, Names(fileList)));
  }

  /** The walk loop of `api_view`: the filtered list and the last path whose name matches. */
  method Scan(engine: RegexEngine, pattern: Pattern, walk: seq<WalkDir>, filename: string)
    returns (fileList: seq<string>, target: Option<string>)
    ensures fileList == Matches(engine, pattern, walk)
    ensures target == LastMatch(fileList, filename)
  {
    fileList := [];
    target := None;
    var i := 0;
    while i < |walk|
      invariant 0 <= i <= |walk|
      invariant fileList == Matches(engine, pattern, walk[..i])
      invariant target == LastMatch(fileList, filename)
    {
      fileList, target := ScanDir(engine, pattern, walk[i].root, walk[i].filenames, filename, fileList, target);
      MatchesStep(engine, pattern, walk, i);
      i := i + 1;
    }
    assert walk[..i] == walk;
  }

  /** One directory of the walk loop of `api_view`, continuing from `fileList` and `target`. */
  method ScanDir(engine: RegexEngine, pattern: Pattern, root: string, names: seq<string>, filename: string,
                 fileList0: seq<string>, target0: Option<string>)
    returns (fileList: seq<string>, target: Option<string>)
    requires target0 == LastMatch(fileList0, filename)
    ensures fileList == fileList0 + DirMatches(engine, pattern, root, names)
    ensures target == LastMatch(fileList, filename)
  {
    fileList, target := fileList0, target0;
    var j := 0;
    while j < |names|
      invariant 0 <= j <= |names|
      invariant fileList == fileList0 + DirMatches(engine, pattern, root, names[..j])
      invariant target == LastMatch(fileList, filename)
    {
      ScanDirStep(engine, pattern, root, names, j, filename, fileList0, fileList, target);
      if Accepts(engine, pattern, names[j]) {
        var fullPath := Join(root, names[j]);
        fileList := fileList + [fullPath];
        if NameMatches(fullPath, filename) {
          target := Some(fullPath);
        }
      }
      j := j + 1;
    }
    assert names[..j] == names;
  }

  /** One name of `ScanDir`: what the loop body does keeps both invariants. */
  lemma ScanDirStep(engine: RegexEngine, pattern: Pattern, root: string, names: seq<string>, j: nat,
                    filename: string, fileList0: seq<string>, fileList: seq<string>, target: Option<string>)
    requires j < |names|
    requires fileList == fileList0 + DirMatches(engine, pattern, root, names[..j])
    requires target == LastMatch(fileList, filename)
    ensures var fullPath := Join(root, names[j]);
            if Accepts(engine, pattern, names[j]) then
              && fileList + [fullPath] == fileList0 + DirMatches(engine, pattern, root, names[..j + 1])
              && LastMatch(fileList + [fullPath], filename) == (if NameMatches(fullPath, filename) then Some(fullPath) else target)
            else
              && fileList == fileList0 + DirMatches(engine, pattern, root, names[..j + 1])
  {
    DirMatchesStep(engine, pattern, root, names, j);
    LastMatchAppend(fileList, Join(root, names[j]), filename);
  }
}
