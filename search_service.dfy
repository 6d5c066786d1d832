/** Search over the courses and files a user may access, the dispatch of
    `search_by_type`, the search log, and the file-type and icon tables the
    results carry. The query is put into a PostgreSQL `LIKE` pattern as
    typed, so its own `%`, `_` and `\` act as wildcards and escape. */
module SearchService {
  import opened Common
  import opened Ordering
  import opened FileNodeModel
  import opened AuthorizationService

  /** Lower-cased extension (no dot) to the type search results report. */
  const SearchTypeMap: map<string, string> := map[
    "pdf" := "pdf", "doc" := "document", "docx" := "document", "txt" := "text",
    "ppt" := "presentation", "pptx" := "presentation", "xls" := "spreadsheet", "xlsx" := "spreadsheet",
    "mp4" := "video", "avi" := "video", "mov" := "video", "mp3" := "audio", "wav" := "audio",
    "jpg" := "image", "jpeg" := "image", "png" := "image", "gif" := "image",
    "zip" := "archive", "rar" := "archive", "py" := "code", "js" := "code", "java" := "code", "cpp" := "code"]

  /** Type to icon. */
  const SearchIconMap: map<string, string> := map[
    "pdf" := "picture_as_pdf", "document" := "description", "text" := "article",
    "presentation" := "slideshow", "spreadsheet" := "table_chart", "video" := "movie",
    "audio" := "audiotrack", "image" := "image", "archive" := "folder_zip", "code" := "code",
    "file" := "insert_drive_file"]

  const DefaultFileIcon: string := "insert_drive_file"

  /** The search types `search_by_type` filters files by. */
  const FilteredTypes: seq<string> := ["pdf", "doc", "docx", "ppt", "pptx", "mp4", "avi", "mp3"]

  /** `_get_file_type`: "unknown" exactly when the name has no dot; else
      the lower-cased text after the last dot looked up, "file" when not
      listed. */
  function SearchFileType(filename: string): (t: string)
    ensures t == "unknown" <==> '.' !in filename
    ensures t == "file" || t == "unknown" || t in SearchTypeMap.Values
  {
    if '.' !in filename then "unknown"
    else
      var i := LastIndexOf(filename, '.');
      assert filename[i] == '.';
      var ext := Lower(filename[i + 1..]);
      if ext in SearchTypeMap then SearchTypeMap[ext] else "file"
  }

  /** The type comes from the text after the last dot, whatever precedes
      it. */
  lemma SearchFileTypeAfterLastDot(stem: string, ext: string)
    requires '.' !in ext
    ensures var e := Lower(ext);
      SearchFileType(stem + "." + ext) == (if e in SearchTypeMap then SearchTypeMap[e] else "file")
  {
    var name := stem + "." + ext;
    assert name[|stem|] == '.';
    assert forall k :: |stem| < k < |name| ==> name[k] == ext[k - |stem| - 1];
    var i := LastIndexOf(name, '.');
    assert i == |stem|;
    assert name[i + 1..] == ext;
  }

  /** `_get_file_icon`: total; the generic icon exactly for the types the
      table does not single out. */
  function SearchFileIcon(filename: string): (icon: string)
    ensures icon == DefaultFileIcon <==> SearchFileType(filename) == "file" || SearchFileType(filename) == "unknown"
    ensures icon in SearchIconMap.Values
  {
    var t := SearchFileType(filename);
    assert SearchIconMap["file"] == DefaultFileIcon;
    if t in SearchIconMap then SearchIconMap[t] else DefaultFileIcon
  }

  /** PostgreSQL's `text LIKE pattern`: `%` matches any run of characters,
      `_` any one character, and `\` makes the next character literal. A
      pattern ending in a lone `\` matches nothing here; the database
      refuses it with an error. */
  predicate Like(text: string, pattern: string)
    ensures Like(text, pattern) && '%' !in pattern ==> |text| <= |pattern|
    ensures Like(text, pattern) && '%' !in pattern && '\\' !in pattern ==> |text| == |pattern|
    decreases |text| + |pattern|
  {
    assert |pattern| >= 1 ==> forall c :: c in pattern[1..] ==> c in pattern;
    assert |pattern| >= 2 ==> forall c :: c in pattern[2..] ==> c in pattern;
    if |pattern| == 0 then |text| == 0
    else if pattern[0] == '%' then Like(text, pattern[1..]) || (|text| > 0 && Like(text[1..], pattern))
    else if pattern[0] == '_' then |text| > 0 && Like(text[1..], pattern[1..])
    else if pattern[0] == '\\' then
      |pattern| >= 2 && |text| > 0 && text[0] == pattern[1] && Like(text[1..], pattern[2..])
    else |text| > 0 && text[0] == pattern[0] && Like(text[1..], pattern[1..])
  }

  /** The characters `LIKE` gives a meaning to. */
  const LikeSpecial: set<char> := {'%', '_', '\\'}

  /** `func.lower(column).like('%' + query.lower() + '%')`. Wildcards only
      widen the search: a query without `\` finds every name that contains
      it literally, ignoring ASCII case. */
  predicate Matches(text: string, query: string)
    ensures '\\' !in query && Contains(Lower(text), Lower(query)) ==> Matches(text, query)
  {
    LoweredContainsLike(Lower(text), query);
    Like(Lower(text), "%" + Lower(query) + "%")
  }

  /** Lower-casing never makes a backslash. */
  lemma LowerKeepsBackslashOut(s: string)
    requires '\\' !in s
    ensures '\\' !in Lower(s)
  {
    forall i | 0 <= i < |s|
      ensures Lower(s)[i] != '\\'
    {
      assert s[i] in s;
    }
  }

  lemma LoweredContainsLike(t: string, query: string)
    ensures '\\' !in query && Contains(t, Lower(query)) ==> Like(t, "%" + Lower(query) + "%")
  {
    if '\\' !in query && Contains(t, Lower(query)) {
      LowerKeepsBackslashOut(query);
      LikeContains(t, Lower(query));
    }
  }

  /** A pattern without `\` matches itself: each wildcard can stand for
      itself. */
  lemma {:induction false} LikeItself(q: string)
    requires '\\' !in q
    ensures Like(q, q)
    decreases |q|
  {
    if |q| > 0 {
      assert forall c :: c in q[1..] ==> c in q;
      LikeItself(q[1..]);
      if q[0] == '%' {
        assert Like(q[1..], q);
      }
    }
  }

  /** A pattern without `\`, followed by `%`, matches every text that
      starts with it literally. */
  lemma {:induction false} LikeStart(text: string, q: string)
    requires '\\' !in q && StartsWith(text, q)
    ensures Like(text, q + "%")
    decreases |q|
  {
    var p := q + "%";
    if |q| == 0 {
      assert p == "%";
      LikeAnything(text);
    } else {
      assert p[0] == q[0] && p[1..] == q[1..] + "%";
      assert forall c :: c in q[1..] ==> c in q;
      assert text[1..][..|q| - 1] == q[1..];
      LikeStart(text[1..], q[1..]);
      if q[0] == '%' {
        assert Like(text[1..], p);
      }
    }
  }

  /** `%q%` for a pattern `q` without `\` matches every text that contains
      `q` literally. */
  lemma {:induction false} LikeContains(text: string, q: string)
    requires '\\' !in q && Contains(text, q)
    ensures Like(text, "%" + q + "%")
    decreases |text|
  {
    var p := "%" + q + "%";
    assert p[0] == '%' && p[1..] == q + "%";
    if StartsWith(text, q) {
      LikeStart(text, q);
    } else {
      LikeContains(text[1..], q);
    }
  }

  /** `%q` for a pattern `q` without `\` matches every text that ends with
      `q` literally. */
  lemma {:induction false} LikeEndsWith(text: string, q: string)
    requires '\\' !in q && EndsWith(text, q)
    ensures Like(text, "%" + q)
    decreases |text|
  {
    var p := "%" + q;
    assert p[0] == '%' && p[1..] == q;
    if |text| == |q| {
      assert text == text[|text| - |q|..];
      LikeItself(q);
    } else {
      assert text[1..][|text| - 1 - |q|..] == text[|text| - |q|..];
      LikeEndsWith(text[1..], q);
    }
  }

  /** `%` alone matches any text. */
  lemma {:induction false} LikeAnything(text: string)
    ensures Like(text, "%")
    decreases |text|
  {
    if |text| > 0 {
      LikeAnything(text[1..]);
    }
  }

  /** A plain query followed by `%` matches exactly the texts it opens. */
  lemma {:induction false} LikePrefix(text: string, q: string)
    requires forall c :: c in q ==> c !in LikeSpecial
    ensures Like(text, q + "%") <==> StartsWith(text, q)
    decreases |q|
  {
    if |q| == 0 {
      assert q + "%" == "%";
      LikeAnything(text);
    } else {
      assert (q + "%")[0] == q[0] && (q + "%")[1..] == q[1..] + "%";
      if |text| > 0 && text[0] == q[0] {
        assert forall c :: c in q[1..] ==> c in q;
        LikePrefix(text[1..], q[1..]);
        assert StartsWith(text, q) <==> StartsWith(text[1..], q[1..]) by {
          if |q| <= |text| {
            assert text[..|q|] == [text[0]] + text[1..][..|q| - 1];
            assert q == [q[0]] + q[1..];
          }
        }
      }
    }
  }

  /** For a query with no `%`, `_` or `\`, the search's pattern is
      substring containment. */
  lemma {:induction false} LikeIsContains(text: string, q: string)
    requires forall c :: c in q ==> c !in LikeSpecial
    ensures Like(text, "%" + q + "%") <==> Contains(text, q)
    decreases |text|
  {
    var p := "%" + q + "%";
    assert p[1..] == q + "%";
    LikePrefix(text, q);
    if |text| > 0 {
      LikeIsContains(text[1..], q);
    }
  }

  /** A query without wildcard or escape characters finds the names that
      contain it, ignoring ASCII case. */
  lemma PlainQueryMatches(text: string, query: string)
    requires forall c :: c in query ==> c !in LikeSpecial
    ensures Matches(text, query) <==> Contains(Lower(text), Lower(query))
  {
    var q := Lower(query);
    forall c | c in q
      ensures c !in LikeSpecial
    {
      var i :| 0 <= i < |q| && q[i] == c;
      assert query[i] in query;
    }
    LikeIsContains(Lower(text), q);
  }

  /** The wildcards are the query's own: `_` finds every non-empty name and
      `%` every name. */
  lemma WildcardQueries(text: string)
    ensures Matches(text, "_") <==> |text| > 0
    ensures Matches(text, "%")
  {
    var t := Lower(text);
    assert Lower("_") == "_" && Lower("%") == "%";
    assert ("%" + "%" + "%")[1..] == "%%" && "%%"[1..] == "%";
    LikeAnything(t);
    var p := "%" + Lower("_") + "%";
    assert p == "%_%" && p[1..] == "_%" && "_%"[1..] == "%";
    if |t| > 0 {
      LikeAnything(t[1..]);
      assert Like(t, "_%");
    } else {
      assert !Like(t, "_%");
    }
  }

  /** A plain pattern matches only itself. */
  lemma {:induction false} LikeExact(text: string, q: string)
    requires forall c :: c in q ==> c !in LikeSpecial
    ensures Like(text, q) <==> text == q
    decreases |q|
  {
    if |q| > 0 && |text| > 0 {
      assert forall c :: c in q[1..] ==> c in q;
      LikeExact(text[1..], q[1..]);
      assert text == [text[0]] + text[1..] && q == [q[0]] + q[1..];
    }
  }

  /** `%` followed by a plain pattern matches exactly the texts it ends. */
  lemma {:induction false} LikeSuffix(text: string, q: string)
    requires forall c :: c in q ==> c !in LikeSpecial
    ensures Like(text, "%" + q) <==> EndsWith(text, q)
    decreases |text|
  {
    assert ("%" + q)[1..] == q;
    LikeExact(text, q);
    if |text| > 0 {
      LikeSuffix(text[1..], q);
      assert EndsWith(text, q) <==> text == q || EndsWith(text[1..], q) by {
        if |q| < |text| {
          assert text[|text| - |q|..] == text[1..][|text| - 1 - |q|..];
        } else if |q| == |text| {
          assert text[|text| - |q|..] == text;
        }
      }
    }
  }

  lemma LoweredEndsWithLike(t: string, fileType: Option<string>)
    ensures fileType.Some? && '\\' !in fileType.value && EndsWith(t, "." + Lower(fileType.value))
            ==> Like(t, "%." + Lower(fileType.value))
  {
    if fileType.Some? && '\\' !in fileType.value && EndsWith(t, "." + Lower(fileType.value)) {
      var q := "." + Lower(fileType.value);
      LowerKeepsBackslashOut(fileType.value);
      assert '\\' !in q by {
        assert forall c :: c in q ==> c == '.' || c in Lower(fileType.value);
      }
      assert "%." + Lower(fileType.value) == "%" + q;
      LikeEndsWith(t, q);
    }
  }

  /** A plain file type keeps the names ending in a dot and that type,
      ignoring ASCII case. */
  lemma PlainTypeFilter(name: string, fileType: string)
    requires fileType != "" && forall c :: c in fileType ==> c !in LikeSpecial
    ensures TypeFilter(name, Some(fileType)) <==> EndsWith(Lower(name), "." + Lower(fileType))
  {
    var q := "." + Lower(fileType);
    forall c | c in q
      ensures c !in LikeSpecial
    {
      var i :| 0 <= i < |q| && q[i] == c;
      if i > 0 {
        assert fileType[i - 1] in fileType;
      }
    }
    assert "%." + Lower(fileType) == "%" + q;
    LikeSuffix(Lower(name), q);
  }

  /** One search result. */
  datatype SearchHit =
    | CourseHit(id: nat, name: string, categoryId: nat)
    | FileHit(id: nat, name: string, path: string, courseId: nat, fileType: string, fileSize: Option<nat>, icon: string)

  /** One row of `search_logs`. */
  datatype SearchLog = SearchLog(userId: nat, query: string, resultsCount: nat, searchType: string)

  /** What `search_by_type` runs. */
  datatype Dispatch = SearchCourses | SearchFiles(fileType: Option<string>) | NoSearch

  function DispatchOf(searchType: string): (d: Dispatch)
    ensures searchType == "courses" <==> d == SearchCourses
    ensures searchType == "files" <==> d == SearchFiles(None)
    ensures searchType in FilteredTypes <==> d == SearchFiles(Some(searchType))
    ensures d == NoSearch <==> searchType != "courses" && searchType != "files" && searchType !in FilteredTypes
  {
    if searchType == "courses" then SearchCourses
    else if searchType == "files" then SearchFiles(None)
    else if searchType in FilteredTypes then SearchFiles(Some(searchType))
    else NoSearch
  }

  /** The courses among `courses` whose id is accessible and whose name
      matches, in table order. */
  function CourseCandidates(courses: seq<Course>, ids: seq<nat>, query: string): (r: seq<Course>)
    ensures forall c :: c in r <==> c in courses && c.id in ids && Matches(c.name, query)
    decreases |courses|
  {
    if |courses| == 0 then []
    else
      var rest := CourseCandidates(courses[1..], ids, query);
      assert forall c :: c in courses ==> c == courses[0] || c in courses[1..];
      if courses[0].id in ids && Matches(courses[0].name, query) then [courses[0]] + rest else rest
  }

  /** The file-type filter: a truthy type asks for names that match
      `%.type`, which for a plain type means ending in `.type`. */
  predicate TypeFilter(name: string, fileType: Option<string>)
    ensures fileType.Some? && '\\' !in fileType.value && EndsWith(Lower(name), "." + Lower(fileType.value))
            ==> TypeFilter(name, fileType)
  {
    LoweredEndsWithLike(Lower(name), fileType);
    fileType.None? || fileType.value == "" || Like(Lower(name), "%." + Lower(fileType.value))
  }

  /** The files of accessible courses, never directories, whose name or
      path matches, narrowed by the type filter, in table order. */
  function FileCandidates(files: seq<FileNode>, ids: seq<nat>, query: string, fileType: Option<string>): (r: seq<FileNode>)
    ensures forall f :: f in r <==>
              f in files && f.courseId in ids && !f.isDirectory
              && (Matches(f.name, query) || Matches(Render(f.path), query)) && TypeFilter(f.name, fileType)
    decreases |files|
  {
    if |files| == 0 then []
    else
      var f := files[0];
      var rest := FileCandidates(files[1..], ids, query, fileType);
      assert forall x :: x in files ==> x == f || x in files[1..];
      if f.courseId in ids && !f.isDirectory && (Matches(f.name, query) || Matches(Render(f.path), query))
         && TypeFilter(f.name, fileType)
      then [f] + rest
      else rest
  }

  lemma FileOrderIsPreorder(nameLe: (string, string) -> bool)
    requires TotalPreorder(nameLe)
    ensures TotalPreorder(ByFileName(nameLe))
  {
    var le := ByFileName(nameLe);
    forall a: FileNode, b: FileNode, c: FileNode | le(a, b) && le(b, c)
      ensures le(a, c)
    {
      assert nameLe(a.name, b.name) && nameLe(b.name, c.name);
    }
    forall a: FileNode, b: FileNode
      ensures le(a, b) || le(b, a)
    {
      assert nameLe(a.name, b.name) || nameLe(b.name, a.name);
    }
  }

  function ByFileName(nameLe: (string, string) -> bool): (FileNode, FileNode) -> bool
  {
    (a: FileNode, b: FileNode) => nameLe(a.name, b.name)
  }

  function CourseHitOf(c: Course): SearchHit
  {
    CourseHit(c.id, c.name, c.categoryId)
  }

  function FileHitOf(f: FileNode): SearchHit
  {
    FileHit(f.id, f.name, Render(f.path), f.courseId, SearchFileType(f.name), f.size, SearchFileIcon(f.name))
  }

  /** The hits of ranked courses, one per course, in order. */
  function CourseHitsOf(ranked: seq<Course>): (r: seq<SearchHit>)
    ensures |r| == |ranked| && forall k :: 0 <= k < |r| ==> r[k] == CourseHitOf(ranked[k])
    ensures forall h :: h in r ==> exists c :: c in ranked && h == CourseHitOf(c)
  {
    var r := seq(|ranked|, k requires 0 <= k < |ranked| => CourseHitOf(ranked[k]));
    assert forall h :: h in r ==> exists k :: 0 <= k < |ranked| && h == CourseHitOf(ranked[k]);
    r
  }

  /** The hits of ranked files, one per file, in order. */
  function FileHitsOf(ranked: seq<FileNode>): (r: seq<SearchHit>)
    ensures |r| == |ranked| && forall k :: 0 <= k < |r| ==> r[k] == FileHitOf(ranked[k])
    ensures forall h :: h in r ==> exists f :: f in ranked && h == FileHitOf(f)
  {
    var r := seq(|ranked|, k requires 0 <= k < |ranked| => FileHitOf(ranked[k]));
    assert forall h :: h in r ==> exists k :: 0 <= k < |ranked| && h == FileHitOf(ranked[k]);
    r
  }

  class SearchService {
    const auth: AuthorizationService
    /** The order of `ORDER BY name` on names. */
    const nameLe: (string, string) -> bool
    var searchLog: seq<SearchLog>

    constructor (auth: AuthorizationService, nameLe: (string, string) -> bool, searchLog: seq<SearchLog>)
      ensures this.auth == auth && this.nameLe == nameLe && this.searchLog == searchLog
    {
      this.auth := auth;
      this.nameLe := nameLe;
      this.searchLog := searchLog;
    }

    /** The ids of the courses `get_accessible_courses` returns. */
    function AccessibleIds(user: User): (ids: seq<nat>)
      reads this, auth
      ensures forall id :: id in ids <==>
                exists c :: c in auth.courses && c.id == id && (user.isAdmin || Enrolled(auth.enrollments, user.id, c.id))
    {
      var accessible := auth.GetAccessibleCourses(user, None, nameLe);
      CourseIdsMembers(accessible);
      CourseIds(accessible)
    }

    /** `search_courses`: nothing without an accessible course; else the
        accessible courses whose name matches, by name, at most `limit`. */
    function SearchCourses(query: string, user: User, limit: nat): (r: seq<SearchHit>)
      reads this, auth
      ensures |AccessibleIds(user)| == 0 ==> r == []
      ensures |r| <= limit
      ensures var n := |CourseCandidates(auth.courses, AccessibleIds(user), query)|;
        |AccessibleIds(user)| > 0 ==> |r| == if limit < n then limit else n
      ensures forall h :: h in r ==> exists c :: c in auth.courses && h == CourseHitOf(c) && c.id in AccessibleIds(user)
                                                 && Matches(c.name, query)
    {
      var ids := AccessibleIds(user);
      if |ids| == 0 then []
      else
        var candidates := CourseCandidates(auth.courses, ids, query);
        var ranked := Take(SortBy(candidates, ByCourseName(nameLe)), limit);
        SortTakeFromInput(candidates, ByCourseName(nameLe), limit);
        CourseHitsOf(ranked)
    }

    /** `search_files`: nothing without an accessible course; else the
        matching non-directory files of accessible courses, by name, at most
        `limit`. */
    function SearchFiles(query: string, user: User, limit: nat, fileType: Option<string>): (r: seq<SearchHit>)
      reads this, auth
      ensures |AccessibleIds(user)| == 0 ==> r == []
      ensures |r| <= limit
      ensures var n := |FileCandidates(auth.files, AccessibleIds(user), query, fileType)|;
        |AccessibleIds(user)| > 0 ==> |r| == if limit < n then limit else n
      ensures forall h :: h in r ==> exists f :: f in auth.files && h == FileHitOf(f) && !f.isDirectory
                                                 && f.courseId in AccessibleIds(user)
                                                 && (Matches(f.name, query) || Matches(Render(f.path), query))
                                                 && TypeFilter(f.name, fileType)
    {
      var ids := AccessibleIds(user);
      if |ids| == 0 then []
      else
        var candidates := FileCandidates(auth.files, ids, query, fileType);
        var ranked := Take(SortBy(candidates, ByFileName(nameLe)), limit);
        SortTakeFromInput(candidates, ByFileName(nameLe), limit);
        FileHitsOf(ranked)
    }

    /** `search_all`: both searches with the same limit; the total is the
        sum of their lengths, and the search is logged as 'all'. */
    method SearchAll(query: string, user: User, limit: nat) returns (courses: seq<SearchHit>, files: seq<SearchHit>, total: nat)
      modifies this
      ensures courses == SearchCourses(query, user, limit) && files == SearchFiles(query, user, limit, None)
      ensures total == |courses| + |files|
      ensures searchLog == old(searchLog) + [SearchLog(user.id, query, total, "all")]
    {
      courses := SearchCourses(query, user, limit);
      files := SearchFiles(query, user, limit, None);
      total := |courses| + |files|;
      LogSearch(user.id, query, total, "all");
    }

    /** `search_by_type`: dispatch on the type, then log the search
        whatever was run. */
    method SearchByType(query: string, user: User, searchType: string, limit: nat) returns (results: seq<SearchHit>)
      modifies this
      ensures match DispatchOf(searchType)
        case SearchCourses => results == SearchCourses(query, user, limit)
        case SearchFiles(ft) => results == SearchFiles(query, user, limit, ft)
        case NoSearch => results == []
      ensures searchLog == old(searchLog) + [SearchLog(user.id, query, |results|, searchType)]
    {
      if searchType == "courses" {
        results := SearchCourses(query, user, limit);
      } else if searchType == "files" {
        results := SearchFiles(query, user, limit, None);
      } else if searchType in FilteredTypes {
        results := SearchFiles(query, user, limit, Some(searchType));
      } else {
        results := [];
      }
      LogSearch(user.id, query, |results|, searchType);
    }

    /** `_log_search`. */
    method LogSearch(userId: nat, query: string, resultsCount: nat, searchType: string)
      modifies this
      ensures searchLog == old(searchLog) + [SearchLog(userId, query, resultsCount, searchType)]
    {
      searchLog := searchLog + [SearchLog(userId, query, resultsCount, searchType)];
    }

    /** Under a total order on names, course hits come by name, and a
        matching course left out by the limit comes after every hit; when
        the limit does not cut, every matching course is a hit. */
    lemma CourseHitsByName(query: string, user: User, limit: nat)
      requires TotalPreorder(nameLe)
      ensures var r := SearchCourses(query, user, limit);
        && (forall i, j :: 0 <= i < j < |r| ==> nameLe(r[i].name, r[j].name))
        && var cs := CourseCandidates(auth.courses, AccessibleIds(user), query);
           && (forall c :: c in cs && CourseHitOf(c) !in r ==> forall k :: 0 <= k < |r| ==> nameLe(r[k].name, c.name))
           && (limit >= |cs| ==> forall c :: c in cs ==> CourseHitOf(c) in r)
    {
      var ids := AccessibleIds(user);
      var cs := CourseCandidates(auth.courses, ids, query);
      if |ids| > 0 {
        assert SearchCourses(query, user, limit) == CourseHitsOf(Take(SortBy(cs, ByCourseName(nameLe)), limit));
        CourseHitsRanked(cs, nameLe, limit);
      }
    }

    /** Under a total order on names, file hits come by name, and a
        matching file left out by the limit comes after every hit; when the
        limit does not cut, every matching file is a hit. */
    lemma FileHitsByName(query: string, user: User, limit: nat, fileType: Option<string>)
      requires TotalPreorder(nameLe)
      ensures var r := SearchFiles(query, user, limit, fileType);
        && (forall i, j :: 0 <= i < j < |r| ==> nameLe(r[i].name, r[j].name))
        && var fs := FileCandidates(auth.files, AccessibleIds(user), query, fileType);
           && (forall f :: f in fs && FileHitOf(f) !in r ==> forall k :: 0 <= k < |r| ==> nameLe(r[k].name, f.name))
           && (limit >= |fs| ==> forall f :: f in fs ==> FileHitOf(f) in r)
    {
      var ids := AccessibleIds(user);
      var fs := FileCandidates(auth.files, ids, query, fileType);
      if |ids| > 0 {
        assert SearchFiles(query, user, limit, fileType) == FileHitsOf(Take(SortBy(fs, ByFileName(nameLe)), limit));
        FileHitsRanked(fs, nameLe, limit);
      }
    }
  }

  /** Hits of the first `limit` candidates by name: in name order, a
      candidate left out comes after every hit, and with no cut every
      candidate is a hit. */
  lemma CourseHitsRanked(cs: seq<Course>, nameLe: (string, string) -> bool, limit: nat)
    requires TotalPreorder(nameLe)
    ensures var r := CourseHitsOf(Take(SortBy(cs, ByCourseName(nameLe)), limit));
      && (forall i, j :: 0 <= i < j < |r| ==> nameLe(r[i].name, r[j].name))
      && (forall c :: c in cs && CourseHitOf(c) !in r ==> forall k :: 0 <= k < |r| ==> nameLe(r[k].name, c.name))
      && (limit >= |cs| ==> forall c :: c in cs ==> CourseHitOf(c) in r)
  {
    var le := ByCourseName(nameLe);
    var sorted := SortBy(cs, le);
    var ranked := Take(sorted, limit);
    var r := CourseHitsOf(ranked);
    CourseOrderIsPreorder(nameLe);
    SortBySorted(cs, le);
    assert forall i, j :: 0 <= i < j < |r| ==> nameLe(r[i].name, r[j].name) by {
      TakeSorted(sorted, le, limit);
      assert forall k :: 0 <= k < |r| ==> r[k].name == ranked[k].name;
    }
    assert forall c :: c in cs && CourseHitOf(c) !in r ==> forall k :: 0 <= k < |r| ==> nameLe(r[k].name, c.name) by {
      TakeKeepsTop(sorted, cs, le, limit);
      forall c | c in cs && CourseHitOf(c) !in r
        ensures forall k :: 0 <= k < |r| ==> nameLe(r[k].name, c.name)
      {
        HitOfRanked(ranked, c);
        assert c in multiset(cs);
        forall k | 0 <= k < |r|
          ensures nameLe(r[k].name, c.name)
        {
          assert ranked[k] in ranked && le(ranked[k], c);
        }
      }
    }
    if limit >= |cs| {
      assert ranked == sorted;
      forall c | c in cs
        ensures CourseHitOf(c) in r
      {
        assert c in multiset(cs);
        HitOfRanked(ranked, c);
      }
    }
  }

  lemma FileHitsRanked(fs: seq<FileNode>, nameLe: (string, string) -> bool, limit: nat)
    requires TotalPreorder(nameLe)
    ensures var r := FileHitsOf(Take(SortBy(fs, ByFileName(nameLe)), limit));
      && (forall i, j :: 0 <= i < j < |r| ==> nameLe(r[i].name, r[j].name))
      && (forall f :: f in fs && FileHitOf(f) !in r ==> forall k :: 0 <= k < |r| ==> nameLe(r[k].name, f.name))
      && (limit >= |fs| ==> forall f :: f in fs ==> FileHitOf(f) in r)
  {
    var le := ByFileName(nameLe);
    var sorted := SortBy(fs, le);
    var ranked := Take(sorted, limit);
    var r := FileHitsOf(ranked);
    FileOrderIsPreorder(nameLe);
    SortBySorted(fs, le);
    assert forall i, j :: 0 <= i < j < |r| ==> nameLe(r[i].name, r[j].name) by {
      TakeSorted(sorted, le, limit);
      assert forall k :: 0 <= k < |r| ==> r[k].name == ranked[k].name;
    }
    assert forall f :: f in fs && FileHitOf(f) !in r ==> forall k :: 0 <= k < |r| ==> nameLe(r[k].name, f.name) by {
      TakeKeepsTop(sorted, fs, le, limit);
      forall f | f in fs && FileHitOf(f) !in r
        ensures forall k :: 0 <= k < |r| ==> nameLe(r[k].name, f.name)
      {
        FileHitOfRanked(ranked, f);
        assert f in multiset(fs);
        forall k | 0 <= k < |r|
          ensures nameLe(r[k].name, f.name)
        {
          assert ranked[k] in ranked && le(ranked[k], f);
        }
      }
    }
    if limit >= |fs| {
      assert ranked == sorted;
      forall f | f in fs
        ensures FileHitOf(f) in r
      {
        assert f in multiset(fs);
        FileHitOfRanked(ranked, f);
      }
    }
  }

  /** A ranked course has its hit. */
  lemma HitOfRanked(ranked: seq<Course>, c: Course)
    ensures c in ranked <==> c in multiset(ranked)
    ensures c in ranked ==> CourseHitOf(c) in CourseHitsOf(ranked)
  {
    if c in ranked {
      var k :| 0 <= k < |ranked| && ranked[k] == c;
      assert CourseHitsOf(ranked)[k] == CourseHitOf(c);
    }
  }

  /** A ranked file has its hit. */
  lemma FileHitOfRanked(ranked: seq<FileNode>, f: FileNode)
    ensures f in ranked <==> f in multiset(ranked)
    ensures f in ranked ==> FileHitOf(f) in FileHitsOf(ranked)
  {
    if f in ranked {
      var k :| 0 <= k < |ranked| && ranked[k] == f;
      assert FileHitsOf(ranked)[k] == FileHitOf(f);
    }
  }
}
