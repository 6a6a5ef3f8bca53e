/** The catalog pages (VideoCatalogApp/Controllers/HomeController.cs): the
    list of MP4 files in the media folder, as a view or as JSON, and a single
    file served for playback. */
module Catalog {
  import opened Wrappers
  import opened Paths
  import opened Models
  import opened Storage

  /** `VideoFileModel`: one listed file. */
  datatype VideoFile = VideoFile(fileName: string, fileSize: nat)

  /** The action results the controller produces. */
  datatype ActionResult =
    | ViewResult(model: seq<VideoFile>)
    | JsonResult(value: seq<VideoFile>)
    | NotFoundResult
    | PhysicalFileResult(fileName: string, contentType: string)

  /** The controller's readonly state. */
  datatype HomeController = HomeController(mediaFolderPath: string)

  /** The constructor, which checks the logger first, then the environment's
      web root path, then the options and their folder name. */
  function NewHomeController(hasLogger: bool, webRootPath: Option<string>, options: Option<HomeControllerOptions>)
    : (r: Result<HomeController, ArgumentNullException>)
    ensures r.Success? <==> hasLogger && webRootPath.Some? && options.Some? && options.value.mediaFolderName.Some?
    ensures r.Success? ==> r.value.mediaFolderPath == Combine(webRootPath.value, options.value.mediaFolderName.value)
    ensures r.Failure? && !hasLogger ==> r.error.paramName == "logger"
    ensures r.Failure? && hasLogger && webRootPath.None? ==> r.error.paramName == "env"
    ensures r.Failure? && hasLogger && webRootPath.Some? ==> r.error.paramName == "options"
  {
    if !hasLogger then Failure(ArgumentNullException("logger"))
    else if webRootPath.None? then Failure(ArgumentNullException("env"))
    else if options.None? || options.value.mediaFolderName.None? then Failure(ArgumentNullException("options"))
    else Success(HomeController(Combine(webRootPath.value, options.value.mediaFolderName.value)))
  }

  /** The search pattern "*.mp4", matched case-sensitively as on a Unix file system. */
  predicate MatchesSearchPattern(name: string) {
    |name| >= 4 && name[|name| - 4..] == ".mp4"
  }

  predicate Distinct<T(==)>(s: seq<T>) {
    forall i, j :: 0 <= i < j < |s| ==> s[i] != s[j]
  }

  /** `entries` is an order in which the directory enumerates the folder:
      every entry exactly once. */
  predicate IsEnumeration(folder: Folder, entries: seq<string>) {
    && Distinct(entries)
    && (forall n :: n in entries ==> n in folder)
    && (forall n :: n in folder ==> n in entries)
  }

  /** Every folder can be enumerated. */
  lemma EnumerationExists(folder: Folder) returns (entries: seq<string>)
    ensures IsEnumeration(folder, entries)
    decreases folder.Keys
  {
    if folder == map[] {
      entries := [];
    } else {
      var n :| n in folder;
      var rest := folder - {n};
      assert rest.Keys < folder.Keys;
      var tail := EnumerationExists(rest);
      entries := [n] + tail;
    }
  }

  /** The names `Directory.GetFiles(path, "*.mp4")` returns, in enumeration order. */
  function MatchingEntries(entries: seq<string>): (names: seq<string>)
    ensures forall n :: n in names <==> n in entries && MatchesSearchPattern(n)
    ensures Distinct(entries) ==> Distinct(names)
  {
    if entries == [] then []
    else
      var rest := MatchingEntries(entries[1..]);
      assert forall n :: n in entries <==> n == entries[0] || n in entries[1..];
      if MatchesSearchPattern(entries[0]) then [entries[0]] + rest else rest
  }

  /** The `Select` body for one file: `Path.GetFileName` of its full path,
      and `FileInfo.Length`. */
  function DescribeFile(mediaFolderPath: string, folder: Folder, name: string): (v: VideoFile)
    requires name in folder && IsPlainName(name)
    ensures v == VideoFile(name, folder[name])
  {
    var path := Combine(mediaFolderPath, name);
    BaseNameOfCombine(mediaFolderPath, name);
    VideoFile(BaseName(path), folder[BaseName(path)])
  }

  /** `Select(...).ToList()` over the matching names. */
  function DescribeAll(mediaFolderPath: string, folder: Folder, names: seq<string>): (r: seq<VideoFile>)
    requires forall n :: n in names ==> n in folder && IsPlainName(n)
    ensures |r| == |names|
    ensures forall i :: 0 <= i < |names| ==> r[i] == VideoFile(names[i], folder[names[i]])
  {
    if names == [] then []
    else [DescribeFile(mediaFolderPath, folder, names[0])] + DescribeAll(mediaFolderPath, folder, names[1..])
  }

  /** The listing shared by Index and GetVideos. */
  function ListVideos(mediaFolderPath: string, folder: Folder, entries: seq<string>): (r: seq<VideoFile>)
    requires WellFormedFolder(folder) && IsEnumeration(folder, entries)
  {
    DescribeAll(mediaFolderPath, folder, MatchingEntries(entries))
  }

  /** One descriptor per matching file, carrying its own name and length,
      and nothing else. */
  lemma ListVideosExactly(mediaFolderPath: string, folder: Folder, entries: seq<string>)
    requires WellFormedFolder(folder) && IsEnumeration(folder, entries)
    ensures var r := ListVideos(mediaFolderPath, folder, entries);
      && (forall v: VideoFile :: v in r <==>
            v.fileName in folder && MatchesSearchPattern(v.fileName) && v.fileSize == folder[v.fileName])
      && (forall i, j :: 0 <= i < j < |r| ==> r[i].fileName != r[j].fileName)
  {
    var names := MatchingEntries(entries);
    var r := ListVideos(mediaFolderPath, folder, entries);
    forall v: VideoFile | v.fileName in folder && MatchesSearchPattern(v.fileName) && v.fileSize == folder[v.fileName]
      ensures v in r
    {
      var i :| 0 <= i < |names| && names[i] == v.fileName;
      assert r[i] == v;
    }
  }

  /** Listing twice gives the same files whatever order the directory
      enumerates them in. */
  lemma ListingIgnoresEnumerationOrder(mediaFolderPath: string, folder: Folder, e1: seq<string>, e2: seq<string>)
    requires WellFormedFolder(folder) && IsEnumeration(folder, e1) && IsEnumeration(folder, e2)
    ensures multiset(ListVideos(mediaFolderPath, folder, e1)) == multiset(ListVideos(mediaFolderPath, folder, e2))
  {
    var r1 := ListVideos(mediaFolderPath, folder, e1);
    var r2 := ListVideos(mediaFolderPath, folder, e2);
    ListVideosExactly(mediaFolderPath, folder, e1);
    ListVideosExactly(mediaFolderPath, folder, e2);
    forall v: VideoFile ensures multiset(r1)[v] == multiset(r2)[v] {
      DistinctCount(r1, v);
      DistinctCount(r2, v);
    }
  }

  /** In a sequence without repetitions each element occurs once. */
  lemma {:induction false} DistinctCount(s: seq<VideoFile>, x: VideoFile)
    requires Distinct(s)
    ensures multiset(s)[x] == if x in s then 1 else 0
  {
    if s != [] {
      assert s == [s[0]] + s[1..];
      DistinctCount(s[1..], x);
      if x == s[0] {
        assert x !in s[1..];
      }
    }
  }

  /** Index: the listing as a view, one descriptor per matching file. */
  function Index(c: HomeController, folder: Folder, entries: seq<string>): (r: ActionResult)
    requires WellFormedFolder(folder) && IsEnumeration(folder, entries)
    ensures r.ViewResult?
    ensures forall v: VideoFile :: v in r.model <==>
      v.fileName in folder && MatchesSearchPattern(v.fileName) && v.fileSize == folder[v.fileName]
    ensures forall i, j :: 0 <= i < j < |r.model| ==> r.model[i].fileName != r.model[j].fileName
    ensures forall v: VideoFile :: v in r.model ==> |v.fileName| > 0
  {
    ListVideosExactly(c.mediaFolderPath, folder, entries);
    ViewResult(ListVideos(c.mediaFolderPath, folder, entries))
  }

  /** GetVideos: the same listing as JSON. */
  function GetVideos(c: HomeController, folder: Folder, entries: seq<string>): (r: ActionResult)
    requires WellFormedFolder(folder) && IsEnumeration(folder, entries)
    ensures r.JsonResult? && r.value == Index(c, folder, entries).model
  {
    JsonResult(ListVideos(c.mediaFolderPath, folder, entries))
  }

  /** `File.Exists(path)` for a path naming a file of the media folder. */
  predicate FileExists(mediaFolderPath: string, folder: Folder, path: string) {
    exists n :: n in folder && Combine(mediaFolderPath, n) == path
  }

  /** Play: the file at `Combine(mediaFolderPath, fileName)` as an MP4
      stream, or 404. */
  function Play(c: HomeController, folder: Folder, fileName: string): (r: ActionResult)
    ensures r.NotFoundResult? || r == PhysicalFileResult(Combine(c.mediaFolderPath, fileName), "video/mp4")
  {
    var filePath := Combine(c.mediaFolderPath, fileName);
    if !FileExists(c.mediaFolderPath, folder, filePath) then NotFoundResult
    else PhysicalFileResult(filePath, "video/mp4")
  }

  /** Playing a plain file name finds it exactly when the folder holds it. */
  lemma PlayFindsFolderEntry(c: HomeController, folder: Folder, fileName: string)
    requires WellFormedFolder(folder) && IsPlainName(fileName)
    ensures Play(c, folder, fileName).NotFoundResult? <==> fileName !in folder
  {
    var path := Combine(c.mediaFolderPath, fileName);
    if FileExists(c.mediaFolderPath, folder, path) {
      var n :| n in folder && Combine(c.mediaFolderPath, n) == path;
      CombineInjective(c.mediaFolderPath, n, fileName);
    }
  }
}
