/** How the two controllers relate: they are configured from the same
    options, and the catalog lists what an upload wrote. */
module CatalogAfterUpload {
  import opened Wrappers
  import opened Paths
  import opened Models
  import opened Storage
  import opened UploadIntake
  import opened Catalog

  /** Built from the same environment and options, both controllers are
      built or both fail, and both look at the same media folder path. */
  lemma ControllersShareMediaFolder(webRootPath: Option<string>, options: Option<HomeControllerOptions>, hasLogger: bool)
    ensures NewUploadController(webRootPath, options, hasLogger).Success?
        <==> NewHomeController(hasLogger, webRootPath, options).Success?
    ensures NewUploadController(webRootPath, options, hasLogger).Success? ==>
      NewUploadController(webRootPath, options, hasLogger).value.mediaFolderPath
        == NewHomeController(hasLogger, webRootPath, options).value.mediaFolderPath
  {
  }

  /** After a successful upload, the listing shows every uploaded file whose
      stored name matches "*.mp4", with the length of the last file of that name. */
  lemma UploadedVideosAreListed(mediaFolderPath: string, folder: Folder, files: seq<UploadItem>, max: int,
                                fault: Fault, entries: seq<string>, i: nat)
    requires WellFormedFolder(folder)
    requires UploadSpec(folder, files, max, fault).outcome.Ok?
    requires IsEnumeration(UploadSpec(folder, files, max, fault).folder, entries)
    requires i < |files| && IsLastWrite(files, i)
    requires MatchesSearchPattern(BaseName(files[i].fileName))
    ensures (UploadKeepsFolderWellFormed(folder, files, max, fault);
      VideoFile(BaseName(files[i].fileName), files[i].length)
        in ListVideos(mediaFolderPath, UploadSpec(folder, files, max, fault).folder, entries))
  {
    var after := UploadSpec(folder, files, max, fault).folder;
    UploadKeepsFolderWellFormed(folder, files, max, fault);
    OkStoresBatch(folder, files, max, fault);
    ListVideosExactly(mediaFolderPath, after, entries);
  }

  /** The upload accepts "CLIP.MP4", but the case-sensitive search pattern
      never lists it. */
  lemma UpperCaseUploadIsNotListed(mediaFolderPath: string, folder: Folder, max: int, entries: seq<string>)
    requires WellFormedFolder(folder) && max >= 1
    requires IsEnumeration(UploadSpec(folder, [UploadItem("CLIP.MP4", 1)], max, NoFault).folder, entries)
    ensures var r := UploadSpec(folder, [UploadItem("CLIP.MP4", 1)], max, NoFault);
      && r.outcome == Ok
      && "CLIP.MP4" in r.folder && r.folder["CLIP.MP4"] == 1
      && (UploadKeepsFolderWellFormed(folder, [UploadItem("CLIP.MP4", 1)], max, NoFault);
          forall v :: v in ListVideos(mediaFolderPath, r.folder, entries) ==> v.fileName != "CLIP.MP4")
  {
    var files := [UploadItem("CLIP.MP4", 1)];
    Mp4ExtensionExamples();
    PlainNameIsItsBaseName("CLIP.MP4");
    OkExactly(folder, files, max, NoFault);
    OkStoresBatch(folder, files, max, NoFault);
    assert IsLastWrite(files, 0);
    var r := UploadSpec(folder, files, max, NoFault);
    UploadKeepsFolderWellFormed(folder, files, max, NoFault);
    ListVideosExactly(mediaFolderPath, r.folder, entries);
    assert !MatchesSearchPattern("CLIP.MP4");
  }
}
