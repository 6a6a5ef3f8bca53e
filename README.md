# VideoCatalogApp core, modelled in Dafny

VideoCatalogApp is a small ASP.NET Core site that keeps MP4 videos in one
media folder under the web root. Two controllers make up its core:

- `UploadController` takes a multipart batch of files. It rejects the whole
  batch with 413 when the total size is strictly above the configured
  maximum. Otherwise it walks the files in order. Each file must be non-empty
  and have a `.mp4` extension in any letter case. A good file is written
  under its base name, and a later file of the same name overwrites an
  earlier one. The first bad file ends the request with 400, and the first
  failed write ends it with 500. Files already written stay written. A
  network failure gives 503, and a batch that runs to the end gives 200.
- `HomeController` lists the folder's `*.mp4` files as name/size pairs. It
  returns that list as a view (`Index`) or as JSON (`GetVideos`). `Play`
  streams one file as `video/mp4`, or answers 404 when the file does not
  exist.

Both constructors throw `ArgumentNullException` for a missing environment,
options value or logger. Both store `Path.Combine(WebRootPath,
MediaFolderName)` as the media folder path.

The model has these modules:

- `Paths`: the parts of `System.IO.Path` that the controllers use (`GetFileName`,
  `GetExtension`, `Combine`) on a Unix host, plus ASCII `ToLower`.
- `Storage`: the media folder, a map from entry name to byte length. The
  `MediaFolder` class holds it, and an upload changes it in place.
- `Models`: `HomeControllerOptions` and the argument-check exception.
- `UploadIntake`: the upload controller. `UploadSpec` gives the outcome and
  the new folder as a function of the old folder, the batch, the maximum and
  the one environment failure, if any. The imperative `Upload` loop is
  proved to produce exactly that.
- `Catalog`: the home controller. The directory enumeration order is an
  input; any two enumerations give the same descriptors up to order, while
  the order of the list follows the enumeration.
- `CatalogAfterUpload`: how the two controllers agree: the same media
  folder path, and uploaded videos show up in the listing.
- `UploadScenarios`: the scenarios of `UploadControllerTests.cs`, stated for
  any starting folder.

Points where the code differs from its own descriptions:

- A zero-length `.mp4` file is rejected with 400 and ends the batch. It is
  not skipped.
- The 413 text always says "200 MB", whatever maximum is configured.
- The upload filter ignores letter case, but the listing's `"*.mp4"` pattern
  is case-sensitive on a Unix file system. So an accepted `CLIP.MP4` is
  stored but never listed (`UpperCaseUploadIsNotListed`).
- The server-error and network-failure tests build the controller over a
  mocked environment whose web root path is null. The constructor then
  throws on `env` before `Upload` runs. Their 500 and 503 come from the
  tests' own catch blocks (`MockedEnvironmentNeverReachesTheHandler`).

## Model

| member | source | states |
|---|---|---|
| Paths.BaseNameIsLastSegment | VideoCatalogApp/Controllers/UploadController.cs:64 | `GetFileName` gives the longest separator-free suffix of the path; unless it is the whole path, a separator comes right before it |
| Paths.DotSuffixEmptyIff | VideoCatalogApp/Controllers/UploadController.cs:62 | the last segment's dot suffix is empty exactly when that segment holds no '.' |
| Paths.Extension | VideoCatalogApp/Controllers/UploadController.cs:62 | `GetExtension` is empty exactly when the last segment has no '.' or the path ends in '.'; otherwise it is the suffix from the last '.' of the last segment: it starts with '.', has no further '.' or separator, and has at least two characters |
| Paths.Combine | VideoCatalogApp/Controllers/UploadController.cs:64 | combining a folder path with a plain entry name gives a path that ends with that name |
| Paths.ToLower | VideoCatalogApp/Controllers/UploadController.cs:62 | lower-casing keeps the length, leaves no upper-case ASCII letter, keeps every other character and moves each upper-case letter to its lower-case partner |
| Paths.ToLowerIdempotent | VideoCatalogApp/Controllers/UploadController.cs:62 | lower-casing an already lower-cased string changes nothing |
| Paths.Mp4ExtensionIsGetExtension | VideoCatalogApp/Controllers/UploadController.cs:62 | the character-wise type test holds exactly when `GetExtension(name).ToLower() == ".mp4"` |
| Paths.Mp4ExtensionGivesGetExtension | VideoCatalogApp/Controllers/UploadController.cs:62 | a name passing the character-wise test has `GetExtension(name).ToLower() == ".mp4"` |
| Paths.GetExtensionGivesMp4Extension | VideoCatalogApp/Controllers/UploadController.cs:62 | a name with `GetExtension(name).ToLower() == ".mp4"` passes the character-wise test |
| Paths.Mp4ExtensionExamples | VideoCatalogApp/Controllers/UploadController.cs:62 | `CLIP.MP4` and `videos/clip.Mp4` pass the type test; `document.pdf` and `clip.mp4.txt` fail it |
| Paths.Mp4BaseNameIsPlain | VideoCatalogApp/Controllers/UploadController.cs:62-64 | an accepted file's base name is non-empty and has no separator, so every write targets an entry directly inside the media folder |
| Paths.PlainNameIsItsBaseName | VideoCatalogApp/Controllers/UploadController.cs:64 | a name without separators is stored under itself |
| Paths.BaseNameAfterSeparator | VideoCatalogApp/Controllers/UploadController.cs:64 | a separator-free name placed after a separator, or at the start, is its own base name |
| Paths.BaseNameOfCombine | VideoCatalogApp/Controllers/HomeController.cs:37-40 | taking `GetFileName` of a folder path combined with an entry name gives the entry name back |
| Paths.CombineInjective | VideoCatalogApp/Controllers/HomeController.cs:62-63 | different entry names give different paths under the same folder |
| UploadIntake.Outcome.StatusCode | VideoCatalogApp/Controllers/UploadController.cs:53-96 | the status is 200 exactly on success, 4xx exactly for oversize or bad type, and 5xx exactly for storage or network failure |
| UploadIntake.Outcome.Body | VideoCatalogApp/Controllers/UploadController.cs:53-96 | every failure response has a non-empty text; success has none |
| UploadIntake.NewUploadController | VideoCatalogApp/Controllers/UploadController.cs:26-35 | the constructor succeeds exactly when env, options (with a folder name) and logger are present; the path is `Combine(WebRootPath, MediaFolderName)` and the maximum is copied; failures name `env`, then `options`, then `logger`, in that order |
| UploadIntake.FirstHalt | VideoCatalogApp/Controllers/UploadController.cs:60-87 | the loop stops at the first index where the stream fails, the file is rejected or its write fails; every file before it is accepted and no fault fires earlier |
| UploadIntake.FirstHaltIs | VideoCatalogApp/Controllers/UploadController.cs:60-87 | an index with only accepted files and no fault before it, which halts or is the end, is the stopping index |
| UploadIntake.WriteAllStep | VideoCatalogApp/Controllers/UploadController.cs:64-72 | writing one more file sets its base-name entry to its length on top of what the earlier writes left |
| UploadIntake.UploadSpec | VideoCatalogApp/Controllers/UploadController.cs:43-103 | 413 exactly when the total is strictly above the maximum, and then the folder is untouched; 400 only when some file is rejected; 500 only on a write failure, carrying its message; 503 only on a transport failure |
| UploadIntake.Upload | VideoCatalogApp/Controllers/UploadController.cs:43-96 | the handler's loop returns the outcome and leaves the folder exactly as `UploadSpec` says |
| UploadIntake.WriteAllWrites | VideoCatalogApp/Controllers/UploadController.cs:60-72 | after writing a sequence of files, each name holds the length of the last file written under it; names no file writes to are unchanged, present or absent alike |
| UploadIntake.ItemWithinTotal | VideoCatalogApp/Controllers/UploadController.cs:50 | the total is at least each file's length |
| UploadIntake.OversizeItemRejected | VideoCatalogApp/Controllers/UploadController.cs:50-57 | one file above the maximum rejects the whole batch with 413 and writes nothing |
| UploadIntake.EmptyBatch | VideoCatalogApp/Controllers/UploadController.cs:50-89 | an empty batch succeeds and writes nothing, unless the maximum is negative, in which case it gets 413 |
| UploadIntake.OkExactly | VideoCatalogApp/Controllers/UploadController.cs:53-89 | the request succeeds exactly when the total is within the maximum, every file is non-empty with an MP4 extension, and no fault fires within the batch |
| UploadIntake.OkStoresBatch | VideoCatalogApp/Controllers/UploadController.cs:60-89 | on success every file is stored under its base name (the last of equal names wins) and every other entry is unchanged |
| UploadIntake.RejectionStopsTheBatch | VideoCatalogApp/Controllers/UploadController.cs:60-86 | the first empty or non-MP4 file gives 400; the files before it are written and no later file is |
| UploadIntake.BadTypeHasFirstRejected | VideoCatalogApp/Controllers/UploadController.cs:60-86 | every 400 comes from a first rejected file, with exactly the files before it written |
| UploadIntake.StorageFailureKeepsEarlierWrites | VideoCatalogApp/Controllers/UploadController.cs:64-79 | a failed write gives 500 with the exception's message, never 503; the earlier files stay written and only the failing file's target may differ from that |
| UploadIntake.TransportFailureKeepsEarlierWrites | VideoCatalogApp/Controllers/UploadController.cs:91-96 | a network failure gives 503; the files before it stay written and none after it is written |
| UploadIntake.WriteAllWellFormed | VideoCatalogApp/Controllers/UploadController.cs:62-72 | writing accepted files keeps every folder entry a plain name |
| UploadIntake.UploadKeepsFolderWellFormed | VideoCatalogApp/Controllers/UploadController.cs:43-96 | every request, whatever its outcome, leaves only plain names in the folder |
| Catalog.NewHomeController | VideoCatalogApp/Controllers/HomeController.cs:22-27 | the constructor succeeds exactly when logger, env and options (with a folder name) are present; the path is `Combine(WebRootPath, MediaFolderName)`; failures name `logger`, then `env`, then `options`, in that order |
| Catalog.EnumerationExists | VideoCatalogApp/Controllers/HomeController.cs:37 | every folder has an enumeration that lists each entry exactly once |
| Catalog.MatchingEntries | VideoCatalogApp/Controllers/HomeController.cs:37 | `GetFiles(path, "*.mp4")` returns exactly the entries that match the pattern, without repeats |
| Catalog.DescribeFile | VideoCatalogApp/Controllers/HomeController.cs:38-41 | the descriptor of an entry carries the entry's own name and its length |
| Catalog.DescribeAll | VideoCatalogApp/Controllers/HomeController.cs:37-42 | one descriptor per name, in order, each with that name's length |
| Catalog.ListVideosExactly | VideoCatalogApp/Controllers/HomeController.cs:37-42 | a descriptor is listed exactly when it names a folder file that matches `*.mp4` and carries that file's size; no name is listed twice |
| Catalog.ListingIgnoresEnumerationOrder | VideoCatalogApp/Controllers/HomeController.cs:37-42 | any two enumerations of the same folder give the same descriptors, up to order |
| Catalog.Index | VideoCatalogApp/Controllers/HomeController.cs:33-51 | `Index` answers with a view whose model holds a descriptor exactly when it names a folder file matching `*.mp4` and carries that file's size; no name appears twice and every name is non-empty |
| Catalog.GetVideos | VideoCatalogApp/Controllers/HomeController.cs:81-99 | `GetVideos` answers with JSON whose value is the very list `Index` shows |
| Catalog.Play | VideoCatalogApp/Controllers/HomeController.cs:58-74 | `Play` answers either 404 or the file at `Combine(mediaFolderPath, fileName)` with content type `video/mp4` |
| Catalog.PlayFindsFolderEntry | VideoCatalogApp/Controllers/HomeController.cs:58-68 | for a plain file name, `Play` answers 404 exactly when the folder has no such entry |
| CatalogAfterUpload.ControllersShareMediaFolder | VideoCatalogApp/Controllers/UploadController.cs:28-31 | given the same environment and options, both controllers are built or neither is, and both use the same media folder path |
| CatalogAfterUpload.UploadedVideosAreListed | VideoCatalogApp/Controllers/HomeController.cs:37-42 | after a successful upload, each stored file whose name matches `*.mp4` is listed with the length of the last file of that name |
| CatalogAfterUpload.UpperCaseUploadIsNotListed | VideoCatalogApp/Controllers/UploadController.cs:62 | `CLIP.MP4` is accepted and stored, but the case-sensitive listing never shows it |
| UploadScenarios.ValidMp4FilesAreStored | VideoCatalogApp.Tests/UploadControllerTests.cs:28-42 | 100 MiB and 50 MiB MP4 files under a 200 MiB limit give 200, and both are added to the folder with their lengths |
| UploadScenarios.NonMp4FileIsRefused | VideoCatalogApp.Tests/UploadControllerTests.cs:48-62 | a PDF gives 400 with "Only MP4 files are allowed." and nothing is written |
| UploadScenarios.OversizeFileIsRefused | VideoCatalogApp.Tests/UploadControllerTests.cs:68-79 | a 250 MiB file under a 200 MiB limit gives 413 and nothing is written |
| UploadScenarios.FailuresMapToServerErrors | VideoCatalogApp/Controllers/UploadController.cs:75-96 | a valid file whose write throws gives 500; a transport failure at that file gives 503 |
| UploadScenarios.MockedEnvironmentNeverReachesTheHandler | VideoCatalogApp.Tests/UploadControllerTests.cs:81-125 | with a null web root path, construction fails on `env`; with the size limit those tests leave at 0, the same file would get 413 |

## Left out

- Logging: only whether a logger was supplied is modelled.
- File contents and the async stream copy: a file is its name and byte length.
- Concurrency between requests: each request sees the folder as the previous one left it.
- UploadIntake.UploadSpec: the outer `catch (Exception)` that returns 500 "An error occurred during file upload." is not modelled. Its one plausible trigger is a `long` overflow in `files.Sum`, and `TotalLength` is unbounded.
- UploadIntake.Upload: an `HttpRequestException` from inside a file's write is caught by the write's own handler as 500. So the 503 path is an environment input, `TransportFault`, that fires as the loop reaches a file. Where exactly the runtime raises it is not modelled.
- UploadIntake.Upload: a null file list or null file entries are not modelled, since model binding supplies a list.
- Catalog.Index, Catalog.GetVideos, Catalog.Play: exceptions are logged and rethrown, for example for a missing media folder, invalid path characters or a null file name. The model assumes the folder exists and names are non-null.
- Catalog.Play: a file name that is not a plain entry name is decided by exact path equality with `Combine(mediaFolderPath, entry)`. A rooted name equal to an entry's full path plays, because `Combine` returns a rooted second argument unchanged. Every other such name answers 404, including names like `./clip.mp4` that the file system resolves to an entry of the folder, and names that resolve to files outside it.
- Paths: only Unix path rules are modelled: '/' is the only separator and a path is rooted by a leading '/'. Windows separators, drive roots and the 8.3 short-name and case-insensitive matching of `GetFiles` are not modelled.
- Paths.ToLower: only ASCII letters are lowered. Culture-specific case mapping is not modelled.
- View rendering and JSON serialization are left out. `Index` and `GetVideos` hand over the list itself.
- `Startup.cs`, the multipart body limit it configures, `site.js` and the test host setup are not part of this model.
