/** The upload endpoint (VideoCatalogApp/Controllers/UploadController.cs):
    an aggregate size check, then an ordered validate-and-write pass over the
    submitted files that stops at the first rejected file or failure. */
module UploadIntake {
  import opened Wrappers
  import opened Paths
  import opened Models
  import opened Storage

  /** One submitted form file: its client-supplied name and its length. */
  datatype UploadItem = UploadItem(fileName: string, length: nat)

  /** The response of one upload request. */
  datatype Outcome = Ok | TooLarge | BadType | StorageError(message: string) | NetworkError
  {
    /** The HTTP status: 2xx for success, 4xx for what the client sent wrong,
        5xx for failures on the server's side. */
    function StatusCode(): (code: nat)
      ensures code == 200 <==> Ok?
      ensures 400 <= code < 500 <==> TooLarge? || BadType?
      ensures 500 <= code < 600 <==> StorageError? || NetworkError?
    {
      match this
      case Ok => 200
      case TooLarge => 413
      case BadType => 400
      case StorageError(_) => 500
      case NetworkError => 503
    }

    /** The response text: every failure explains itself, success has no body. */
    function Body(): (text: string)
      ensures text == [] <==> Ok?
    {
      match this
      case Ok => ""
      case TooLarge => "Total file size exceeds 200 MB. Please upload smaller files."
      case BadType => "Only MP4 files are allowed."
      case StorageError(message) => "An error occurred while uploading the file: " + message
      case NetworkError => "A network error occurred during file upload."
    }
  }

  /** What the environment does wrong during one request, if anything; only
      the first failure matters, since every failure ends the request.
      WriteFault: creating or copying the file of item `at` throws with
      `message`; `residue` is what is left in its target (None: the target was
      never opened; Some(n): it was truncated and holds n bytes).
      TransportFault: the request stream fails as the loop reaches item `at`. */
  datatype Fault =
    | NoFault
    | WriteFault(at: nat, message: string, residue: Option<nat>)
    | TransportFault(at: nat)

  /** A fault that fires at one of the first n items. */
  predicate FaultStrikesWithin(fault: Fault, n: nat) {
    (fault.WriteFault? || fault.TransportFault?) && fault.at < n
  }

  /** The controller's readonly state. */
  datatype UploadController = UploadController(mediaFolderPath: string, maxFileSizeBytes: Int64)

  /** The constructor: `webRootPath` is `env?.WebRootPath`, `options` is
      `options?.Value`, `hasLogger` says whether a logger was supplied. */
  function NewUploadController(webRootPath: Option<string>, options: Option<HomeControllerOptions>, hasLogger: bool)
    : (r: Result<UploadController, ArgumentNullException>)
    ensures r.Success? <==> webRootPath.Some? && options.Some? && options.value.mediaFolderName.Some? && hasLogger
    ensures r.Success? ==>
      && r.value.mediaFolderPath == Combine(webRootPath.value, options.value.mediaFolderName.value)
      && r.value.maxFileSizeBytes == options.value.maxFileSizeBytes
    ensures r.Failure? && webRootPath.None? ==> r.error.paramName == "env"
    ensures r.Failure? && webRootPath.Some? && (options.None? || options.value.mediaFolderName.None?) ==>
      r.error.paramName == "options"
    ensures r.Failure? && webRootPath.Some? && options.Some? && options.value.mediaFolderName.Some? ==>
      r.error.paramName == "logger"
  {
    if webRootPath.None? then Failure(ArgumentNullException("env"))
    else if options.None? || options.value.mediaFolderName.None? then Failure(ArgumentNullException("options"))
    else if !hasLogger then Failure(ArgumentNullException("logger"))
    else Success(UploadController(Combine(webRootPath.value, options.value.mediaFolderName.value), options.value.maxFileSizeBytes))
  }

  /** `files.Sum(file => file.Length)`. */
  function TotalLength(files: seq<UploadItem>): nat {
    if |files| == 0 then 0 else TotalLength(files[..|files| - 1]) + files[|files| - 1].length
  }

  /** The per-file test: non-empty and with an MP4 extension in any case. */
  predicate Accepted(item: UploadItem) {
    item.length > 0 && HasMp4Extension(item.fileName)
  }

  /** Processing item i ends the request: the stream fails there, the item is
      rejected, or writing it fails. */
  predicate HaltsAt(files: seq<UploadItem>, fault: Fault, i: nat)
    requires i < |files|
  {
    fault == TransportFault(i) || !Accepted(files[i]) || (fault.WriteFault? && fault.at == i)
  }

  /** The first index at or after `from` where processing ends the request,
      or |files| when it runs to completion. */
  function FirstHalt(files: seq<UploadItem>, fault: Fault, from: nat): (j: nat)
    requires from <= |files|
    ensures from <= j <= |files|
    ensures forall k :: from <= k < j ==> Accepted(files[k])
    ensures (fault.WriteFault? || fault.TransportFault?) ==> fault.at < from || j <= fault.at
    ensures j < |files| ==> HaltsAt(files, fault, j)
    decreases |files| - from
  {
    if from == |files| || HaltsAt(files, fault, from) then from
    else FirstHalt(files, fault, from + 1)
  }

  /** FirstHalt is the least halting index. */
  lemma FirstHaltIs(files: seq<UploadItem>, fault: Fault, i: nat)
    requires i <= |files|
    requires forall k :: 0 <= k < i ==> Accepted(files[k])
    requires !FaultStrikesWithin(fault, i)
    requires i < |files| ==> HaltsAt(files, fault, i)
    ensures FirstHalt(files, fault, 0) == i
  {
  }

  /** The folder after writing `files` in order, each under its base name
      with FileMode.Create (an existing entry is replaced). */
  function WriteAll(folder: Folder, files: seq<UploadItem>): Folder {
    if |files| == 0 then folder
    else
      var last := files[|files| - 1];
      WriteAll(folder, files[..|files| - 1])[BaseName(last.fileName) := last.length]
  }

  /** Writing one more file extends the prefix written so far. */
  lemma WriteAllStep(folder: Folder, files: seq<UploadItem>, i: nat)
    requires i < |files|
    ensures WriteAll(folder, files[..i + 1]) == WriteAll(folder, files[..i])[BaseName(files[i].fileName) := files[i].length]
  {
    assert files[..i + 1][..i] == files[..i];
  }

  /** What a failed write leaves in its target. */
  function AfterFailedWrite(folder: Folder, name: string, residue: Option<nat>): Folder {
    match residue
    case None => folder
    case Some(n) => folder[name := n]
  }

  /** The folder and the response after one request. */
  datatype UploadResult = UploadResult(outcome: Outcome, folder: Folder)

  /** One upload request, as a function of the folder before it, the
      submitted files, the configured maximum and the environment's fault. */
  function UploadSpec(folder: Folder, files: seq<UploadItem>, max: int, fault: Fault): (r: UploadResult)
    ensures r.outcome.TooLarge? <==> TotalLength(files) > max
    ensures r.outcome.TooLarge? ==> r.folder == folder
    ensures r.outcome.BadType? ==> exists j :: 0 <= j < |files| && !Accepted(files[j])
    ensures r.outcome.StorageError? ==> fault.WriteFault? && r.outcome.message == fault.message
    ensures r.outcome.NetworkError? ==> fault.TransportFault?
  {
    if TotalLength(files) > max then UploadResult(TooLarge, folder)
    else
      var j := FirstHalt(files, fault, 0);
      var written := WriteAll(folder, files[..j]);
      if j == |files| then UploadResult(Ok, written)
      else if fault == TransportFault(j) then UploadResult(NetworkError, written)
      else if !Accepted(files[j]) then UploadResult(BadType, written)
      else UploadResult(StorageError(fault.message),
                        AfterFailedWrite(written, BaseName(files[j].fileName), fault.residue))
  }

  /** The handler. The folder's files change exactly as UploadSpec says. */
  method Upload(c: UploadController, folder: MediaFolder, files: seq<UploadItem>, fault: Fault)
    returns (outcome: Outcome)
    modifies folder
    ensures UploadResult(outcome, folder.files) == UploadSpec(old(folder.files), files, c.maxFileSizeBytes as int, fault)
  {
    var totalSizeBytes := TotalLength(files);
    if totalSizeBytes > c.maxFileSizeBytes as int {
      return TooLarge;
    }
    ghost var original := folder.files;
    var i := 0;
    while i < |files|
      invariant 0 <= i <= |files|
      invariant forall k :: 0 <= k < i ==> Accepted(files[k])
      invariant !FaultStrikesWithin(fault, i)
      invariant folder.files == WriteAll(original, files[..i])
    {
      if fault == TransportFault(i) {
        FirstHaltIs(files, fault, i);
        return NetworkError;
      }
      var file := files[i];
      if !Accepted(file) {
        FirstHaltIs(files, fault, i);
        return BadType;
      }
      var name := BaseName(file.fileName);
      if fault.WriteFault? && fault.at == i {
        FirstHaltIs(files, fault, i);
        folder.files := AfterFailedWrite(folder.files, name, fault.residue);
        return StorageError(fault.message);
      }
      WriteAllStep(original, files, i);
      folder.files := folder.files[name := file.length];
      i := i + 1;
    }
    assert files[..i] == files;
    FirstHaltIs(files, fault, i);
    return Ok;
  }

  // ---------------------------------------------------------------------
  // What a request does to the folder, stated without WriteAll

  /** Some item of `items` is stored under the name k. */
  predicate NamedBy(items: seq<UploadItem>, k: string) {
    exists i :: 0 <= i < |items| && BaseName(items[i].fileName) == k
  }

  /** No later item of `items` is stored under the same name as item i. */
  predicate IsLastWrite(items: seq<UploadItem>, i: nat)
    requires i < |items|
  {
    forall j :: i < j < |items| ==> BaseName(items[j].fileName) != BaseName(items[i].fileName)
  }

  /** On every name outside `spared`, `after` is `before` with `items` written
      in order: the last item stored under a name gives that name's length,
      and a name no item targets keeps its entry (or its absence). */
  ghost predicate WrittenOutside(before: Folder, after: Folder, items: seq<UploadItem>, spared: set<string>) {
    && (forall i :: 0 <= i < |items| && IsLastWrite(items, i) && BaseName(items[i].fileName) !in spared ==>
          BaseName(items[i].fileName) in after && after[BaseName(items[i].fileName)] == items[i].length)
    && (forall k :: k !in spared && !NamedBy(items, k) ==>
          (k in after <==> k in before) && (k in before ==> after[k] == before[k]))
  }

  ghost predicate Written(before: Folder, after: Folder, items: seq<UploadItem>) {
    WrittenOutside(before, after, items, {})
  }

  /** Writing the items one after another stores each name's last item and
      leaves every other entry alone. */
  lemma {:induction false} WriteAllWrites(folder: Folder, items: seq<UploadItem>)
    ensures Written(folder, WriteAll(folder, items), items)
    decreases |items|
  {
    if |items| > 0 {
      var n := |items|;
      var init := items[..n - 1];
      var b := BaseName(items[n - 1].fileName);
      var w' := WriteAll(folder, init);
      var w := WriteAll(folder, items);
      WriteAllWrites(folder, init);
      assert w == w'[b := items[n - 1].length];
      forall i | 0 <= i < n && IsLastWrite(items, i)
        ensures BaseName(items[i].fileName) in w && w[BaseName(items[i].fileName)] == items[i].length
      {
        if i < n - 1 {
          assert items[i] == init[i];
          assert BaseName(items[n - 1].fileName) != BaseName(items[i].fileName);
          forall j | i < j < n - 1 ensures BaseName(init[j].fileName) != BaseName(init[i].fileName) {
            assert init[j] == items[j];
          }
          assert IsLastWrite(init, i);
        }
      }
      forall k | !NamedBy(items, k)
        ensures (k in w <==> k in folder) && (k in folder ==> w[k] == folder[k])
      {
      }
    }
  }

  // ---------------------------------------------------------------------
  // Properties of one request

  /** `files.Sum` is at least each file's length. */
  lemma {:induction false} ItemWithinTotal(files: seq<UploadItem>, i: nat)
    requires i < |files|
    ensures files[i].length <= TotalLength(files)
    decreases |files|
  {
    if i < |files| - 1 {
      ItemWithinTotal(files[..|files| - 1], i);
    }
  }

  /** A single file larger than the maximum rejects the whole batch and
      writes nothing. */
  lemma OversizeItemRejected(folder: Folder, files: seq<UploadItem>, max: int, fault: Fault, i: nat)
    requires i < |files| && files[i].length > max
    ensures UploadSpec(folder, files, max, fault) == UploadResult(TooLarge, folder)
  {
    ItemWithinTotal(files, i);
  }

  /** An empty batch succeeds without touching the folder, unless the
      configured maximum is negative. */
  lemma EmptyBatch(folder: Folder, max: int, fault: Fault)
    ensures UploadSpec(folder, [], max, fault) ==
      UploadResult(if max >= 0 then Ok else TooLarge, folder)
  {
    assert WriteAll(folder, [][..0]) == folder;
  }

  /** Success exactly when the total is within the maximum, every file is
      non-empty with an MP4 extension, and no fault fires on the batch. */
  lemma OkExactly(folder: Folder, files: seq<UploadItem>, max: int, fault: Fault)
    ensures UploadSpec(folder, files, max, fault).outcome.Ok? <==>
      && TotalLength(files) <= max
      && (forall i :: 0 <= i < |files| ==> Accepted(files[i]))
      && !FaultStrikesWithin(fault, |files|)
  {
    if TotalLength(files) <= max {
      var j := FirstHalt(files, fault, 0);
      if j < |files| {
        assert HaltsAt(files, fault, j);
      }
    }
  }

  /** After success every file is stored under its base name, the last of
      several files with one name wins, and every other entry is unchanged. */
  lemma OkStoresBatch(folder: Folder, files: seq<UploadItem>, max: int, fault: Fault)
    requires UploadSpec(folder, files, max, fault).outcome.Ok?
    ensures Written(folder, UploadSpec(folder, files, max, fault).folder, files)
  {
    assert files[..|files|] == files;
    WriteAllWrites(folder, files);
  }

  /** Item j is the first file the loop rejects, and no fault fires first. */
  predicate FirstRejected(files: seq<UploadItem>, fault: Fault, j: nat) {
    && j < |files| && !Accepted(files[j])
    && (forall i :: 0 <= i < j ==> Accepted(files[i]))
    && !FaultStrikesWithin(fault, j) && fault != TransportFault(j)
  }

  /** The first empty or non-MP4 file ends the request with 400: the files
      before it stay written and no later file is written. */
  lemma RejectionStopsTheBatch(folder: Folder, files: seq<UploadItem>, max: int, fault: Fault, j: nat)
    requires TotalLength(files) <= max
    requires FirstRejected(files, fault, j)
    ensures UploadSpec(folder, files, max, fault).outcome == BadType
    ensures Written(folder, UploadSpec(folder, files, max, fault).folder, files[..j])
  {
    FirstHaltIs(files, fault, j);
    WriteAllWrites(folder, files[..j]);
  }

  /** A 400 response always comes from a first rejected file as above. */
  lemma BadTypeHasFirstRejected(folder: Folder, files: seq<UploadItem>, max: int, fault: Fault)
    requires UploadSpec(folder, files, max, fault).outcome == BadType
    ensures exists j: nat ::
      (FirstRejected(files, fault, j) && Written(folder, UploadSpec(folder, files, max, fault).folder, files[..j]))
  {
    var j := FirstHalt(files, fault, 0);
    WriteAllWrites(folder, files[..j]);
    assert FirstRejected(files, fault, j);
  }

  /** A failed write ends the request with 500 and the exception's message;
      earlier files stay written, and only the failing file's target may
      differ from that (it is truncated before the copy). */
  lemma StorageFailureKeepsEarlierWrites(folder: Folder, files: seq<UploadItem>, max: int,
                                         at: nat, message: string, residue: Option<nat>)
    requires TotalLength(files) <= max
    requires at < |files| && forall i :: 0 <= i <= at ==> Accepted(files[i])
    ensures var r := UploadSpec(folder, files, max, WriteFault(at, message, residue));
      && r.outcome == StorageError(message)
      && WrittenOutside(folder, r.folder, files[..at], {BaseName(files[at].fileName)})
      && (residue.None? ==> Written(folder, r.folder, files[..at]))
      && (residue.Some? ==> BaseName(files[at].fileName) in r.folder
                            && r.folder[BaseName(files[at].fileName)] == residue.value)
  {
    var fault := WriteFault(at, message, residue);
    FirstHaltIs(files, fault, at);
    WriteAllWrites(folder, files[..at]);
  }

  /** A transport failure ends the request with 503; files before it stay
      written and none after it is written. */
  lemma TransportFailureKeepsEarlierWrites(folder: Folder, files: seq<UploadItem>, max: int, at: nat)
    requires TotalLength(files) <= max
    requires at < |files| && forall i :: 0 <= i < at ==> Accepted(files[i])
    ensures var r := UploadSpec(folder, files, max, TransportFault(at));
      r.outcome == NetworkError && Written(folder, r.folder, files[..at])
  {
    FirstHaltIs(files, TransportFault(at), at);
    WriteAllWrites(folder, files[..at]);
  }

  /** Writing accepted files keeps every entry a plain name. */
  lemma {:induction false} WriteAllWellFormed(folder: Folder, items: seq<UploadItem>)
    requires WellFormedFolder(folder)
    requires forall i :: 0 <= i < |items| ==> Accepted(items[i])
    ensures WellFormedFolder(WriteAll(folder, items))
    decreases |items|
  {
    if |items| > 0 {
      var n := |items|;
      WriteAllWellFormed(folder, items[..n - 1]);
      Mp4BaseNameIsPlain(items[n - 1].fileName);
    }
  }

  /** Every request leaves a folder whose entries are plain names: a file is
      only ever written under the base name of an accepted file. */
  lemma UploadKeepsFolderWellFormed(folder: Folder, files: seq<UploadItem>, max: int, fault: Fault)
    requires WellFormedFolder(folder)
    ensures WellFormedFolder(UploadSpec(folder, files, max, fault).folder)
  {
    if TotalLength(files) <= max {
      var j := FirstHalt(files, fault, 0);
      forall i | 0 <= i < j ensures Accepted(files[..j][i]) {
        assert files[..j][i] == files[i];
      }
      WriteAllWellFormed(folder, files[..j]);
      if j < |files| && Accepted(files[j]) {
        Mp4BaseNameIsPlain(files[j].fileName);
      }
    }
  }
}
