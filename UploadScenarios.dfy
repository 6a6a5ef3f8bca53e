/** The upload scenarios of VideoCatalogApp.Tests/UploadControllerTests.cs,
    stated for every starting folder and every fault-free environment. */
module UploadScenarios {
  import opened Wrappers
  import opened Paths
  import opened Models
  import opened Storage
  import opened UploadIntake

  const MiB: nat := 1024 * 1024

  /** The limit the application is configured with. */
  const Limit: int := 200 * MiB

  /** The two files of the first scenario pass the size and per-file tests. */
  lemma TwoValidFilesPass(files: seq<UploadItem>)
    requires files == [UploadItem("test1.mp4", 100 * MiB), UploadItem("test2.mp4", 50 * MiB)]
    ensures TotalLength(files) == 150 * MiB
    ensures Accepted(files[0]) && Accepted(files[1])
  {
    assert files[..1][..0] == [];
    assert TotalLength(files[..1]) == 100 * MiB;
  }

  /** Two MP4 files of 100 MiB and 50 MiB under a 200 MiB limit: 200, and
      both are stored with their lengths, on top of what the folder held. */
  lemma ValidMp4FilesAreStored(folder: Folder)
    ensures var r := UploadSpec(folder, [UploadItem("test1.mp4", 100 * MiB), UploadItem("test2.mp4", 50 * MiB)], Limit, NoFault);
      r == UploadResult(Ok, folder["test1.mp4" := 100 * MiB]["test2.mp4" := 50 * MiB])
  {
    var files := [UploadItem("test1.mp4", 100 * MiB), UploadItem("test2.mp4", 50 * MiB)];
    TwoValidFilesPass(files);
    FirstHaltIs(files, NoFault, 2);
    PlainNameIsItsBaseName("test1.mp4");
    PlainNameIsItsBaseName("test2.mp4");
    WriteAllStep(folder, files, 0);
    WriteAllStep(folder, files, 1);
    assert files[..0] == [] && files[..2] == files;
  }

  /** A PDF is refused with 400 and the fixed message, and nothing is written. */
  lemma NonMp4FileIsRefused(folder: Folder)
    ensures var r := UploadSpec(folder, [UploadItem("document.pdf", MiB)], Limit, NoFault);
      && r.outcome.StatusCode() == 400
      && r.outcome.Body() == "Only MP4 files are allowed."
      && r.folder == folder
  {
    var files := [UploadItem("document.pdf", MiB)];
    RejectionStopsTheBatch(folder, files, Limit, NoFault, 0);
    assert files[..0] == [];
    assert WriteAll(folder, files[..0]) == folder;
  }

  /** A single 250 MiB file is refused with 413 and nothing is written. */
  lemma OversizeFileIsRefused(folder: Folder)
    ensures var r := UploadSpec(folder, [UploadItem("largefile.mp4", 250 * MiB)], Limit, NoFault);
      r.outcome.StatusCode() == 413 && r.folder == folder
  {
    OversizeItemRejected(folder, [UploadItem("largefile.mp4", 250 * MiB)], Limit, NoFault, 0);
  }

  /** A valid file whose write throws gives 500; a transport failure before
      it gives 503. Neither response can be produced by the other fault. */
  lemma FailuresMapToServerErrors(folder: Folder, message: string, residue: Option<nat>)
    ensures UploadSpec(folder, [UploadItem("test1.mp4", 100 * MiB)], Limit, WriteFault(0, message, residue)).outcome.StatusCode() == 500
    ensures UploadSpec(folder, [UploadItem("test1.mp4", 100 * MiB)], Limit, TransportFault(0)).outcome.StatusCode() == 503
  {
    var files := [UploadItem("test1.mp4", 100 * MiB)];
    StorageFailureKeepsEarlierWrites(folder, files, Limit, 0, message, residue);
    TransportFailureKeepsEarlierWrites(folder, files, Limit, 0);
  }

  /** The server-error and network-failure scenarios build the controller
      over a mocked environment whose web root path is null: construction
      fails on "env" before the handler runs. Had it run, their options leave
      the size limit at 0, so the same 100 MiB file would draw 413. */
  lemma MockedEnvironmentNeverReachesTheHandler(folderName: string, hasLogger: bool, folder: Folder, fault: Fault)
    ensures var r := NewUploadController(None, Some(HomeControllerOptions(Some(folderName), 0)), hasLogger);
      r.Failure? && r.error.paramName == "env"
    ensures UploadSpec(folder, [UploadItem("test1.mp4", 100 * MiB)], 0, fault).outcome.StatusCode() == 413
  {
    OversizeItemRejected(folder, [UploadItem("test1.mp4", 100 * MiB)], 0, fault, 0);
  }
}
