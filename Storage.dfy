/** The media folder on disk, reduced to what the controllers observe: the
    name and byte length of each file directly inside it. */
module Storage {
  import opened Paths

  /** Entry name -> file length in bytes. */
  type Folder = map<string, nat>

  /** Directory entries are plain names. */
  predicate WellFormedFolder(folder: Folder) {
    forall n :: n in folder ==> IsPlainName(n)
  }

  /** The directory at the controllers' media folder path; uploads write into it. */
  class MediaFolder {
    var files: Folder

    constructor (files: Folder)
      ensures this.files == files
    {
      this.files := files;
    }
  }
}
