/** The configuration record bound from the "HomeControllerOptions" section
    (VideoCatalogApp/Models/HomeControllerOptions.cs), and the argument check
    failure both controllers raise while being constructed. */
module Models {
  import opened Wrappers

  /** C#'s `long`. */
  newtype Int64 = x: int | -0x8000_0000_0000_0000 <= x < 0x8000_0000_0000_0000

  /** `MediaFolderName` is a reference-typed string, so it may be null (None);
      `MaxFileSizeBytes` is a value-typed long that defaults to 0. */
  datatype HomeControllerOptions = HomeControllerOptions(
    mediaFolderName: Option<string>,
    maxFileSizeBytes: Int64)

  /** `ArgumentNullException(nameof(param))`: which constructor argument was missing. */
  datatype ArgumentNullException = ArgumentNullException(paramName: string)
}
