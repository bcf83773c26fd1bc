/** The part of the operating system the exporter touches, given as data.

    A `FileSystem` value is one frozen view of the disk: listing a directory,
    stat-ing a path and reading a file are total functions of the path, so the
    model is deterministic and every outcome a real disk could produce, error
    or not, is some value of this type. */
module Fs {
  import opened Results

  /** An opaque operating-system error (permission denied, I/O error, ...). */
  datatype IoError = IoError(message: string)

  /** One entry of a directory listing: its base name and whether it is a directory. */
  datatype FileInfo = FileInfo(name: string, isDir: bool)

  /** What `stat` reports for a path.  Only "does not exist" is singled out,
      because that is the only error the discovery code tests for. */
  datatype StatOutcome =
    | StatFound
    | StatNotExist
    | StatFailed(cause: IoError)

  /** A snapshot of the filesystem: listing, stat and whole-file reads. */
  datatype FileSystem = FileSystem(
    readDir: string -> Result<seq<FileInfo>, IoError>,
    stat: string -> StatOutcome,
    readFile: string -> Result<string, IoError>)
}
