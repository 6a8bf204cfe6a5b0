/** What the boot code can see of the firmware's file systems. */
module Volumes {
  import opened Prelude

  type Status = nat

  const LOAD_ERROR: Status := 1
  const INVALID_PARAMETER: Status := 2
  const NOT_FOUND: Status := 14

  /** What a path leads to: a file holding valid UTF-8, a readable file that does not, a file whose
      size or content cannot be read, a directory, or something that cannot be opened at all; with
      the status that the firmware gives. */
  datatype Node = Text(text: string) | NotUtf8 | Unreadable(status: Status) | Directory | Refused(status: Status)

  /** One step of reading a directory. */
  datatype DirItem = Name(name: string) | ReadError

  /** `opens` tells whether its root directory can be opened, `files` what paths lead to, `readOnly`
      which of them cannot be opened for writing, and `entries` what reading `\loader\entries` yields
      if that is a directory. */
  datatype Volume = Volume(
    opens: bool,
    files: map<string, Node>,
    readOnly: set<string>,
    entries: Option<seq<DirItem>>)

  /** Does opening a path to read and write it yield a regular file? */
  predicate OpensForWriting(v: Volume, path: string) {
    path in v.files && path !in v.readOnly && !v.files[path].Directory? && !v.files[path].Refused?
  }
}
