/**
 * The inputs the script reads from its environment and the outcomes it
 * reports. Reading a file and running git are collaborators outside the
 * model: their results arrive here as values, and a failing collaborator is
 * a value too. A call of `error(...)`, which prints and exits, becomes a
 * `Fatal` result; a call of `warning(...)` becomes an entry in a list of
 * warnings.
 */
module Outcomes {

  datatype Option<T> = None | Some(value: T)

  /** The reasons for which the script stops with a non-zero exit status. */
  datatype FatalError =
    | InitFileUnreadable   // easybuild/__init__.py cannot be read
    | NoVersionLine        // no line of it declares VERSION
    | GitTagFailed         // `git tag -l` fails
    | NoVersionTags        // no tag has the form v<digits>.<digits>
    | NotesUnreadable      // RELEASE_NOTES cannot be read
    | LicenseScanFailed    // listing a directory or reading a code file fails
    | GitStatusFailed      // `git status` fails
    | NotReadyForRelease   // at least one of the four checks failed

  datatype Result<T> = Ok(value: T) | Fatal(error: FatalError)

  /** The warnings the checks write, with the data their messages name. */
  datatype Warning =
    | VersionMismatch(declared: string, tagged: string)
    | NoNotesEntry(version: string)
    | MissingHeader(path: seq<string>)
    | NotOnMaster
    | UncommittedWork

  /** A check's boolean verdict and the warnings it wrote on the way. */
  datatype CheckReport = CheckReport(passed: bool, warnings: seq<Warning>)

  /** The outcome of reading a whole file. */
  datatype FileRead = Read(text: string) | ReadFailed

  /** The outcome of one git command: its output, or GitCommandError. */
  datatype GitReply = Output(text: string) | CommandFailed
}
