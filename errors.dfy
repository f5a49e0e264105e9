/** The exceptions the repository operations raise, as values. */
module Errors {

  datatype Failure =
    /** `Exception('Invalid file number', criteria)` from create. */
    | InvalidFileNumber(criteria: string)
    /** `AlreadyExistsException`: the path already holds a `.pmr` marker. */
    | AlreadyExists(path: string)
    /** `ValueError` from `dict.update`: a marker line without '='. */
    | MalformedLine(line: string)
    /** `KeyError`: a field the loader needs is absent from the marker. */
    | MissingKey(key: string)
    /** `ValueError` from `int(...)` on a marker field. */
    | NotAnInteger(text: string)
    /** `Exception('Unsupported repository version: ...')`. */
    | UnsupportedRepoVersion(found: int)
    /** `IOError` from opening `data.repr` when it is not there. */
    | SnapshotUnreadable
}
