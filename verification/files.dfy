/** What opening and reading a local text file can come to, as seen by the
    kiosk code: the decoded text, or the exception Python raises. */
module Files {

  datatype FileRead =
    | Contents(text: string)      // the decoded text, newlines already translated to '\n'
    | NotFound(reason: string)    // FileNotFoundError
    | OsError(reason: string)     // any other OSError (permissions, I/O failure, ...)
    | DecodeError(reason: string) // UnicodeDecodeError, which is a ValueError and not an OSError
}
