/** Values shared by every stage of the import sorter. */
module Types {

  datatype Option<T> = None | Some(value: T)

  datatype Result<T, E> = Ok(value: T) | Err(error: E)

  /** The three ways an import block can fail to parse; each carries the
      offending line as it was read, before trimming. */
  datatype ParseError =
    | DanglingComment                 // comments not attached to any import
    | InvalidImportLine(line: string) // zero or more than two fields
    | UnquotableImportPath(line: string) // last field is not a string literal

  /** One import spec of the block: the comment lines above it, the comment
      after it on the same line, the optional local name and the unquoted path.
      An absent local name is the empty string. */
  datatype Import = Import(preComments: seq<string>, postComment: string, ident: string, path: string)
}
