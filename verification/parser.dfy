/**
  The contract of the external directory parser (go/parser's ParseDir)
  as the extractor consumes it. The parser itself is not modelled: its
  output is a parameter of the extractor.
 */
module Parser {
  import opened Syntax

  /** Metadata of a candidate source file, as handed to the file filter. */
  datatype FileInfo = FileInfo(name: string)

  /** Selects which files of the directory are parsed. */
  type FileFilter = FileInfo -> bool

  /** The parser's failure: the directory is missing or unreadable, or a
      file in it does not parse. */
  datatype ParseError = ParseError(message: string)

  /** Either the packages of the directory, or the parser's error. */
  datatype ParseResult =
    | Parsed(pkgs: seq<Package>)
    | Failed(err: ParseError)

  /** Every file the parser produced is well formed. */
  predicate ParsedWellFormed(r: ParseResult) {
    r.Parsed? ==> forall p, f :: p in r.pkgs && f in p.files ==> WellFormed(f)
  }
}
