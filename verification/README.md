# classes — struct-name extraction, modelled in Dafny

The Go package `classes` lists the names of the struct types declared at the
top level of the Go files in a directory. A configuration (`Classes`) holds
the directory, a file filter, a parser mode and an `ExportOnly` flag. The
listing (`Classlist`) hands the directory to Go's parser. It returns the
parser's error unchanged. Otherwise it concatenates, over every file of every
package, the result of the per-file walk (`analyze`). The walk visits the
`type` declarations of a file in order and every spec within each. It keeps
the name of each spec whose type expression is a struct type (`spec`). When
`ExportOnly` is set, the name must also be exported.

Layout:

- `syntax.dfy` (module `Syntax`): the slice of Go's syntax tree the walk
  inspects, the parser's well-formedness guarantee, and the exported-name rule.
- `parser.dfy` (module `Parser`): the directory parser's result and error,
  file metadata and the file filter.
- `classes.dfy` (module `Classes`): the configuration and `New`, the per-spec
  filter `SpecName`, the walk `Analyze` and the listing `Classlist`, whose
  inner loop over a package's files is `AnalyzeFiles`. The walk and the
  listing are methods whose loops follow the Go code. Each is proved equal to a
  functional reference definition: `TypeSpecs` flattens the type specs of a
  file, `Select` keeps the names of the `Matches` specs, and `Collect`
  concatenates per-file results.
- `properties.dfy` (module `ClassesProperties`): lemmas about the reference
  definitions, and hence about what `Analyze` and `Classlist` return.

Modelling decisions:

- The parser is the parameter `parseDir` of `Classlist`. It is called with the
  configured directory and file filter, and returns either packages or an error.
- Go's two results `([]string, error)` become two out-parameters. The names
  are a `seq<string>`, where a nil slice is `[]`. The error is an
  `Option<ParseError>`, where `nil` is `None`.
- Go's `unicode.IsUpper` is a library call. It stays uninterpreted as the
  parameter `isUpper: char -> bool`. Every general lemma therefore holds for
  any classification of upper-case letters, Unicode's included. The
  test-scenario members assume only that `A` is upper case and `b` is not.
- The unchecked type assertion in `spec` (classes.go:78) becomes the
  precondition `WellFormed`: every spec of a `type` declaration is a type
  spec. Go's parser guarantees this.
- The walk checks only the outer constructor of a spec's type expression. So
  `type T (struct{...})` (a parenthesised expression) and `type T S`, where `S`
  is a struct type, are not reported. A name defined in terms of another
  struct type is never resolved to that struct's shape, because the code does
  no type resolution, and neither does the model.
- Go identifiers are never empty. The model still allows an empty name, and
  `Matches` excludes it, because the walk treats `""` as "no match".

## Model

| member | source | states |
|---|---|---|
| Classes.New | classes.go:10-18 | the configuration keeps the given directory, accepts every file and keeps only exported names; no I/O |
| Classes.SpecName | classes.go:76-90 | a non-empty result is exactly the case where the spec is a struct type with an acceptable name, and it is then the spec's name; any other type expression yields "" whatever the export flag |
| Classes.Analyze | classes.go:55-74 | the nested loops over declarations and specs return exactly the names of the matching type specs of the file's `type` declarations, in declaration-then-spec order |
| Classes.Classlist | classes.go:29-53 | on a parser error, no names and that same error; otherwise no error, and the per-file results of every file of every package, concatenated in iteration order |
| Classes.AnalyzeFiles | classes.go:41-48 | the inner loop over one package's files returns their per-file results concatenated in iteration order |
| Classes.TypeSpecs | classes.go:58-66 | the reference flattening of a file's `type` declarations yields, in a well-formed file, only type specs |
| ClassesProperties.FileKeepsOrder | classes.go:58-78 | in a well-formed file every visited spec is a type spec (the assertion at line 78 holds), and the file's reported names are a subsequence of those specs' names |
| ClassesProperties.SelectBounds | classes.go:65-70 | the walk never reports an empty name and reports at most one name per visited spec |
| ClassesProperties.SelectMembership | classes.go:65-87 | a name is reported if and only if some visited spec matches and carries that name |
| ClassesProperties.SelectKeepsOrder | classes.go:58-70 | the reported names are a subsequence of the visited specs' names, so the source order is preserved |
| ClassesProperties.ListedWithoutExportFilter | classes.go:84-87 | with `ExportOnly` off, a name is reported if and only if it is the non-empty name of a struct type spec |
| ClassesProperties.ListedWithExportFilter | classes.go:84-87 | with `ExportOnly` on, a name is reported if and only if it is exported and names a struct type spec |
| ClassesProperties.NonStructNeverListed | classes.go:80-89 | a name bound only to non-struct type expressions is never reported, whatever the export flag |
| ClassesProperties.ExportOnlySubsequence | classes.go:84-86 | the exported-only result is a subsequence of the unfiltered result for the same specs |
| ClassesProperties.ExportOnlyNoLonger | classes.go:84-86 | for the same file, the exported-only result is no longer than the unfiltered one |
| ClassesProperties.NonTypeDeclIgnored | classes.go:58-64 | inserting an import, const, var, function or bad declaration anywhere in a file leaves its result unchanged |
| ClassesProperties.CollectEmpty | classes.go:40-52 | the listing is empty if and only if no file has a matching type spec |
| ClassesProperties.SelectCount | classes.go:65-70 | the number of names reported for a list of specs equals the number of positions holding a matching spec |
| ClassesProperties.CollectCount | classes.go:40-52 | the listing holds exactly as many names as there are matching type specs over all files |
| ClassesProperties.CollectMembership | classes.go:40-52 | a name is in the listing if and only if some file has a matching type spec carrying that name |
| ClassesProperties.PackagePermutation | classes.go:40-41 | two package lists holding the same files, in any package or file order, yield listings with the same multiset of names |
| ClassesProperties.TestNewListsExported | classes_test.go:9-22 | `New("test")` listed over a directory holding one file with the exported struct `App` and the unexported struct `base` gives exactly `["App"]` and no error |
| ClassesProperties.TestMissingDirectory | classes_test.go:26-29 | `New("test2")` listed over a missing directory gives no names and the parser's error |
| ClassesProperties.TestNoExportFilterListsAll | classes_test.go:33-53 | the same directory listed with `ExportOnly` cleared gives exactly `["App", "base"]` and no error |

## Left out

- Go's directory parser (`parser.ParseDir`), the position registry (`token.NewFileSet`) and file-system access are external. The parser's output is the parameter `parseDir`.
- The parser mode (`Mode`, set to 0644 by `New`) is passed straight to the parser and has no effect on the extraction, so `Config` has no such field.
- `os.FileInfo` is reduced to a file name. The filter is only handed to the parser.
- `unicode.IsUpper` and UTF-8 decoding of the first character are library calls. `isUpper` is a parameter, and a name's first `char` stands for its first rune.
- The panic of the type assertion at classes.go:78 is excluded by the precondition `WellFormed`, not modelled.
- The `Assign` flag and type parameters of a Go type spec are not kept, because the walk does not consult them. `type T = struct{...}` is reported like `type T struct{...}`.
- `Ident.String`'s `"<nil>"` for a missing identifier is not modelled. Parsed type specs always carry a name.
- The Go map iteration order over packages and files is not modelled. `Classlist` accepts any order, and only a multiset-level result (`PackagePermutation`) is stated across files.
- Repeating a listing is not stated separately. The model is a pure function of the parser's output, so two listings of an unchanged directory differ at most by the parser's order, which `PackagePermutation` covers.
- The tests' fixture directories `test` and `test2` are not part of this model, nor is the `fmt.Println` output. The test members use a parser stand-in, `TestParseDir`, whose `test` directory holds one file consistent with the tests' expected results; the import, function type and function declaration in that file are illustrative, and `test2` does not exist.
