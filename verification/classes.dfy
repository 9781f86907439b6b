/**
  The struct-name extractor of package `classes`: a configuration, the
  per-spec filter, the per-file declaration walk, and the directory-wide
  listing that concatenates the per-file results.

  The walk and the listing are methods whose loops follow the Go code; each
  is proved equal to a functional reference definition (TypeSpecs, Select,
  FileNames, Collect) about which the lemmas of ClassesProperties speak.
 */
module Classes {
  import opened Syntax
  import opened Parser

  datatype Option<T> = None | Some(value: T)

  /** The extractor's configuration: the directory to scan, the file filter
      passed to the parser, and whether only exported names are kept. */
  datatype Config = Config(dirname: string, filter: FileFilter, exportOnly: bool)

  /** A configuration for `dirname` with the defaults: every file accepted,
      only exported names kept. Nothing is read at construction. */
  function New(dirname: string): (c: Config)
    ensures c.dirname == dirname
    ensures c.exportOnly
    ensures forall f: FileInfo :: c.filter(f)
  {
    Config(dirname, (f: FileInfo) => true, true)
  }

  // ---------------------------------------------------------------------
  // Reference definitions
  // ---------------------------------------------------------------------

  /** The specs a declaration contributes to the walk: those of a `type`
      declaration, none otherwise. */
  function DeclTypeSpecs(d: Decl): seq<Spec> {
    if IsTypeDecl(d) then d.specs else []
  }

  /** The type specs of a declaration list in textual order: declarations
      first, then specs within each. */
  function TypeSpecs(decls: seq<Decl>): (r: seq<Spec>)
    ensures (forall d :: d in decls ==> DeclWellFormed(d)) ==> forall s :: s in r ==> s.TypeSpec?
  {
    if |decls| == 0 then []
    else
      assert decls[0] in decls && forall d :: d in decls[1..] ==> d in decls;
      DeclTypeSpecs(decls[0]) + TypeSpecs(decls[1..])
  }

  /** Whether the extractor reports spec `s`: a type spec whose type
      expression is a struct type, with a non-empty name that is exported
      unless the configuration keeps every name. */
  predicate Matches(c: Config, s: Spec, isUpper: char -> bool) {
    && s.TypeSpec?
    && s.typ.StructType?
    && s.name != ""
    && (c.exportOnly ==> IsExported(s.name, isUpper))
  }

  /** The names of the matching specs, in order. */
  function Select(c: Config, specs: seq<Spec>, isUpper: char -> bool): seq<string> {
    if |specs| == 0 then []
    else (if Matches(c, specs[0], isUpper) then [specs[0].name] else []) + Select(c, specs[1..], isUpper)
  }

  /** The struct names a file declares, as the extractor should report them. */
  function FileNames(c: Config, f: File, isUpper: char -> bool): seq<string> {
    Select(c, TypeSpecs(f.decls), isUpper)
  }

  /** The per-file results of a sequence of files, concatenated. */
  function Collect(c: Config, files: seq<File>, isUpper: char -> bool): seq<string> {
    if |files| == 0 then []
    else FileNames(c, files[0], isUpper) + Collect(c, files[1..], isUpper)
  }

  /** The files of a sequence of packages, package by package. */
  function AllFiles(pkgs: seq<Package>): seq<File> {
    if |pkgs| == 0 then []
    else pkgs[0].files + AllFiles(pkgs[1..])
  }

  lemma {:induction false} TypeSpecsAppend(a: seq<Decl>, b: seq<Decl>)
    ensures TypeSpecs(a + b) == TypeSpecs(a) + TypeSpecs(b)
  {
    if |a| > 0 {
      assert (a + b)[1..] == a[1..] + b;
      TypeSpecsAppend(a[1..], b);
    } else {
      assert a + b == b;
    }
  }

  lemma {:induction false} SelectAppend(c: Config, a: seq<Spec>, b: seq<Spec>, isUpper: char -> bool)
    ensures Select(c, a + b, isUpper) == Select(c, a, isUpper) + Select(c, b, isUpper)
  {
    if |a| > 0 {
      assert (a + b)[1..] == a[1..] + b;
      SelectAppend(c, a[1..], b, isUpper);
    } else {
      assert a + b == b;
    }
  }

  lemma {:induction false} CollectAppend(c: Config, a: seq<File>, b: seq<File>, isUpper: char -> bool)
    ensures Collect(c, a + b, isUpper) == Collect(c, a, isUpper) + Collect(c, b, isUpper)
  {
    if |a| > 0 {
      assert (a + b)[1..] == a[1..] + b;
      CollectAppend(c, a[1..], b, isUpper);
    } else {
      assert a + b == b;
    }
  }

  lemma {:induction false} AllFilesAppend(a: seq<Package>, b: seq<Package>)
    ensures AllFiles(a + b) == AllFiles(a) + AllFiles(b)
  {
    if |a| > 0 {
      assert (a + b)[1..] == a[1..] + b;
      AllFilesAppend(a[1..], b);
    } else {
      assert a + b == b;
    }
  }

  // ---------------------------------------------------------------------
  // The extractor
  // ---------------------------------------------------------------------

  /** The per-spec filter (`spec` in the Go code): the spec's name when its
      type expression is a struct type and, if only exported names are
      kept, the name is exported; the empty string otherwise. */
  function SpecName(c: Config, s: Spec, isUpper: char -> bool): (r: string)
    requires s.TypeSpec?
    ensures r != "" <==> Matches(c, s, isUpper)
    ensures r != "" ==> r == s.name
    ensures !s.typ.StructType? ==> r == ""
  {
    match s.typ
    case StructType =>
      if c.exportOnly && !IsExported(s.name, isUpper) then "" else s.name
    case _ => ""
  }

  /** One more declaration walked: its type specs' names follow. */
  lemma WalkDeclStep(c: Config, decls: seq<Decl>, i: nat, isUpper: char -> bool)
    requires i < |decls|
    ensures Select(c, TypeSpecs(decls[..i + 1]), isUpper)
         == Select(c, TypeSpecs(decls[..i]), isUpper) + Select(c, DeclTypeSpecs(decls[i]), isUpper)
  {
    var d, pre := decls[i], decls[..i];
    assert decls[..i + 1] == pre + [d];
    TypeSpecsAppend(pre, [d]);
    assert TypeSpecs([d]) == DeclTypeSpecs(d) by {
      assert [d][1..] == [];
      assert TypeSpecs([d][1..]) == [];
    }
    SelectAppend(c, TypeSpecs(pre), DeclTypeSpecs(d), isUpper);
  }

  /** One more spec walked: its name follows if it matches. */
  lemma WalkSpecStep(c: Config, specs: seq<Spec>, j: nat, isUpper: char -> bool)
    requires j < |specs|
    ensures Select(c, specs[..j + 1], isUpper)
         == Select(c, specs[..j], isUpper) + (if Matches(c, specs[j], isUpper) then [specs[j].name] else [])
  {
    assert specs[..j + 1] == specs[..j] + [specs[j]];
    SelectAppend(c, specs[..j], [specs[j]], isUpper);
    assert [specs[j]][1..] == [];
  }

  /** The per-file walk (`analyze` in the Go code): every `type` declaration
      in order, every spec within it, keeping the non-empty SpecName results. */
  method Analyze(c: Config, file: File, isUpper: char -> bool) returns (result: seq<string>)
    requires WellFormed(file)
    ensures result == FileNames(c, file, isUpper)
  {
    var decls := file.decls;
    result := [];
    for i := 0 to |decls|
      invariant result == Select(c, TypeSpecs(decls[..i]), isUpper)
    {
      WalkDeclStep(c, decls, i, isUpper);
      match decls[i]
      case GenDecl(tok, specs) =>
        if tok == Type {
          assert DeclWellFormed(decls[i]);
          ghost var before := result;
          for j := 0 to |specs|
            invariant result == before + Select(c, specs[..j], isUpper)
          {
            var name := SpecName(c, specs[j], isUpper);
            WalkSpecStep(c, specs, j, isUpper);
            if name != "" {
              result := result + [name];
            }
          }
          assert specs[..|specs|] == specs;
        }
      case FuncDecl(_) =>
      case BadDecl =>
    }
    assert decls[..|decls|] == decls;
  }

  /** One more file listed: its names follow. */
  lemma ListFileStep(c: Config, files: seq<File>, j: nat, isUpper: char -> bool)
    requires j < |files|
    ensures Collect(c, files[..j + 1], isUpper) == Collect(c, files[..j], isUpper) + FileNames(c, files[j], isUpper)
  {
    assert files[..j + 1] == files[..j] + [files[j]];
    CollectAppend(c, files[..j], [files[j]], isUpper);
    assert [files[j]][1..] == [];
    assert Collect(c, [files[j]], isUpper) == FileNames(c, files[j], isUpper) + [];
  }

  /** One more package listed: the names of its files follow. */
  lemma ListPackageStep(c: Config, pkgs: seq<Package>, i: nat, isUpper: char -> bool)
    requires i < |pkgs|
    ensures Collect(c, AllFiles(pkgs[..i + 1]), isUpper)
         == Collect(c, AllFiles(pkgs[..i]), isUpper) + Collect(c, pkgs[i].files, isUpper)
  {
    var p, pre := pkgs[i], pkgs[..i];
    assert pkgs[..i + 1] == pre + [p];
    AllFilesAppend(pre, [p]);
    assert AllFiles([p]) == p.files by {
      assert [p][1..] == [];
      assert AllFiles([p][1..]) == [];
      assert p.files + [] == p.files;
    }
    CollectAppend(c, AllFiles(pre), p.files, isUpper);
  }

  /** The inner loop of the listing: the per-file results of one
      package's files, concatenated in iteration order. */
  method AnalyzeFiles(c: Config, files: seq<File>, isUpper: char -> bool) returns (names: seq<string>)
    requires forall f :: f in files ==> WellFormed(f)
    ensures names == Collect(c, files, isUpper)
  {
    names := [];
    for j := 0 to |files|
      invariant names == Collect(c, files[..j], isUpper)
    {
      assert files[j] in files;
      var result := Analyze(c, files[j], isUpper);
      ListFileStep(c, files, j, isUpper);
      names := names + result;
    }
    assert files[..|files|] == files;
  }

  /** The directory listing (`Classlist` in the Go code). The parser is the
      parameter `parseDir`, called with the configured directory and file
      filter. A parser error is returned unchanged with no names; otherwise
      the per-file results of every file of every package are concatenated
      in iteration order. */
  method Classlist(c: Config, parseDir: (string, FileFilter) -> ParseResult, isUpper: char -> bool)
    returns (names: seq<string>, err: Option<ParseError>)
    requires ParsedWellFormed(parseDir(c.dirname, c.filter))
    ensures parseDir(c.dirname, c.filter).Failed? ==>
              names == [] && err == Some(parseDir(c.dirname, c.filter).err)
    ensures parseDir(c.dirname, c.filter).Parsed? ==>
              err == None && names == Collect(c, AllFiles(parseDir(c.dirname, c.filter).pkgs), isUpper)
  {
    var parsed := parseDir(c.dirname, c.filter);
    if parsed.Failed? {
      return [], Some(parsed.err);
    }
    var pkgs := parsed.pkgs;
    names := [];
    for i := 0 to |pkgs|
      invariant names == Collect(c, AllFiles(pkgs[..i]), isUpper)
    {
      assert pkgs[i] in pkgs;
      var result := AnalyzeFiles(c, pkgs[i].files, isUpper);
      ListPackageStep(c, pkgs, i, isUpper);
      names := names + result;
    }
    assert pkgs[..|pkgs|] == pkgs;
    err := None;
  }
}
