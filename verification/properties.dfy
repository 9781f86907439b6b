/**
  Properties of the struct-name extractor: which names it reports (both
  directions), how the export filter narrows the result, that declarations
  other than `type` declarations never contribute, that the order of files
  does not change the reported names as a multiset, and the concrete
  directory the package's tests describe.
 */
module ClassesProperties {
  import opened Syntax
  import opened Parser
  import opened Classes

  /** `a` is `b` with some elements dropped, the rest kept in order. */
  predicate IsSubsequence<T(==)>(a: seq<T>, b: seq<T>)
    decreases |b|
  {
    if |a| == 0 then true
    else if |b| == 0 then false
    else (a[0] == b[0] && IsSubsequence(a[1..], b[1..])) || IsSubsequence(a, b[1..])
  }

  lemma {:induction false} SubsequenceLength<T>(a: seq<T>, b: seq<T>)
    requires IsSubsequence(a, b)
    ensures |a| <= |b|
    decreases |b|
  {
    if |a| > 0 {
      if a[0] == b[0] && IsSubsequence(a[1..], b[1..]) {
        SubsequenceLength(a[1..], b[1..]);
      } else {
        SubsequenceLength(a, b[1..]);
      }
    }
  }

  /** The name a spec carries in the walk's order: a type spec's name. */
  function SpecNames(specs: seq<Spec>): (r: seq<string>)
    requires forall s :: s in specs ==> s.TypeSpec?
    ensures |r| == |specs|
    ensures forall i :: 0 <= i < |r| ==> r[i] == specs[i].name
  {
    if |specs| == 0 then []
    else
      assert forall s :: s in specs[1..] ==> s in specs;
      [specs[0].name] + SpecNames(specs[1..])
  }

  /** The reported names appear in the same relative order as the type
      specs that declare them. */
  lemma {:induction false} SelectKeepsOrder(c: Config, specs: seq<Spec>, isUpper: char -> bool)
    requires forall s :: s in specs ==> s.TypeSpec?
    ensures IsSubsequence(Select(c, specs, isUpper), SpecNames(specs))
  {
    if |specs| > 0 {
      assert forall s :: s in specs[1..] ==> s in specs;
      SelectKeepsOrder(c, specs[1..], isUpper);
      var r := Select(c, specs, isUpper);
      var n := SpecNames(specs);
      assert n[1..] == SpecNames(specs[1..]);
      if Matches(c, specs[0], isUpper) {
        assert r[0] == n[0] && r[1..] == Select(c, specs[1..], isUpper);
      } else {
        assert r == Select(c, specs[1..], isUpper);
      }
    }
  }

  /** A name is reported for a list of specs exactly when some spec in it
      matches and carries that name. */
  lemma {:induction false} SelectMembership(c: Config, specs: seq<Spec>, isUpper: char -> bool, x: string)
    ensures x in Select(c, specs, isUpper) <==>
              exists s :: s in specs && Matches(c, s, isUpper) && s.name == x
  {
    if |specs| > 0 {
      SelectMembership(c, specs[1..], isUpper, x);
      assert forall s :: s in specs <==> s == specs[0] || s in specs[1..];
    }
  }

  /** The walk reports at most one name per spec, and never the empty name. */
  lemma {:induction false} SelectBounds(c: Config, specs: seq<Spec>, isUpper: char -> bool)
    ensures |Select(c, specs, isUpper)| <= |specs|
    ensures "" !in Select(c, specs, isUpper)
  {
    SelectMembership(c, specs, isUpper, "");
    if |specs| > 0 {
      SelectBounds(c, specs[1..], isUpper);
    }
  }

  /** With the export filter off, the reported names are exactly the
      (non-empty) names of the struct type specs. */
  lemma {:induction false} ListedWithoutExportFilter(c: Config, specs: seq<Spec>, isUpper: char -> bool, x: string)
    requires !c.exportOnly
    ensures x in Select(c, specs, isUpper) <==>
              x != "" && exists s :: s in specs && s.TypeSpec? && s.typ.StructType? && s.name == x
  {
    SelectMembership(c, specs, isUpper, x);
  }

  /** With the export filter on, the reported names are exactly the exported
      names of the struct type specs. */
  lemma {:induction false} ListedWithExportFilter(c: Config, specs: seq<Spec>, isUpper: char -> bool, x: string)
    requires c.exportOnly
    ensures x in Select(c, specs, isUpper) <==>
              IsExported(x, isUpper) && exists s :: s in specs && s.TypeSpec? && s.typ.StructType? && s.name == x
  {
    SelectMembership(c, specs, isUpper, x);
  }

  /** A name declared only by non-struct type specs is never reported,
      whatever the export filter. */
  lemma {:induction false} NonStructNeverListed(c: Config, specs: seq<Spec>, isUpper: char -> bool, x: string)
    requires forall s :: s in specs && s.TypeSpec? && s.name == x ==> !s.typ.StructType?
    ensures x !in Select(c, specs, isUpper)
  {
    SelectMembership(c, specs, isUpper, x);
  }

  lemma SubsequenceOfCons<T>(a: seq<T>, x: T, b: seq<T>)
    requires IsSubsequence(a, b)
    ensures IsSubsequence(a, [x] + b)
  {
    assert ([x] + b)[1..] == b;
  }

  /** The exported-only result is the full result with some names dropped,
      the rest in the same order. */
  lemma {:induction false} ExportOnlySubsequence(c: Config, specs: seq<Spec>, isUpper: char -> bool)
    ensures IsSubsequence(Select(c.(exportOnly := true), specs, isUpper),
                          Select(c.(exportOnly := false), specs, isUpper))
  {
    var on, off := c.(exportOnly := true), c.(exportOnly := false);
    if |specs| > 0 {
      ExportOnlySubsequence(c, specs[1..], isUpper);
      var a, b := Select(on, specs, isUpper), Select(off, specs, isUpper);
      var a', b' := Select(on, specs[1..], isUpper), Select(off, specs[1..], isUpper);
      if Matches(on, specs[0], isUpper) {
        assert a[0] == b[0] && a[1..] == a' && b[1..] == b';
      } else if Matches(off, specs[0], isUpper) {
        assert a == a' && b == [specs[0].name] + b';
        SubsequenceOfCons(a', specs[0].name, b');
      } else {
        assert a == a' && b == b';
      }
    }
  }

  /** For a whole file: the reported names keep the order of the file's
      type specs. Well-formedness is what makes every visited spec a type
      spec, so that each has a name to compare with. */
  lemma FileKeepsOrder(c: Config, f: File, isUpper: char -> bool)
    requires WellFormed(f)
    ensures IsSubsequence(FileNames(c, f, isUpper), SpecNames(TypeSpecs(f.decls)))
  {
    SelectKeepsOrder(c, TypeSpecs(f.decls), isUpper);
  }

  /** Hence the exported-only result is never longer. */
  lemma ExportOnlyNoLonger(c: Config, f: File, isUpper: char -> bool)
    ensures |FileNames(c.(exportOnly := true), f, isUpper)| <= |FileNames(c.(exportOnly := false), f, isUpper)|
  {
    ExportOnlySubsequence(c, TypeSpecs(f.decls), isUpper);
    SubsequenceLength(FileNames(c.(exportOnly := true), f, isUpper), FileNames(c.(exportOnly := false), f, isUpper));
  }

  /** Inserting an import, const or var declaration, a function declaration
      or a bad declaration anywhere in a file changes nothing the file
      reports. */
  lemma NonTypeDeclIgnored(c: Config, pre: seq<Decl>, d: Decl, post: seq<Decl>, isUpper: char -> bool)
    requires !IsTypeDecl(d)
    ensures FileNames(c, File(pre + [d] + post), isUpper) == FileNames(c, File(pre + post), isUpper)
  {
    assert [d][1..] == [];
    assert TypeSpecs([d]) == [];
    calc {
      TypeSpecs(pre + [d] + post);
      { TypeSpecsAppend(pre + [d], post); }
      TypeSpecs(pre + [d]) + TypeSpecs(post);
      { TypeSpecsAppend(pre, [d]); assert TypeSpecs(pre) + [] == TypeSpecs(pre); }
      TypeSpecs(pre) + TypeSpecs(post);
      { TypeSpecsAppend(pre, post); }
      TypeSpecs(pre + post);
    }
  }

  /** The listing is empty exactly when no file has a matching type spec;
      an empty listing is a success, not an error. */
  lemma {:induction false} CollectEmpty(c: Config, files: seq<File>, isUpper: char -> bool)
    ensures Collect(c, files, isUpper) == [] <==>
              forall f, s :: f in files && s in TypeSpecs(f.decls) ==> !Matches(c, s, isUpper)
  {
    if |files| > 0 {
      CollectEmpty(c, files[1..], isUpper);
      var f := files[0];
      if Collect(c, files, isUpper) == [] {
        assert FileNames(c, f, isUpper) == [];
        forall g, s | g in files && s in TypeSpecs(g.decls)
          ensures !Matches(c, s, isUpper)
        {
          if g == f && s.TypeSpec? {
            SelectMembership(c, TypeSpecs(f.decls), isUpper, s.name);
          } else if g != f {
            assert g in files[1..];
          }
        }
      } else if FileNames(c, f, isUpper) != [] {
        var x := FileNames(c, f, isUpper)[0];
        SelectMembership(c, TypeSpecs(f.decls), isUpper, x);
      } else {
        assert forall g :: g in files[1..] ==> g in files;
      }
    }
  }

  /** Taking one file out of the middle of a run of files takes out
      exactly its names. */
  lemma CollectSplit(c: Config, all: seq<File>, i: nat, isUpper: char -> bool)
    requires i < |all|
    ensures multiset(Collect(c, all, isUpper))
         == multiset(FileNames(c, all[i], isUpper)) + multiset(Collect(c, all[..i] + all[i + 1..], isUpper))
  {
    var pre, f, post := all[..i], all[i], all[i + 1..];
    assert all == pre + [f] + post;
    assert [f][1..] == [];
    assert Collect(c, [f], isUpper) == FileNames(c, f, isUpper) + [];
    CollectAppend(c, pre + [f], post, isUpper);
    CollectAppend(c, pre, [f], isUpper);
    CollectAppend(c, pre, post, isUpper);
  }

  lemma IndexOfFirst(files1: seq<File>, files2: seq<File>) returns (i: nat)
    requires multiset(files1) == multiset(files2) && |files1| > 0
    ensures i < |files2| && files2[i] == files1[0]
  {
    assert files1[0] in multiset(files1);
    assert files1[0] in files2;
    i :| i < |files2| && files2[i] == files1[0];
  }

  lemma MultisetRemoveAt(files1: seq<File>, files2: seq<File>, i: nat)
    requires multiset(files1) == multiset(files2)
    requires |files1| > 0 && i < |files2| && files2[i] == files1[0]
    ensures multiset(files1[1..]) == multiset(files2[..i] + files2[i + 1..])
  {
    var f := files1[0];
    assert files1 == [f] + files1[1..];
    assert files2 == files2[..i] + [f] + files2[i + 1..];
    assert multiset(files1[1..]) == multiset(files1) - multiset{f};
    assert multiset(files2[..i] + files2[i + 1..]) == multiset(files2) - multiset{f};
  }

  /** Reordering the files (Go leaves the iteration order of packages and
      files unspecified) reorders the names but never changes which names
      are reported, nor how often. */
  lemma {:induction false} CollectPermutation(c: Config, files1: seq<File>, files2: seq<File>, isUpper: char -> bool)
    requires multiset(files1) == multiset(files2)
    ensures multiset(Collect(c, files1, isUpper)) == multiset(Collect(c, files2, isUpper))
    decreases |files1|
  {
    if |files1| == 0 {
      assert |multiset(files2)| == 0;
    } else {
      var f, rest := files1[0], files1[1..];
      var i := IndexOfFirst(files1, files2);
      var pre, post := files2[..i], files2[i + 1..];
      MultisetRemoveAt(files1, files2, i);
      CollectPermutation(c, rest, pre + post, isUpper);
      CollectSplit(c, files2, i, isUpper);
      assert Collect(c, files1, isUpper) == FileNames(c, f, isUpper) + Collect(c, rest, isUpper);
    }
  }

  /** Two parses of the same directory that yield the same files, in
      whatever package and file order, produce listings with the same
      names, each as often. */
  lemma PackagePermutation(c: Config, pkgs1: seq<Package>, pkgs2: seq<Package>, isUpper: char -> bool)
    requires multiset(AllFiles(pkgs1)) == multiset(AllFiles(pkgs2))
    ensures multiset(Collect(c, AllFiles(pkgs1), isUpper)) == multiset(Collect(c, AllFiles(pkgs2), isUpper))
  {
    CollectPermutation(c, AllFiles(pkgs1), AllFiles(pkgs2), isUpper);
  }

  /** The positions of the matching specs in a list of specs. */
  function MatchingPositions(c: Config, specs: seq<Spec>, isUpper: char -> bool): set<nat> {
    set i: nat | i < |specs| && Matches(c, specs[i], isUpper)
  }

  /** Every position moved one place to the right. */
  function Shift(t: set<nat>): set<nat> {
    set j | j in t :: j + 1
  }

  lemma {:induction false} ShiftCardinality(t: set<nat>)
    ensures |Shift(t)| == |t|
    decreases t
  {
    if t != {} {
      var x :| x in t;
      ShiftCardinality(t - {x});
      var all, others := Shift(t), Shift(t - {x});
      assert all == others + {x + 1} by {
        forall y | y in all
          ensures y in others + {x + 1}
        {
          var j :| j in t && y == j + 1;
          if j != x {
            assert j in t - {x};
          }
        }
      }
      assert x + 1 !in others;
      assert |t - {x}| == |t| - 1;
      assert |all| == |others| + 1;
    }
  }

  /** The matching positions of a non-empty list: possibly the head, and
      the matching positions of the tail moved one place right. */
  lemma MatchingPositionsSplit(c: Config, specs: seq<Spec>, isUpper: char -> bool)
    requires |specs| > 0
    ensures MatchingPositions(c, specs, isUpper)
         == (if Matches(c, specs[0], isUpper) then {0} else {}) + Shift(MatchingPositions(c, specs[1..], isUpper))
  {
    var t := MatchingPositions(c, specs[1..], isUpper);
    forall i: nat | i in MatchingPositions(c, specs, isUpper) && i > 0
      ensures i in Shift(t)
    {
      assert i - 1 in t;
    }
  }

  /** The walk reports one name for each matching spec: the number of names
      is the number of positions holding a matching spec. */
  lemma {:induction false} SelectCount(c: Config, specs: seq<Spec>, isUpper: char -> bool)
    ensures |Select(c, specs, isUpper)| == |MatchingPositions(c, specs, isUpper)|
  {
    if |specs| > 0 {
      var t := MatchingPositions(c, specs[1..], isUpper);
      SelectCount(c, specs[1..], isUpper);
      ShiftCardinality(t);
      MatchingPositionsSplit(c, specs, isUpper);
      assert 0 !in Shift(t);
    }
  }

  /** The number of matching type specs over a run of files. */
  function TotalMatching(c: Config, files: seq<File>, isUpper: char -> bool): nat {
    if |files| == 0 then 0
    else |MatchingPositions(c, TypeSpecs(files[0].decls), isUpper)| + TotalMatching(c, files[1..], isUpper)
  }

  /** The listing holds one name for each matching type spec of each file. */
  lemma {:induction false} CollectCount(c: Config, files: seq<File>, isUpper: char -> bool)
    ensures |Collect(c, files, isUpper)| == TotalMatching(c, files, isUpper)
  {
    if |files| > 0 {
      SelectCount(c, TypeSpecs(files[0].decls), isUpper);
      CollectCount(c, files[1..], isUpper);
    }
  }

  /** A name is in the listing exactly when some file has a matching type
      spec carrying that name. */
  lemma {:induction false} CollectMembership(c: Config, files: seq<File>, isUpper: char -> bool, x: string)
    ensures x in Collect(c, files, isUpper) <==>
              exists f, s :: f in files && s in TypeSpecs(f.decls) && Matches(c, s, isUpper) && s.name == x
  {
    if |files| > 0 {
      SelectMembership(c, TypeSpecs(files[0].decls), isUpper, x);
      CollectMembership(c, files[1..], isUpper, x);
      assert forall f :: f in files <==> f == files[0] || f in files[1..];
    }
  }

  /** A file consistent with the tests' expected results: it declares the
      exported struct `App` and the unexported struct `base`; the other
      declarations are illustrative and are not struct types. */
  function TestFile(): File {
    File([ GenDecl(Import, [ImportSpec("fmt")]),
           GenDecl(Type, [TypeSpec("App", StructType), TypeSpec("Handler", FuncType)]),
           FuncDecl("Run"),
           GenDecl(Type, [TypeSpec("base", StructType)]) ])
  }

  /** The type specs of the test file, in order. */
  function TestSpecs(): seq<Spec> {
    [TypeSpec("App", StructType), TypeSpec("Handler", FuncType), TypeSpec("base", StructType)]
  }

  lemma TestFileTypeSpecs()
    ensures TypeSpecs(TestFile().decls) == TestSpecs()
  {
    var ds := TestFile().decls;
    assert ds[3..][1..] == [];
    assert TypeSpecs(ds[3..]) == [TypeSpec("base", StructType)];
    assert ds[2..][1..] == ds[3..];
    assert TypeSpecs(ds[2..]) == TypeSpecs(ds[3..]);
    assert ds[1..][1..] == ds[2..];
  }

  /** The names the walk keeps from the test specs' last two entries. */
  lemma TestSpecsTail(c: Config, isUpper: char -> bool)
    requires c.exportOnly ==> !isUpper('b')
    ensures Select(c, TestSpecs()[1..], isUpper) == (if c.exportOnly then [] else ["base"])
  {
    var handler, base := TypeSpec("Handler", FuncType), TypeSpec("base", StructType);
    assert TestSpecs()[1..] == [handler, base];
    assert [handler, base][1..] == [base] && [base][1..] == [];
    assert Select(c, [base], isUpper) == (if c.exportOnly then [] else ["base"]);
  }

  /** With the export filter on (the default of New), only the exported
      `App` is reported. */
  lemma TestDirectoryExportedOnly(c: Config, isUpper: char -> bool)
    requires c.exportOnly && isUpper('A') && !isUpper('b')
    ensures FileNames(c, TestFile(), isUpper) == ["App"]
  {
    TestFileTypeSpecs();
    TestSpecsTail(c, isUpper);
    assert Matches(c, TestSpecs()[0], isUpper);
  }

  /** With the export filter off, `App` and then `base` are reported. */
  lemma TestDirectoryAllNames(c: Config, isUpper: char -> bool)
    requires !c.exportOnly
    ensures FileNames(c, TestFile(), isUpper) == ["App", "base"]
  {
    TestFileTypeSpecs();
    TestSpecsTail(c, isUpper);
    assert Matches(c, TestSpecs()[0], isUpper);
  }

  /** A stand-in for the directory parser on the tests' fixtures: the
      directory `test` parses to one package holding the test file, and any
      other directory (`test2` among them) does not exist. */
  function TestParseDir(dir: string, filter: FileFilter): ParseResult {
    if dir == "test" then Parsed([Package("classes", [TestFile()])])
    else Failed(NotFound(dir))
  }

  /** The error the parser reports for a missing directory. */
  function NotFound(dir: string): ParseError {
    ParseError("open " + dir + ": no such file or directory")
  }

  lemma TestParseDirWellFormed(dir: string, filter: FileFilter)
    ensures ParsedWellFormed(TestParseDir(dir, filter))
  {
  }

  lemma TestListing(c: Config, isUpper: char -> bool)
    requires c.dirname == "test"
    ensures Collect(c, AllFiles(TestParseDir(c.dirname, c.filter).pkgs), isUpper) == FileNames(c, TestFile(), isUpper)
  {
  }

  /** The first test: `New("test").Classlist()` reports exactly `App`, and
      no error. */
  method TestNewListsExported(isUpper: char -> bool) returns (names: seq<string>, err: Option<ParseError>)
    requires isUpper('A') && !isUpper('b')
    ensures names == ["App"] && err == None
  {
    var c := New("test");
    TestParseDirWellFormed(c.dirname, c.filter);
    names, err := Classlist(c, TestParseDir, isUpper);
    TestListing(c, isUpper);
    TestDirectoryExportedOnly(c, isUpper);
  }

  /** The second half of the first test: listing the missing directory
      `test2` yields an error and no names. */
  method TestMissingDirectory(isUpper: char -> bool) returns (names: seq<string>, err: Option<ParseError>)
    ensures names == [] && err == Some(NotFound("test2"))
  {
    var c := New("test2");
    TestParseDirWellFormed(c.dirname, c.filter);
    names, err := Classlist(c, TestParseDir, isUpper);
  }

  /** The second test: with `ExportOnly` cleared, `App` and then `base` are
      reported, and no error. */
  method TestNoExportFilterListsAll(isUpper: char -> bool) returns (names: seq<string>, err: Option<ParseError>)
    ensures names == ["App", "base"] && err == None
  {
    var c := New("test").(exportOnly := false);
    TestParseDirWellFormed(c.dirname, c.filter);
    names, err := Classlist(c, TestParseDir, isUpper);
    TestListing(c, isUpper);
    TestDirectoryAllNames(c, isUpper);
  }
}
