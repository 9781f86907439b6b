/**
  The part of Go's syntax tree (package go/ast) that the struct-name
  extractor inspects: the top-level declarations of a parsed file, the
  specs a general declaration bundles, and the shape of a type spec's
  type expression. Positions, comments and field lists are not kept.
 */
module Syntax {

  /** Token of a general declaration: `import`, `const`, `var` or `type`. */
  datatype Tok = Import | Const | Var | Type

  /** The type expressions a type spec can bind a name to. Only the outer
      constructor matters to the extractor; inner expressions are kept so
      that, for instance, `(struct{...})` is a ParenExpr and not a struct. */
  datatype TypeExpr =
    | StructType
    | InterfaceType
    | Ident(name: string)
    | SelectorExpr(pkg: string, sel: string)
    | FuncType
    | StarExpr(x: TypeExpr)
    | ArrayType(elem: TypeExpr)
    | MapType(key: TypeExpr, value: TypeExpr)
    | ChanType(value: TypeExpr)
    | ParenExpr(x: TypeExpr)

  /** A spec inside a general declaration. */
  datatype Spec =
    | ImportSpec(path: string)
    | ValueSpec(names: seq<string>)
    | TypeSpec(name: string, typ: TypeExpr)

  /** A top-level declaration: a general declaration with its token and
      specs, a function declaration, or a declaration the parser could not
      make sense of. */
  datatype Decl =
    | GenDecl(tok: Tok, specs: seq<Spec>)
    | FuncDecl(name: string)
    | BadDecl

  /** A parsed source file: its top-level declarations in textual order. */
  datatype File = File(decls: seq<Decl>)

  /** A parsed package: its files, in the (unspecified) order in which the
      parser's map of files is iterated. */
  datatype Package = Package(name: string, files: seq<File>)

  /** A general declaration introduced by the `type` keyword. */
  predicate IsTypeDecl(d: Decl) {
    d.GenDecl? && d.tok == Type
  }

  /** Every spec of a `type` declaration is a type spec, as Go's parser
      guarantees. */
  predicate DeclWellFormed(d: Decl) {
    IsTypeDecl(d) ==> forall s :: s in d.specs ==> s.TypeSpec?
  }

  predicate WellFormed(f: File) {
    forall d :: d in f.decls ==> DeclWellFormed(d)
  }

  /** Go's exported-identifier rule: the first character is an upper-case
      letter. The Unicode upper-case classification is a library call, so
      it is a parameter here rather than a definition. */
  predicate IsExported(name: string, isUpper: char -> bool) {
    |name| > 0 && isUpper(name[0])
  }
}
