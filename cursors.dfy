/** The parts of a libclang cursor tree the analyzer looks at, as plain
    values. A translation unit is the sequence of its top-level cursors; a
    variable declaration keeps the facts the analyzer queries from libclang
    and its child cursors. */
module Cursors {

  /** CXTLSKind: how a declaration uses thread-local storage (`__thread` is
      static TLS). */
  datatype TlsKind = TlsNone | TlsDynamic | TlsStatic

  /** A child cursor: an annotate attribute with its spelling, an initializer
      list, a unary operator with its operand, a reference to a declaration by
      name, or any other kind of cursor (a type reference, a literal, NULL). */
  datatype Node =
    | AnnotateAttr(spelling: string)
    | InitListExpr(elements: seq<Node>)
    | UnaryOperator(operand: Node)
    | DeclRefExpr(name: string)
    | OtherNode

  /** A top-level cursor. For a variable declaration: its spelling, whether
      its location is in the main file, whether it has global storage, its TLS
      kind, the field names of its element type (empty unless it is an array
      of structs) and its children. */
  datatype Decl =
    | VarDecl(name: string, fromMainFile: bool, globalStorage: bool, tls: TlsKind,
              elementFields: seq<string>, children: seq<Node>)
    | OtherDecl

  /** CXChildVisitResult, as far as the analyzer uses it. */
  datatype VisitResult = Continue | Break
}
