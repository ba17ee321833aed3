/** The two trees the generator works between: the type nodes it reads from a
    parsed declaration file, and the decoder expressions it builds. */
module Syntax {
  import opened Wrappers

  /** The kind of the literal inside a literal type: a string, a number, or
      anything else (`true`, `null`, a negated number, a big integer, ...). */
  datatype LiteralKind = StringLiteral | NumericLiteral | OtherLiteral

  /** The type node shapes the compiler distinguishes; `OtherType` is every
      other kind of node (intersections, parenthesised types, ...). */
  datatype TypeNode =
    | StringKeyword
    | NumberKeyword
    | BooleanKeyword
    | ObjectKeyword
    | UnionType(types: seq<TypeNode>)
    | ArrayType(elementType: TypeNode)
    | TupleType(elements: seq<TypeNode>)
    | LiteralType(kind: LiteralKind, text: string)
    | TypeReference(typeName: string)
    | TypeLiteral(members: seq<Member>)
    | OtherType

  /** A member of a type literal: a property signature, whose type may be
      missing (`{ a; }`), or any other member (method or index signature, ...). */
  datatype Member =
    | PropertySignature(name: string, propertyType: Option<TypeNode>, questionToken: bool)
    | OtherMember

  /** A decoder expression. Every builtin is reached through the namespace
      import: `DecoderRef(d)` is `decoders.d` and `DecoderCall(d, args)` is
      `decoders.d(args)` (generateDecoderCall and generateDecoderFuncCall). */
  datatype Expr =
    | DecoderRef(decoder: string)
    | DecoderCall(decoder: string, args: seq<Expr>)
    | Identifier(name: string)
    | ObjectLiteral(properties: seq<Property>)
    | StringLiteralExpr(text: string)
    | NumericLiteralExpr(text: string)

  /** `key: initializer` inside an object literal. */
  datatype Property = PropertyAssignment(key: string, initializer: Expr)

  /** The builtins of the runtime `decoders` library that the compiler uses. */
  const LibraryDecoders: set<string> :=
    {"string", "number", "boolean", "jsonObject", "json",
     "either", "array", "tuple", "constant", "object", "optional"}

  predicate IsCallTo(e: Expr, decoder: string) {
    e.DecoderCall? && e.decoder == decoder
  }
}
