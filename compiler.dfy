/** The type-node to decoder-expression compiler, `decoderFromType`
    (index.ts:35-102), and what it guarantees. `None` is the source's
    `undefined`: no decoder could be produced for the node. */
module Compiler {
  import opened Wrappers
  import opened Syntax
  import opened Naming

  /** The nodes for which a decoder exists: everything except an array of
      an uncompilable element, a literal that is neither a string nor a
      number, and the unlisted kinds. */
  predicate Compilable(t: TypeNode) {
    match t
    case ArrayType(elementType) => Compilable(elementType)
    case LiteralType(kind, _) => kind != OtherLiteral
    case OtherType => false
    case _ => true
  }

  /** The keywords and type references, which compile to a leaf (a bare
      builtin reference or an identifier) without looking further. */
  predicate IsLeafType(t: TypeNode) {
    t.StringKeyword? || t.NumberKeyword? || t.BooleanKeyword? || t.ObjectKeyword? || t.TypeReference?
  }

  predicate IsLeaf(e: Expr) {
    e.DecoderRef? || e.Identifier?
  }

  function DecoderFromType(t: TypeNode): (r: Option<Expr>)
    ensures r.Some? <==> Compilable(t)
    ensures (r.Some? && IsLeaf(r.value)) <==> IsLeafType(t)
    ensures r.Some? ==> !IsCallTo(r.value, "optional") && r.value != DecoderRef("json")
  {
    match t
    case StringKeyword => Some(DecoderRef("string"))
    case NumberKeyword => Some(DecoderRef("number"))
    case BooleanKeyword => Some(DecoderRef("boolean"))
    case ObjectKeyword => Some(DecoderRef("jsonObject"))
    case UnionType(types) => Some(DecoderCall("either", Somes(DecodersOf(types))))
    case ArrayType(elementType) =>
      (match DecoderFromType(elementType)
       case None => None
       case Some(d) => Some(DecoderCall("array", [d])))
    case TupleType(elements) => Some(DecoderCall("tuple", OrJson(DecodersOf(elements))))
    case LiteralType(kind, text) =>
      (match kind
       case StringLiteral => Some(DecoderCall("constant", [StringLiteralExpr(text)]))
       case NumericLiteral => Some(DecoderCall("constant", [NumericLiteralExpr(text)]))
       case OtherLiteral => None)
    case TypeReference(typeName) => Some(Identifier(DecoderNameFromTypeName(typeName)))
    case TypeLiteral(members) =>
      Some(DecoderCall("object", [ObjectLiteral(Somes(PropertyAssignments(members)))]))
    case OtherType => None
  }

  /** `types.map(x => decoderFromType(x))`. */
  function DecodersOf(types: seq<TypeNode>): seq<Option<Expr>> {
    seq(|types|, i requires 0 <= i < |types| => DecoderFromType(types[i]))
  }

  /** `.map(x => x ?? generateDecoderCall('json'))`. */
  function OrJson(ds: seq<Option<Expr>>): seq<Expr> {
    seq(|ds|, i requires 0 <= i < |ds| => ds[i].GetOr(DecoderRef("json")))
  }

  /** The members of a type literal, each mapped to its property assignment
      or to `None` (the property-signature filter and the map at
      index.ts:84-96, taken in one pass). */
  function PropertyAssignments(members: seq<Member>): seq<Option<Property>> {
    seq(|members|, i requires 0 <= i < |members| => PropertyAssignmentOf(members[i]))
  }

  /** A member that survives into the object literal: a property signature
      whose type compiles. */
  predicate Survives(m: Member) {
    m.PropertySignature? && m.propertyType.Some? && Compilable(m.propertyType.value)
  }

  /** One member: dropped unless it is a property signature whose type
      compiles; wrapped in `optional` when it carries a question token. */
  function PropertyAssignmentOf(m: Member): (r: Option<Property>)
    ensures r.Some? <==> Survives(m)
    ensures r.Some? ==> r.value.key == m.name
    ensures r.Some? ==> (IsCallTo(r.value.initializer, "optional") <==> m.questionToken)
  {
    match m
    case OtherMember => None
    case PropertySignature(name, propertyType, questionToken) =>
      match propertyType
      case None => None
      case Some(pt) =>
        match DecoderFromType(pt)
        case None => None
        case Some(d) => Some(PropertyAssignment(name, if questionToken then DecoderCall("optional", [d]) else d))
  }
}
