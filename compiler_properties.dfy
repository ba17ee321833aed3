/** What `decoderFromType` (index.ts:35-102) guarantees, stated against
    reference definitions that do not mention the compiler. */
module CompilerProperties {
  import opened Wrappers
  import opened Syntax
  import opened Naming
  import opened Compiler

  // ---------------------------------------------------------------------
  // Keywords (index.ts:37-47)

  /** The four keywords compile to bare references to builtins, not calls. */
  lemma KeywordDecoders()
    ensures DecoderFromType(StringKeyword) == Some(DecoderRef("string"))
    ensures DecoderFromType(NumberKeyword) == Some(DecoderRef("number"))
    ensures DecoderFromType(BooleanKeyword) == Some(DecoderRef("boolean"))
    ensures DecoderFromType(ObjectKeyword) == Some(DecoderRef("jsonObject"))
  {
  }

  // ---------------------------------------------------------------------
  // Literals (index.ts:63-76)

  /** A string or numeric literal type becomes `constant(lit)`, where `lit`
      is a literal of the same kind with the same text; any other literal
      has no decoder. */
  lemma LiteralConstant(kind: LiteralKind, text: string)
    ensures DecoderFromType(LiteralType(kind, text)).Some? <==> kind != OtherLiteral
    ensures kind != OtherLiteral ==>
              var e := DecoderFromType(LiteralType(kind, text)).value;
              IsCallTo(e, "constant") && |e.args| == 1 &&
              (e.args[0].StringLiteralExpr? <==> kind == StringLiteral) &&
              (e.args[0].NumericLiteralExpr? <==> kind == NumericLiteral) &&
              (e.args[0].StringLiteralExpr? || e.args[0].NumericLiteralExpr?) &&
              e.args[0].text == text
  {
  }

  // ---------------------------------------------------------------------
  // Tuples (index.ts:58-61)

  /** A tuple of N elements becomes `tuple(args)` with exactly N arguments in
      order: each is the element's decoder, and the bare `json` reference
      stands exactly where the element has none. */
  lemma TupleArity(elements: seq<TypeNode>)
    ensures DecoderFromType(TupleType(elements)).Some?
    ensures IsCallTo(DecoderFromType(TupleType(elements)).value, "tuple")
    ensures var args := DecoderFromType(TupleType(elements)).value.args;
            |args| == |elements| &&
            forall i :: 0 <= i < |elements| ==>
              (Compilable(elements[i]) ==> args[i] == DecoderFromType(elements[i]).value) &&
              (args[i] == DecoderRef("json") <==> !Compilable(elements[i]))
  {
  }

  // ---------------------------------------------------------------------
  // Unions (index.ts:48-51)

  /** The members of a union that have a decoder, in source order. */
  function CompilableMembers(types: seq<TypeNode>): (r: seq<TypeNode>)
    ensures |r| <= |types|
    ensures forall t :: t in r ==> t in types && Compilable(t)
  {
    if types == [] then []
    else (if Compilable(types[0]) then [types[0]] else []) + CompilableMembers(types[1..])
  }

  lemma {:induction false} UnionArgsInOrder(types: seq<TypeNode>)
    ensures |Somes(DecodersOf(types))| == |CompilableMembers(types)|
    ensures forall k :: 0 <= k < |CompilableMembers(types)| ==>
              Somes(DecodersOf(types))[k] == DecoderFromType(CompilableMembers(types)[k]).value
  {
    if types != [] {
      assert DecodersOf(types)[1..] == DecodersOf(types[1..]);
      UnionArgsInOrder(types[1..]);
    }
  }

  /** A union becomes `either(args)`: the decoders of its compilable members,
      in source order, the others dropped; so there are at most as many
      arguments as members, and as many exactly when no member is dropped. */
  lemma UnionMembers(types: seq<TypeNode>)
    ensures DecoderFromType(UnionType(types)).Some?
    ensures IsCallTo(DecoderFromType(UnionType(types)).value, "either")
    ensures var args := DecoderFromType(UnionType(types)).value.args;
            var kept := CompilableMembers(types);
            |args| == |kept| &&
            (forall k :: 0 <= k < |kept| ==> args[k] == DecoderFromType(kept[k]).value) &&
            |args| <= |types| &&
            (|args| == |types| <==> forall i :: 0 <= i < |types| ==> Compilable(types[i]))
  {
    UnionArgsInOrder(types);
    SomesKeepsAll(DecodersOf(types));
  }

  // ---------------------------------------------------------------------
  // Arrays (index.ts:52-57)

  /** An array compiles to `array(d)` with its element's decoder `d`, and to
      nothing when the element has no decoder. */
  lemma ArrayElement(e: TypeNode)
    ensures DecoderFromType(ArrayType(e)) ==
              if Compilable(e) then Some(DecoderCall("array", [DecoderFromType(e).value])) else None
  {
  }

  // ---------------------------------------------------------------------
  // Type literals (index.ts:82-98)

  /** The surviving members, in source order. */
  function SurvivingProperties(members: seq<Member>): (r: seq<Member>)
    ensures forall m :: m in r ==> m in members
    ensures forall k :: 0 <= k < |r| ==> Survives(r[k])
  {
    if members == [] then []
    else (if Survives(members[0]) then [members[0]] else []) + SurvivingProperties(members[1..])
  }

  /** The number of property signatures among `members`. */
  function PropertySignatureCount(members: seq<Member>): nat {
    if members == [] then 0
    else (if members[0].PropertySignature? then 1 else 0) + PropertySignatureCount(members[1..])
  }

  /** What the entry for a surviving member holds: its decoder, wrapped in
      `optional` when the member has a question token. */
  function ExpectedInitializer(m: Member): Expr
    requires Survives(m)
  {
    var d := DecoderFromType(m.propertyType.value).value;
    if m.questionToken then DecoderCall("optional", [d]) else d
  }

  lemma {:induction false} PropertyAssignmentsInOrder(members: seq<Member>)
    ensures |Somes(PropertyAssignments(members))| == |SurvivingProperties(members)|
    ensures forall k :: 0 <= k < |SurvivingProperties(members)| ==>
              var m := SurvivingProperties(members)[k];
              Somes(PropertyAssignments(members))[k] == PropertyAssignment(m.name, ExpectedInitializer(m))
  {
    if members != [] {
      assert PropertyAssignments(members)[1..] == PropertyAssignments(members[1..]);
      PropertyAssignmentsInOrder(members[1..]);
    }
  }

  lemma {:induction false} SurvivorCount(members: seq<Member>)
    ensures |SurvivingProperties(members)| <= PropertySignatureCount(members)
    ensures |SurvivingProperties(members)| == PropertySignatureCount(members) <==>
              forall i :: 0 <= i < |members| && members[i].PropertySignature? ==> Survives(members[i])
  {
    if members != [] {
      SurvivorCount(members[1..]);
      assert forall i :: 1 <= i < |members| ==> members[i] == members[1..][i - 1];
    }
  }

  /** A type literal becomes `object({...})` whose entries are its surviving
      property signatures in source order, each under its own name, wrapped
      in exactly one `optional` exactly when the signature has a question
      token; so there are at most as many entries as property signatures,
      and as many exactly when every property signature has a compilable type. */
  lemma ObjectFields(members: seq<Member>)
    ensures DecoderFromType(TypeLiteral(members)).Some?
    ensures var e := DecoderFromType(TypeLiteral(members)).value;
            IsCallTo(e, "object") && |e.args| == 1 && e.args[0].ObjectLiteral?
    ensures var entries := DecoderFromType(TypeLiteral(members)).value.args[0].properties;
            var kept := SurvivingProperties(members);
            |entries| == |kept| &&
            (forall k :: 0 <= k < |kept| ==>
               var d := DecoderFromType(kept[k].propertyType.value).value;
               entries[k].key == kept[k].name &&
               (IsCallTo(entries[k].initializer, "optional") <==> kept[k].questionToken) &&
               entries[k].initializer == (if kept[k].questionToken then DecoderCall("optional", [d]) else d)) &&
            |entries| <= PropertySignatureCount(members) &&
            (|entries| == PropertySignatureCount(members) <==>
               forall i :: 0 <= i < |members| && members[i].PropertySignature? ==> Survives(members[i]))
  {
    PropertyAssignmentsInOrder(members);
    SurvivorCount(members);
  }

  // ---------------------------------------------------------------------
  // The builtins reached through the namespace import

  /** Every builtin `e` names lies in `decoders`. */
  predicate UsesOnly(e: Expr, decoders: set<string>) {
    match e
    case DecoderRef(d) => d in decoders
    case DecoderCall(d, args) => d in decoders && forall i :: 0 <= i < |args| ==> UsesOnly(args[i], decoders)
    case ObjectLiteral(ps) => forall i :: 0 <= i < |ps| ==> UsesOnly(ps[i].initializer, decoders)
    case _ => true
  }

  /** Every decoder the compiler produces uses only builtins the runtime
      library provides, so the one namespace import always suffices. */
  lemma {:induction false} UsesOnlyLibraryDecoders(t: TypeNode)
    ensures DecoderFromType(t).Some? ==> UsesOnly(DecoderFromType(t).value, LibraryDecoders)
  {
    match t
    case UnionType(types) =>
      var ds := DecodersOf(types);
      SomesOrigin(ds);
      forall k | 0 <= k < |Somes(ds)| ensures UsesOnly(Somes(ds)[k], LibraryDecoders) {
        assert Some(Somes(ds)[k]) in ds;
        var i :| 0 <= i < |ds| && ds[i] == Some(Somes(ds)[k]);
        UsesOnlyLibraryDecoders(types[i]);
      }
    case ArrayType(elementType) =>
      UsesOnlyLibraryDecoders(elementType);
    case TupleType(elements) =>
      forall i | 0 <= i < |elements| ensures UsesOnly(OrJson(DecodersOf(elements))[i], LibraryDecoders) {
        UsesOnlyLibraryDecoders(elements[i]);
      }
    case TypeLiteral(members) =>
      var ps := PropertyAssignments(members);
      SomesOrigin(ps);
      forall k | 0 <= k < |Somes(ps)| ensures UsesOnly(Somes(ps)[k].initializer, LibraryDecoders) {
        assert Some(Somes(ps)[k]) in ps;
        var i :| 0 <= i < |ps| && ps[i] == Some(Somes(ps)[k]);
        assert ps[i] == PropertyAssignmentOf(members[i]);
        var pt := members[i].propertyType.value;
        UsesOnlyLibraryDecoders(pt);
      }
    case _ =>
  }

  // ---------------------------------------------------------------------
  // Identifiers and type references (index.ts:78-80)

  /** Every identifier in `e` is one of `names`. */
  predicate IdentifiersWithin(e: Expr, names: set<string>) {
    match e
    case Identifier(n) => n in names
    case DecoderCall(_, args) => forall i :: 0 <= i < |args| ==> IdentifiersWithin(args[i], names)
    case ObjectLiteral(ps) => forall i :: 0 <= i < |ps| ==> IdentifiersWithin(ps[i].initializer, names)
    case _ => true
  }

  /** Every type reference in `t` names one of `typeNames`. */
  predicate ReferencesWithin(t: TypeNode, typeNames: set<string>) {
    match t
    case TypeReference(n) => n in typeNames
    case UnionType(types) => forall i :: 0 <= i < |types| ==> ReferencesWithin(types[i], typeNames)
    case ArrayType(elementType) => ReferencesWithin(elementType, typeNames)
    case TupleType(elements) => forall i :: 0 <= i < |elements| ==> ReferencesWithin(elements[i], typeNames)
    case TypeLiteral(ms) =>
      forall i :: 0 <= i < |ms| && ms[i].PropertySignature? && ms[i].propertyType.Some? ==>
        ReferencesWithin(ms[i].propertyType.value, typeNames)
    case _ => true
  }

  function DecoderNames(typeNames: set<string>): set<string> {
    set n | n in typeNames :: DecoderNameFromTypeName(n)
  }

  /** A type reference compiles to the identifier of its decoder name,
      whatever the name. */
  lemma ReferenceIdentifier(n: string)
    ensures DecoderFromType(TypeReference(n)) == Some(Identifier(DecoderNameFromTypeName(n)))
  {
  }

  /** The only identifiers in a decoder are the decoder names of the types
      the node refers to; the referenced types themselves are never read. */
  lemma {:induction false} IdentifiersFromReferences(t: TypeNode, typeNames: set<string>)
    requires ReferencesWithin(t, typeNames)
    ensures DecoderFromType(t).Some? ==> IdentifiersWithin(DecoderFromType(t).value, DecoderNames(typeNames))
  {
    var names := DecoderNames(typeNames);
    match t
    case TypeReference(n) =>
      assert DecoderNameFromTypeName(n) in names;
    case UnionType(types) =>
      var ds := DecodersOf(types);
      SomesOrigin(ds);
      forall k | 0 <= k < |Somes(ds)| ensures IdentifiersWithin(Somes(ds)[k], names) {
        assert Some(Somes(ds)[k]) in ds;
        var i :| 0 <= i < |ds| && ds[i] == Some(Somes(ds)[k]);
        IdentifiersFromReferences(types[i], typeNames);
      }
    case ArrayType(elementType) =>
      IdentifiersFromReferences(elementType, typeNames);
    case TupleType(elements) =>
      forall i | 0 <= i < |elements| ensures IdentifiersWithin(OrJson(DecodersOf(elements))[i], names) {
        IdentifiersFromReferences(elements[i], typeNames);
      }
    case TypeLiteral(members) =>
      var ps := PropertyAssignments(members);
      SomesOrigin(ps);
      forall k | 0 <= k < |Somes(ps)| ensures IdentifiersWithin(Somes(ps)[k].initializer, names) {
        assert Some(Somes(ps)[k]) in ps;
        var i :| 0 <= i < |ps| && ps[i] == Some(Somes(ps)[k]);
        assert ps[i] == PropertyAssignmentOf(members[i]);
        var pt := members[i].propertyType.value;
        IdentifiersFromReferences(pt, typeNames);
      }
    case _ =>
  }

  // ---------------------------------------------------------------------
  // Nothing is lost when nothing is dropped

  /** The nodes in which nothing is dropped or replaced: no uncompilable
      node anywhere, and type literals made of typed property signatures. */
  predicate Lossless(t: TypeNode) {
    match t
    case UnionType(types) => forall i :: 0 <= i < |types| ==> Lossless(types[i])
    case ArrayType(elementType) => Lossless(elementType)
    case TupleType(elements) => forall i :: 0 <= i < |elements| ==> Lossless(elements[i])
    case LiteralType(kind, _) => kind != OtherLiteral
    case TypeLiteral(ms) =>
      forall i :: 0 <= i < |ms| ==>
        ms[i].PropertySignature? && ms[i].propertyType.Some? && Lossless(ms[i].propertyType.value)
    case OtherType => false
    case _ => true
  }

  /** `t` with every referenced type name camel-cased, the one thing the
      naming convention forgets. */
  function Normalize(t: TypeNode): TypeNode {
    match t
    case UnionType(types) => UnionType(seq(|types|, i requires 0 <= i < |types| => Normalize(types[i])))
    case ArrayType(elementType) => ArrayType(Normalize(elementType))
    case TupleType(elements) => TupleType(seq(|elements|, i requires 0 <= i < |elements| => Normalize(elements[i])))
    case TypeReference(n) => TypeReference(CamelCase(n))
    case TypeLiteral(ms) => TypeLiteral(seq(|ms|, i requires 0 <= i < |ms| => NormalizeMember(ms[i])))
    case _ => t
  }

  function NormalizeMember(m: Member): Member {
    match m
    case PropertySignature(name, Some(pt), q) => PropertySignature(name, Some(Normalize(pt)), q)
    case _ => m
  }

  /** Reads a type back from a decoder: the inverse of the compiler on
      lossless nodes. */
  function TypeFromDecoder(e: Expr): TypeNode {
    match e
    case DecoderRef(d) =>
      if d == "string" then StringKeyword
      else if d == "number" then NumberKeyword
      else if d == "boolean" then BooleanKeyword
      else if d == "jsonObject" then ObjectKeyword
      else OtherType
    case DecoderCall(d, args) =>
      if d == "either" then UnionType(seq(|args|, i requires 0 <= i < |args| => TypeFromDecoder(args[i])))
      else if d == "array" && |args| == 1 then ArrayType(TypeFromDecoder(args[0]))
      else if d == "tuple" then TupleType(seq(|args|, i requires 0 <= i < |args| => TypeFromDecoder(args[i])))
      else if d == "constant" && |args| == 1 && args[0].StringLiteralExpr? then LiteralType(StringLiteral, args[0].text)
      else if d == "constant" && |args| == 1 && args[0].NumericLiteralExpr? then LiteralType(NumericLiteral, args[0].text)
      else if d == "object" && |args| == 1 && args[0].ObjectLiteral? then
        var ps := args[0].properties;
        TypeLiteral(seq(|ps|, i requires 0 <= i < |ps| => SignatureFromProperty(ps[i])))
      else OtherType
    case Identifier(name) =>
      if |name| >= |DecoderSuffix| && name[|name| - |DecoderSuffix|..] == DecoderSuffix
      then TypeReference(name[..|name| - |DecoderSuffix|])
      else OtherType
    case _ => OtherType
  }

  function SignatureFromProperty(p: Property): Member {
    var init := p.initializer;
    if IsCallTo(init, "optional") && |init.args| == 1
    then PropertySignature(p.key, Some(TypeFromDecoder(init.args[0])), true)
    else PropertySignature(p.key, Some(TypeFromDecoder(init)), false)
  }

  lemma {:induction false} LosslessIsCompilable(t: TypeNode)
    requires Lossless(t)
    ensures Compilable(t)
  {
    if t.ArrayType? {
      LosslessIsCompilable(t.elementType);
    }
  }

  /** On a lossless node the decoder determines the type, up to the case of
      the first character of each referenced type name. */
  lemma {:induction false} RoundTrip(t: TypeNode)
    requires Lossless(t)
    ensures DecoderFromType(t).Some?
    ensures TypeFromDecoder(DecoderFromType(t).value) == Normalize(t)
    decreases t, 1
  {
    LosslessIsCompilable(t);
    match t
    case UnionType(_) => RoundTripUnion(t);
    case ArrayType(elementType) => RoundTrip(elementType);
    case TupleType(_) => RoundTripTuple(t);
    case TypeReference(n) => DecoderNamePrefix(n);
    case TypeLiteral(_) => RoundTripObject(t);
    case _ =>
  }

  lemma {:induction false} RoundTripUnion(t: TypeNode)
    requires t.UnionType? && Lossless(t)
    ensures TypeFromDecoder(DecoderFromType(t).value) == Normalize(t)
    decreases t, 0
  {
    var ds := DecodersOf(t.types);
    forall i | 0 <= i < |t.types| ensures ds[i].Some? && TypeFromDecoder(ds[i].value) == Normalize(t.types[i]) {
      RoundTrip(t.types[i]);
    }
    SomesOfPresent(ds);
  }

  lemma {:induction false} RoundTripTuple(t: TypeNode)
    requires t.TupleType? && Lossless(t)
    ensures TypeFromDecoder(DecoderFromType(t).value) == Normalize(t)
    decreases t, 0
  {
    var args := OrJson(DecodersOf(t.elements));
    forall i | 0 <= i < |t.elements| ensures TypeFromDecoder(args[i]) == Normalize(t.elements[i]) {
      RoundTrip(t.elements[i]);
    }
  }

  lemma {:induction false} RoundTripObject(t: TypeNode)
    requires t.TypeLiteral? && Lossless(t)
    ensures TypeFromDecoder(DecoderFromType(t).value) == Normalize(t)
    decreases t, 0
  {
    var members := t.members;
    var ps := PropertyAssignments(members);
    forall i | 0 <= i < |members|
      ensures ps[i].Some? && SignatureFromProperty(ps[i].value) == NormalizeMember(members[i])
    {
      assert ps[i] == PropertyAssignmentOf(members[i]);
      RoundTrip(members[i].propertyType.value);
    }
    SomesOfPresent(ps);
  }

  /** Two lossless nodes with the same decoder differ at most in the case of
      the first character of referenced type names. */
  lemma DecoderDeterminesType(a: TypeNode, b: TypeNode)
    requires Lossless(a) && Lossless(b)
    requires DecoderFromType(a) == DecoderFromType(b)
    ensures Normalize(a) == Normalize(b)
  {
    RoundTrip(a);
    RoundTrip(b);
  }
}
