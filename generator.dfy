/** The declaration emitter and the module assembler: `generateDecoder`
    (index.ts:105-115) and the node list that `generate` builds
    (index.ts:117-132). */
module Generator {
  import opened Wrappers
  import opened Syntax
  import opened Naming
  import opened Compiler
  import opened CompilerProperties

  /** A type alias declaration `type name = aliasType`. */
  datatype TypeAlias = TypeAlias(name: string, aliasType: TypeNode)

  /** A top-level child of the parsed source file. */
  datatype SourceNode = TypeAliasDeclaration(decl: TypeAlias) | OtherStatement

  /** An element of the generated list; `Separator` is the `undefined`
      entry that the printer renders as a blank line. */
  datatype OutputNode =
    | NamespaceImport(binding: string, moduleSpecifier: string)
    | Separator
    | ConstDeclaration(name: string, initializer: Option<Expr>)

  /** `import * as decoders from "decoders"` (index.ts:13-20). */
  const DecoderImport: OutputNode := NamespaceImport("decoders", "decoders")

  /** `const <decoder name> = <decoder>;`; the initializer is left out when
      the aliased type has no decoder. The binding is named so that every
      reference to the alias resolves to it. */
  function GenerateDecoder(decl: TypeAlias): (r: OutputNode)
    ensures r.ConstDeclaration?
    ensures DecoderFromType(TypeReference(decl.name)) == Some(Identifier(r.name))
    ensures r.initializer.Some? <==> Compilable(decl.aliasType)
    ensures r.initializer == DecoderFromType(decl.aliasType)
  {
    ConstDeclaration(DecoderNameFromTypeName(decl.name), DecoderFromType(decl.aliasType))
  }

  /** What `processNode` pushes for one child. */
  function ProcessNode(node: SourceNode): (r: seq<OutputNode>)
    ensures node.OtherStatement? ==> r == []
    ensures node.TypeAliasDeclaration? ==>
              |r| == 2 && r[0].ConstDeclaration? && r[1] == Separator &&
              r[0].name == DecoderNameFromTypeName(node.decl.name) &&
              r[0].initializer == DecoderFromType(node.decl.aliasType)
  {
    match node
    case TypeAliasDeclaration(decl) => [GenerateDecoder(decl), Separator]
    case OtherStatement => []
  }

  /** What the children push, visited in source order. */
  function Emitted(children: seq<SourceNode>): seq<OutputNode> {
    if children == [] then []
    else Emitted(children[..|children| - 1]) + ProcessNode(children[|children| - 1])
  }

  /** The whole list `generate` hands to the printer. */
  function Generated(children: seq<SourceNode>): seq<OutputNode> {
    [DecoderImport, Separator] + Emitted(children)
  }

  /** The type alias declarations among the children, in source order. */
  function Aliases(children: seq<SourceNode>): (r: seq<TypeAlias>)
    ensures |r| <= |children|
  {
    if children == [] then []
    else
      var last := children[|children| - 1];
      Aliases(children[..|children| - 1]) + (if last.TypeAliasDeclaration? then [last.decl] else [])
  }

  /** Two nodes per alias, in order: its declaration, then a separator;
      other children add nothing. */
  lemma {:induction false} EmittedLayout(children: seq<SourceNode>)
    ensures |Emitted(children)| == 2 * |Aliases(children)|
    ensures forall k :: 0 <= k < |Aliases(children)| ==>
              Emitted(children)[2 * k] == GenerateDecoder(Aliases(children)[k]) &&
              Emitted(children)[2 * k + 1] == Separator
  {
    if children != [] {
      EmittedLayout(children[..|children| - 1]);
    }
  }

  /** The list as a whole: the import and a separator, then two nodes per
      alias. */
  lemma GeneratedLayout(children: seq<SourceNode>)
    ensures |Generated(children)| == 2 + 2 * |Aliases(children)|
    ensures Generated(children)[0] == DecoderImport && Generated(children)[1] == Separator
    ensures forall k :: 0 <= k < |Aliases(children)| ==>
              Generated(children)[2 + 2 * k] == GenerateDecoder(Aliases(children)[k]) &&
              Generated(children)[3 + 2 * k] == Separator
  {
    EmittedLayout(children);
  }

  /** One more child appends what it pushes. */
  lemma EmittedStep(children: seq<SourceNode>, i: nat)
    requires i < |children|
    ensures Emitted(children[..i + 1]) == Emitted(children[..i]) + ProcessNode(children[i])
  {
    assert children[..i + 1][..i] == children[..i];
  }

  /** The loop of `generate`: the import, a separator, then whatever each
      child pushes (index.ts:118-132). */
  method Generate(children: seq<SourceNode>) returns (nodes: seq<OutputNode>)
    ensures nodes == Generated(children)
    ensures |nodes| == 2 + 2 * |Aliases(children)|
    ensures nodes[0] == DecoderImport && nodes[1] == Separator
    ensures forall k :: 0 <= k < |Aliases(children)| ==>
              nodes[2 + 2 * k] == GenerateDecoder(Aliases(children)[k]) &&
              nodes[3 + 2 * k] == Separator
  {
    nodes := [DecoderImport, Separator];
    for i := 0 to |children|
      invariant nodes == [DecoderImport, Separator] + Emitted(children[..i])
    {
      EmittedStep(children, i);
      match children[i]
      case TypeAliasDeclaration(decl) =>
        nodes := nodes + [GenerateDecoder(decl)];
        nodes := nodes + [Separator];
      case OtherStatement =>
    }
    assert children[..|children|] == children;
    GeneratedLayout(children);
  }

  // ---------------------------------------------------------------------
  // Declarations and references

  function AliasNames(children: seq<SourceNode>): set<string> {
    set a | a in Aliases(children) :: a.name
  }

  /** The binding names the list declares. */
  function DeclaredNames(nodes: seq<OutputNode>): set<string> {
    set n | n in nodes && n.ConstDeclaration? :: n.name
  }

  /** Every node pushed for the children is a separator or the declaration
      of one of their aliases, and every alias gets its declaration. */
  lemma {:induction false} EmittedNodes(children: seq<SourceNode>)
    ensures forall n :: n in Emitted(children) ==>
              n == Separator || exists a :: a in Aliases(children) && n == GenerateDecoder(a)
    ensures forall a :: a in Aliases(children) ==> GenerateDecoder(a) in Emitted(children)
  {
    if children != [] {
      EmittedNodes(children[..|children| - 1]);
    }
  }

  /** The names the list declares are exactly the decoder names of the
      aliases in the source. */
  lemma DeclaredNamesOfAliases(children: seq<SourceNode>)
    ensures DeclaredNames(Generated(children)) == DecoderNames(AliasNames(children))
  {
    EmittedNodes(children);
    var g := Generated(children);
    forall x | x in DeclaredNames(g) ensures x in DecoderNames(AliasNames(children)) {
      var n :| n in g && n.ConstDeclaration? && n.name == x;
      assert n in Emitted(children);
      var a :| a in Aliases(children) && n == GenerateDecoder(a);
      assert a.name in AliasNames(children);
    }
    forall x | x in DecoderNames(AliasNames(children)) ensures x in DeclaredNames(g) {
      var name :| name in AliasNames(children) && x == DecoderNameFromTypeName(name);
      var a :| a in Aliases(children) && a.name == name;
      assert GenerateDecoder(a) in g;
    }
  }

  /** When every type reference in the source names an alias declared in
      it, every identifier in the generated list names a binding the list
      itself declares. */
  lemma ReferencesResolve(children: seq<SourceNode>)
    requires forall a :: a in Aliases(children) ==> ReferencesWithin(a.aliasType, AliasNames(children))
    ensures forall n :: n in Generated(children) && n.ConstDeclaration? && n.initializer.Some? ==>
              IdentifiersWithin(n.initializer.value, DeclaredNames(Generated(children)))
  {
    EmittedNodes(children);
    DeclaredNamesOfAliases(children);
    forall n | n in Generated(children) && n.ConstDeclaration? && n.initializer.Some?
      ensures IdentifiersWithin(n.initializer.value, DeclaredNames(Generated(children)))
    {
      assert n in Emitted(children);
      var a :| a in Aliases(children) && n == GenerateDecoder(a);
      IdentifiersFromReferences(a.aliasType, AliasNames(children));
    }
  }

  // ---------------------------------------------------------------------
  // The binding name as the source computes it

  /** The parser's `escapedText` of an identifier: a name that starts with
      two underscores gets a third one in front. */
  function EscapeLeadingUnderscores(name: string): (r: string)
    ensures |name| >= 2 && name[..2] == "__" ==> r == "_" + name
    ensures !(|name| >= 2 && name[..2] == "__") ==> r == name
  {
    if |name| >= 2 && name[0] == '_' && name[1] == '_' then "_" + name else name
  }

  /** `generateDecoder` as written: the binding is named from the escaped
      text of the alias name, while references use its plain text. */
  function GenerateDecoderAsWritten(decl: TypeAlias): (r: OutputNode)
    ensures r.ConstDeclaration?
    ensures r.name == DecoderNameFromTypeName(EscapeLeadingUnderscores(decl.name))
    ensures r.initializer == DecoderFromType(decl.aliasType)
  {
    ConstDeclaration(DecoderNameFromTypeName(EscapeLeadingUnderscores(decl.name)), DecoderFromType(decl.aliasType))
  }

  /** As written, the binding and the references to it agree exactly when
      the alias name does not start with two underscores. */
  lemma AsWrittenNameMatchesReferences(decl: TypeAlias)
    ensures DecoderFromType(TypeReference(decl.name)) == Some(Identifier(GenerateDecoderAsWritten(decl).name)) <==>
              !(|decl.name| >= 2 && decl.name[..2] == "__")
  {
  }

  /** `type __Id = string;` is declared as `___IdDecoder`, while a
      reference `__Id` in any other type becomes `__IdDecoder`. */
  lemma DanglingReferenceExample()
    ensures GenerateDecoderAsWritten(TypeAlias("__Id", StringKeyword)).name == "___IdDecoder"
    ensures DecoderFromType(TypeReference("__Id")) == Some(Identifier("__IdDecoder"))
  {
    assert EscapeLeadingUnderscores("__Id") == "___Id";
    assert CamelCase("___Id") == "___Id";
    assert CamelCase("__Id") == "__Id";
    assert DecoderNameFromTypeName("___Id") == "___IdDecoder";
    assert DecoderNameFromTypeName("__Id") == "__IdDecoder";
  }
}
