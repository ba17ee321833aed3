# decoders-generator, modelled in Dafny

decoders-generator reads a TypeScript file of type alias declarations and
prints a module of runtime validators ("decoders") built from the `decoders`
library, one `const` per alias. This project models its core, `index.ts`:

- the naming convention (`camelCase`, `decoderNameFromTypeName`) that links
  a generated binding to the references made to it;
- the recursive compiler `decoderFromType`, from a type node to a decoder
  expression or to nothing (`undefined`, here `None`);
- `generateDecoder` and the list of output nodes that `generate` builds:
  the namespace import, a separator, then a declaration and a separator for
  each type alias, in source order.

Files: `wrappers.dfy` (Option, and `Somes`, the `.filter(x => !!x)` of the
source), `naming.dfy`, `syntax.dfy` (the type nodes read and the expressions
built), `compiler.dfy` (the compiler), `compiler_properties.dfy` (what the
compiler guarantees, against reference definitions), `generator.dfy`
(declarations, the output list, and the finding below).

`generateDecoderCall` and `generateDecoderFuncCall` are the constructors
`DecoderRef` (`decoders.x`) and `DecoderCall` (`decoders.x(args)`) of
`Syntax.Expr`. The member filter, map and filter of a type literal
(index.ts:84-96) are taken in one pass: each member maps to its property
assignment or to `None`, then the `None`s are dropped. The result is the same.
A property signature with no type (`{ a; }`, where the source calls
`decoderFromType(undefined)`) is a `PropertySignature` whose `propertyType`
is `None`.

What index.ts does, and the model with it:
- Unions always compile to `either` (index.ts:48-51). index.ts has no
  tagged-union detection.
- The only import emitted is the namespace import (index.ts:13-20). No
  builtin names are tracked, and there are no named imports.
- Each binding is a plain `const` with no `Decoder<T>` type annotation
  (index.ts:105-115).
- Keywords compile to bare references (`decoders.string`), not calls, and
  so does the `json` placeholder in tuples (index.ts:37-47 and 60;
  test-output.ts:5 shows the same).
- Members of a type literal other than property signatures (methods, index
  signatures) are always dropped (index.ts:84-96), so the entry count of an
  object is compared with the number of property signatures.

Purity makes the compiler deterministic, because it is a Dafny function.

## Model

| member | source | states |
|---|---|---|
| Naming.LowerChar | index.ts:6 | an ASCII capital becomes the matching small letter (code point + 32); every other character is unchanged |
| Naming.CamelCase | index.ts:5-7 | same length; the first character is lower-cased; every later character is unchanged; the empty string stays empty |
| Naming.DecoderNameFromTypeName | index.ts:9-11 | the name's first character lower-cased, the rest unchanged, then `Decoder`; the empty name gives `Decoder` |
| Naming.DecoderNamePrefix | index.ts:9-11 | taking the decoder name without its suffix gives the camel-cased type name |
| Naming.DecoderNameCollision | index.ts:9-11 | two type names share a decoder name if and only if they have the same length, agree after the first character, and their first characters lower-case alike |
| Wrappers.Somes | index.ts:50 | dropping absent values never makes the sequence longer |
| Wrappers.SomesKeepsAll | index.ts:50 | nothing is dropped if and only if every element is present |
| Wrappers.SomesComplete | index.ts:50 | every present value is kept |
| Wrappers.SomesOrigin | index.ts:50 | every kept value was present |
| Compiler.PropertyAssignmentOf | index.ts:84-96 | a member yields an entry if and only if it is a property signature with a type that compiles; the entry keeps the property's name, and its value is an `optional` call if and only if the signature has a question token |
| Compiler.DecoderFromType | index.ts:35-102 | a decoder exists if and only if the node is compilable; the three absent cases are an array of an uncompilable element, a literal that is neither a string nor a number, and an unlisted kind. The result is a leaf (a bare builtin or an identifier) if and only if the node is a keyword or a type reference. The result is never an `optional` call and never the bare `json` reference |
| CompilerProperties.KeywordDecoders | index.ts:37-47 | `string`, `number`, `boolean` and `object` compile to the bare references `decoders.string`, `decoders.number`, `decoders.boolean` and `decoders.jsonObject` |
| CompilerProperties.LiteralConstant | index.ts:63-76 | a string or numeric literal type gives `constant(lit)`, where `lit` has the same kind and the same text; any other literal gives nothing |
| CompilerProperties.ArrayElement | index.ts:52-57 | an array compiles to `array(d)`, where `d` is its element's decoder, if the element is compilable, and to nothing otherwise |
| CompilerProperties.TupleArity | index.ts:58-61 | a tuple of N elements gives `tuple(args)` with exactly N args; each arg is the element's decoder, and `json` appears exactly where an element has no decoder |
| CompilerProperties.UnionArgsInOrder | index.ts:48-51 | the kept union arguments are the decoders of the compilable members, in source order |
| CompilerProperties.UnionMembers | index.ts:48-51 | a union gives `either(args)` with the compilable members' decoders in order; the arg count is at most the member count, with equality if and only if no member is absent |
| CompilerProperties.PropertyAssignmentsInOrder | index.ts:84-96 | the object entries are the surviving property signatures (typed, with a compilable type) in source order, each with its own name and decoder, wrapped in `optional` when marked `?` |
| CompilerProperties.SurvivorCount | index.ts:84-96 | there are no more survivors than property signatures, with equality if and only if every property signature survives |
| CompilerProperties.ObjectFields | index.ts:82-98 | a type literal gives `object({...})`; the k-th entry has the k-th survivor's name and is wrapped in exactly one `optional` if and only if that survivor has a question token; the entry count is at most the number of property signatures, with equality if and only if none is dropped |
| CompilerProperties.UsesOnlyLibraryDecoders | index.ts:35-102 | every builtin a compiled decoder names is one of the eleven `decoders` library builtins that the compiler uses, so the single namespace import covers all of them |
| CompilerProperties.ReferenceIdentifier | index.ts:78-80 | a type reference, whatever its name, compiles to the identifier of that name's decoder name |
| CompilerProperties.IdentifiersFromReferences | index.ts:78-80 | the only identifiers in a decoder are the decoder names of the type references inside the node; no referenced type is examined |
| CompilerProperties.RoundTrip | index.ts:35-102 | on a node where nothing is dropped, the type can be read back from its decoder, up to the case of the first character of referenced names |
| CompilerProperties.DecoderDeterminesType | index.ts:35-102 | two such nodes with the same decoder differ at most in that case |
| Generator.GenerateDecoder | index.ts:105-115 | (corrected naming, see Findings) the declaration has the name that a reference to the alias compiles to; it has an initializer if and only if the aliased type is compilable, and that initializer is the type's decoder |
| Generator.EmittedLayout | index.ts:124-131 | (corrected naming, see Findings) the children contribute two nodes per type alias, in source order: the alias's declaration, then a separator; other children contribute nothing |
| Generator.ProcessNode | index.ts:124-131 | (corrected naming, see Findings) a type alias pushes its declaration, named by the alias's decoder name and initialized with the aliased type's decoder, then one separator; every other child pushes nothing |
| Generator.GeneratedLayout | index.ts:117-132 | (corrected naming, see Findings) the whole list is the import and a separator, then for the k-th alias its declaration and a separator; its length is 2 + 2·(number of aliases) |
| Generator.Generate | index.ts:117-132 | (corrected naming, see Findings) the list is the import and a separator, then for the k-th alias its declaration at position 2+2k and a separator at 3+2k; its length is 2 + 2·(number of aliases) |
| Generator.EmittedNodes | index.ts:124-131 | (corrected naming, see Findings) each emitted node is a separator or the declaration of one of the aliases, and every alias gets its declaration |
| Generator.DeclaredNamesOfAliases | index.ts:105-131 | (corrected naming, see Findings) the binding names the list declares are exactly the decoder names of the source's aliases |
| Generator.ReferencesResolve | index.ts:105-131 | (corrected naming, see Findings) if every type reference in the source names one of its aliases, every identifier in the output names a binding that the output declares |
| Generator.EscapeLeadingUnderscores | index.ts:106 | the parser's escaped text: a name that starts with `__` gets one more `_` in front; any other name is unchanged |
| Generator.GenerateDecoderAsWritten | index.ts:105-115 | the declaration as the source builds it: named by the decoder name of the escaped alias name, with the type's decoder as initializer |
| Generator.AsWrittenNameMatchesReferences | index.ts:106 | as written, the binding matches references to the alias if and only if the alias name does not start with `__` |
| Generator.DanglingReferenceExample | index.ts:106 | `type __Id = string` is declared as `___IdDecoder`, while a reference `__Id` compiles to `__IdDecoder` |

## Findings

| source | as written | input that shows it | evidently intended | confidence | as-written member | corrected member |
|---|---|---|---|---|---|---|
| index.ts:106 | the binding is named from `decl.name.escapedText`. The TypeScript parser prefixes an extra `_` to an identifier that starts with `__`. References are named from `typeName.getText()` (index.ts:79), which is the plain text | `type __Id = string; type A = { id: __Id }` gives `const ___IdDecoder = decoders.string`, but A's decoder refers to `__IdDecoder` | the binding is named from the identifier's plain text, the same name that references use | medium: relies on the parser's documented escaping; not executed | Generator.GenerateDecoderAsWritten | Generator.GenerateDecoder, Generator.ProcessNode, Generator.Generate |

`Generator.AsWrittenNameMatchesReferences` and
`Generator.DanglingReferenceExample` exhibit the mismatch.
`Generator.GenerateDecoder`, which `Generator.Generate` uses, names the binding
from the plain name, and `Generator.ReferencesResolve` proves that every
reference then resolves.

## Left out

- Reading standard input and parsing it with the TypeScript parser (index.ts:147-157). These are I/O and a foreign parser. The input is an already-built list of `SourceNode`s.
- Printing the list with the TypeScript printer, and writing it to standard output (index.ts:134-142). These are a foreign printer and output. The result is the node list, with separators as explicit `Separator` nodes.
- The `ts.factory` node construction. It is replaced by the `Expr` and `OutputNode` constructors. Token layout and quoting of literals are not modelled.
- Naming.LowerChar: lower-cases ASCII capitals only. JavaScript's `toLowerCase` also maps non-ASCII letters, and can change a string's length; that Unicode case mapping is not modelled.
- Type arguments of a type reference (`Array<string>`) are not represented, because the source reads only `typeName` (index.ts:79); such a reference compiles to the identifier of its bare name (`arrayDecoder`).
- Type reference names and property names are modelled as plain strings. A qualified name `A.B` (whose text `getText()` returns) and a computed or quoted property name are not told apart.
- The unreachable `return undefined` after the tuple case (index.ts:62).
- api-domain.ts is not part of this model: it holds only declarations and constant tables used as generator input.
- test-output.ts is not part of this model: it is only a sample of generated output.
