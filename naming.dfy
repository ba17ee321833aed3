/** The naming convention that links a generated `const` binding to the
    references made to it: lower-case the first character of the type name and
    append `Decoder` (index.ts:5-11). */
module Naming {

  const DecoderSuffix: string := "Decoder"

  /** `toLowerCase` on one character, for the ASCII range. */
  function LowerChar(c: char): (r: char)
    ensures 'A' <= c <= 'Z' ==> 'a' <= r <= 'z' && r as int == c as int + 32
    ensures !('A' <= c <= 'Z') ==> r == c
  {
    if 'A' <= c <= 'Z' then (c as int + 32) as char else c
  }

  /** `camelCase`: the first character lower-cased, the rest untouched. */
  function CamelCase(s: string): (r: string)
    ensures |r| == |s|
    ensures s != [] ==> r[0] == LowerChar(s[0])
    ensures forall i :: 1 <= i < |s| ==> r[i] == s[i]
  {
    if s == [] then [] else [LowerChar(s[0])] + s[1..]
  }

  /** `decoderNameFromTypeName`. */
  function DecoderNameFromTypeName(name: string): (r: string)
    ensures |r| == |name| + |DecoderSuffix|
    ensures r[|name|..] == DecoderSuffix
    ensures name != [] ==> r[0] == LowerChar(name[0])
    ensures forall i :: 1 <= i < |name| ==> r[i] == name[i]
    ensures name == [] ==> r == DecoderSuffix
  {
    CamelCase(name) + DecoderSuffix
  }

  /** The part before the suffix is the camel-cased type name. */
  lemma DecoderNamePrefix(name: string)
    ensures DecoderNameFromTypeName(name)[..|name|] == CamelCase(name)
  {
  }

  /** Two type names get the same decoder name exactly when they have the same
      length, agree after their first character, and their first characters
      lower-case alike (so `Foo` and `foo` collide, and nothing else does). */
  lemma DecoderNameCollision(a: string, b: string)
    ensures DecoderNameFromTypeName(a) == DecoderNameFromTypeName(b) <==>
              |a| == |b| && (a != [] ==> LowerChar(a[0]) == LowerChar(b[0]) && a[1..] == b[1..])
  {
  }
}
