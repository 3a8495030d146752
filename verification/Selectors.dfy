/** Parsed selectors. */
module Selectors {
  datatype Combinator = Descendant | Child | NextSibling | LaterSibling

  /** One step of a chain; the combinator relates the previous step to this one and
      is not looked at on the first step. */
  datatype Step<T> = Step(token: T, combinator: Combinator)

  datatype AttributeTest = AttributeTest(name: string, op: string, value: string, flag: string)

  /** The part of a compound selector that only reads the attributes of a node. */
  datatype Simple = Simple(id: string, classes: seq<string>, attrs: seq<AttributeTest>)

  datatype Pseudo =
    | FirstChild
    | LastChild
    | OnlyChild
    | Empty
    | Scope
    | NthChild(arg: string)
    | NthOfType(arg: string)
    | Not(tokens: seq<Token>)

  /** A compound selector; no tag is the empty string. */
  datatype Token = Token(tag: string, simple: Simple, pseudos: seq<Pseudo>)

  type Chain = seq<Step<Token>>
}
