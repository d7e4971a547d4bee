/** The token stream the decompiler attaches to generated source (src/logic/Tokens.ts). */
module Tokens {
  import opened Wrappers

  datatype TokenType = ClassToken | FieldToken | MethodToken | ParameterToken | LocalToken

  /**
   * `start` and `length` count characters of the generated source. Field and method tokens also carry
   * the member's `name` and `descriptor`; the other kinds carry neither (the source's optional properties).
   */
  datatype Token = Token(
    kind: TokenType,
    start: int,
    length: int,
    className: string,
    declaration: bool,
    name: Option<string>,
    descriptor: Option<string>)

  /** The `type` string of a token kind. */
  function TypeName(kind: TokenType): string {
    match kind
    case ClassToken => "class"
    case FieldToken => "field"
    case MethodToken => "method"
    case ParameterToken => "parameter"
    case LocalToken => "local"
  }

  /** An optional property spliced into a template string: a missing one prints as `undefined`. */
  function Spliced(value: Option<string>): string {
    match value
    case Some(v) => v
    case None => "undefined"
  }

  /** The order `tokens.sort((a, b) => a.start - b.start)` sorts by. */
  predicate StartLe(a: Token, b: Token) {
    a.start <= b.start
  }
}
