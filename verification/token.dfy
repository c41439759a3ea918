/**
 * Typed tokens passed from the shunting-yard parser to the tree builder.
 * Token has no `equals` of its own, so the parser's "(" test compares with
 * the shared LEFT_PARENTHESIS instance; the parser's invariant (every
 * left-parenthesis token it creates is that instance) lets structural
 * equality stand in for identity here.
 */
module Tokens {

  datatype TokenType =
    | FunctionToken
    | OperatorToken
    | NumberToken
    | VariableToken
    | LeftParenthesisToken
    | RightParenthesisToken

  datatype Token = Token(content: string, ttype: TokenType)

  const LEFT_PARENTHESIS: Token := Token("(", LeftParenthesisToken)
  const RIGHT_PARENTHESIS: Token := Token(")", RightParenthesisToken)

  predicate IsParenthesis(t: Token) {
    t.ttype == LeftParenthesisToken || t.ttype == RightParenthesisToken
  }
}
