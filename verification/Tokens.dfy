/** The tokens of stage 10. The end of the input is the end of the sequence. */
module Tokens {
  import opened Words
  import opened Ast

  datatype Token =
    | TLit(value: Int32)
    | TIdent(name: string)
    | TOp(op: BinOp)
    | TAssign
    | TSemi
    | TLBrace | TRBrace
    | TLParen | TRParen
    | TPrint | TInt | TIf | TElse | TWhile | TFor
}
