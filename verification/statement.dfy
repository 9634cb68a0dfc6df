/** The statement variants of Basic/statement.hpp. Their constructors and execute bodies
    are empty stubs in Basic/statement.cpp, so a statement is kept as an opaque value: the variant
    the keyword selected and the tokens it was built from. */
module Statements {
  import opened Parser

  datatype StmtKind = Rem | Let | Print | Input | Goto | If | End

  datatype Statement = Statement(kind: StmtKind, body: seq<Token>)
}
