/** The Brainfuck token classifier: the `Action` enumeration, the table of the
    eight recognised symbols, the newline characters, and `Tokenize`. */
module Tokens {

  /** One classified source character. `NoOp` marks every character that is
      not one of the eight Brainfuck symbols (a comment). */
  datatype Action =
    | NoOp
    | MoveRight
    | MoveLeft
    | Increment
    | Decrement
    | Output
    | Input
    | CondJumpPast
    | CondJumpBack

  /** The symbol table: each recognised character and the action it denotes. */
  const BfTokens: map<char, Action> := map[
    '>' := MoveRight,
    '<' := MoveLeft,
    '+' := Increment,
    '-' := Decrement,
    '.' := Output,
    ',' := Input,
    '[' := CondJumpPast,
    ']' := CondJumpBack
  ]

  /** The characters that start a new line. A "\r\n" pair is two of them. */
  const NewlineChars: set<char> := {'\n', '\r'}

  predicate IsNewline(c: char) {
    c in NewlineChars
  }

  /** Table lookup with `NoOp` as the default. A character is recognised
      exactly when it is a key of the table, and the table never maps a key
      to `NoOp`. */
  function Tokenize(c: char): (a: Action)
    ensures a != NoOp <==> c in BfTokens.Keys
    ensures c in BfTokens.Keys ==> a == BfTokens[c]
  {
    if c in BfTokens then BfTokens[c] else NoOp
  }

  /** The source character of a recognised action: the inverse of the table. */
  function Symbol(a: Action): (c: char)
    requires a != NoOp
    ensures c in BfTokens.Keys && BfTokens[c] == a
  {
    match a
    case MoveRight => '>'
    case MoveLeft => '<'
    case Increment => '+'
    case Decrement => '-'
    case Output => '.'
    case Input => ','
    case CondJumpPast => '['
    case CondJumpBack => ']'
  }

  /** The table is a bijection between the eight symbols and the eight
      actions other than `NoOp`: tokenizing a symbol gives its action back, and
      a character that tokenizes to an action is that action's symbol. */
  lemma {:induction false} TokenizeSymbolInverse(a: Action, c: char)
    ensures a != NoOp ==> Tokenize(Symbol(a)) == a
    ensures Tokenize(c) != NoOp ==> Symbol(Tokenize(c)) == c
  {
  }

  /** The two bracket actions come from the two bracket characters only. */
  lemma {:induction false} TokenizeBrackets(c: char)
    ensures Tokenize(c) == CondJumpPast <==> c == '['
    ensures Tokenize(c) == CondJumpBack <==> c == ']'
  {
  }

  /** Exactly eight characters are recognised; newlines and spaces are not. */
  lemma {:induction false} RecognisedCharacters(c: char)
    ensures Tokenize(c) != NoOp <==> c in {'>', '<', '+', '-', '.', ',', '[', ']'}
    ensures IsNewline(c) || c == ' ' || c == '\t' ==> Tokenize(c) == NoOp
  {
  }
}
