/** Text as the server sees it: a sequence of UTF-16 code units, the unit of a Java `char`. */
module CodeUnits {
  type CodeUnit = c: int | 0 <= c < 0x1_0000

  type Text = seq<CodeUnit>

  const NUL: CodeUnit := 0x00
  const TAB: CodeUnit := 0x09
  const LF: CodeUnit := 0x0A
  const FF: CodeUnit := 0x0C
  const CR: CodeUnit := 0x0D
  const SPACE: CodeUnit := 0x20
  const BANG: CodeUnit := 0x21
  const QUOTE: CodeUnit := 0x22
  const DOLLAR: CodeUnit := 0x24
  const AMP: CodeUnit := 0x26
  const APOS: CodeUnit := 0x27
  const LPAREN: CodeUnit := 0x28
  const RPAREN: CodeUnit := 0x29
  const PLUS: CodeUnit := 0x2B
  const COMMA: CodeUnit := 0x2C
  const MINUS: CodeUnit := 0x2D
  const DOT: CodeUnit := 0x2E
  const SLASH: CodeUnit := 0x2F
  const ZERO: CodeUnit := 0x30
  const COLON: CodeUnit := 0x3A
  const SEMICOLON: CodeUnit := 0x3B
  const LT: CodeUnit := 0x3C
  const EQUALS: CodeUnit := 0x3D
  const GT: CodeUnit := 0x3E
  const LBRACKET: CodeUnit := 0x5B
  const BACKSLASH: CodeUnit := 0x5C
  const RBRACKET: CodeUnit := 0x5D
  const UNDERSCORE: CodeUnit := 0x5F
  const LBRACE: CodeUnit := 0x7B
  const RBRACE: CodeUnit := 0x7D

  /** The text of an ASCII literal. */
  function Ascii(s: string): (t: Text)
    ensures |t| == |s|
    ensures forall i :: 0 <= i < |s| ==> t[i] == s[i] as int % 0x1_0000
  {
    seq(|s|, i requires 0 <= i < |s| => s[i] as int % 0x1_0000)
  }

  predicate StartsWith(t: Text, prefix: Text) {
    |prefix| <= |t| && t[..|prefix|] == prefix
  }

  predicate EndsWith(t: Text, c: CodeUnit) {
    t != [] && t[|t| - 1] == c
  }

  /** Somewhere in `t` two dollar signs stand side by side. */
  predicate ContainsDoubleDollar(t: Text) {
    exists i :: 0 <= i < |t| - 1 && t[i] == DOLLAR && t[i + 1] == DOLLAR
  }

  predicate NulFree(t: Text) {
    NUL !in t
  }
}
