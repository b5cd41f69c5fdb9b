/**
 * The lexer of src/lexer.cpp: a character cursor over the source text that hands out one
 * token per `next_token` call.
 *
 * The mutable fields of the C++ class (`pos_`, `line_`, `current_char_`) are snapshotted as a
 * `Cursor`. The functions over (input, Cursor) specify each member of the class; the class
 * `Lexer` below updates its fields step by step exactly as the C++ does and is proved to
 * follow them.
 */
module Lexing {
  import opened Common
  import opened CNumbers

  // ---------------------------------------------------------------------------
  // Token shapes

  predicate IsIdentStart(c: char) { IsAlpha(c) || c == '_' }

  predicate IsIdentChar(c: char) { IsAlnum(c) || c == '_' }

  /** A (possibly empty) run of identifier characters. */
  predicate IsIdentRun(s: string) { forall i :: 0 <= i < |s| ==> IsIdentChar(s[i]) }

  predicate IsIdentifier(s: string) { |s| > 0 && IsIdentStart(s[0]) && IsIdentRun(s) }

  predicate AllDigitsIn(s: string, base: int) { forall i :: 0 <= i < |s| ==> IsDigitIn(s[i], base) }

  /** An optional '-', then "0x" and hex digits, or decimal digits; either run may be empty. */
  predicate IsNumberLiteral(s: string) {
    var body := if |s| > 0 && s[0] == '-' then s[1..] else s;
    (|body| >= 2 && body[..2] == "0x" && AllDigitsIn(body[2..], 16)) || AllDigitsIn(body, 10)
  }

  /** The text with one leading '$' removed, if it has one. */
  function StripDollar(s: string): (r: string)
    ensures |s| > 0 && s[0] == '$' ==> "$" + r == s
    ensures !(|s| > 0 && s[0] == '$') ==> r == s
  {
    if |s| > 0 && s[0] == '$' then s[1..] else s
  }

  /** `is_register` (and the parser's `is_valid_register`): without one leading '$', a register name. */
  predicate IsRegisterName(s: string) {
    StripDollar(s) in REGISTERS
  }

  /** A character that starts no token: it becomes a one-character ILLEGAL token. */
  predicate IsStray(c: char) {
    c != NUL && !IsSpace(c) && c != ';' && !IsIdentStart(c) && !IsDigit(c) && c != '-' &&
    c != '$' && c != '.' && c != ',' && c != ':' && c != '(' && c != ')'
  }

  /** What a token of each kind looks like when the lexer hands it out. */
  predicate WellFormed(t: Token) {
    match t.kind
    case EoF => t.literal == ""
    case Ident => IsIdentifier(t.literal) && t.literal !in INSTRUCTIONS
    case Inst => IsIdentifier(t.literal) && t.literal in INSTRUCTIONS
    case Number => t.literal != "" && IsNumberLiteral(t.literal)
    case Register => |t.literal| > 0 && t.literal[0] == '$' && t.literal[1..] in REGISTERS
    case Illegal =>
      || (|t.literal| == 1 && IsStray(t.literal[0]))
      || (|t.literal| > 0 && t.literal[0] == '$' && IsIdentRun(t.literal[1..]) && t.literal[1..] !in REGISTERS)
    case Dot => t.literal == "."
    case Comma => t.literal == ","
    case Colon => t.literal == ":"
    case LParen => t.literal == "("
    case RParen => t.literal == ")"
  }

  // ---------------------------------------------------------------------------
  // The cursor and `advance`

  /** The lexer's mutable state: `pos_`, `line_` and `current_char_`. */
  datatype Cursor = Cursor(pos: nat, line: int, cur: char)

  /**
   * The states the lexer can be in: `pos` stays on a character of the input, and the current
   * character is the one under `pos`, or '\0' once the input is used up.
   */
  predicate CursorOk(input: string, c: Cursor) {
    if |input| == 0 then c.pos == 0 && c.cur == NUL
    else c.pos < |input| && (c.cur == NUL || c.cur == input[c.pos])
  }

  /** Characters still to be read; 0 once the current character is '\0'. */
  function Remaining(input: string, c: Cursor): nat {
    if c.cur == NUL || c.pos >= |input| then 0 else |input| - c.pos
  }

  /** The state set up by the constructor. */
  function Start(input: string): (c: Cursor)
    ensures CursorOk(input, c)
  {
    Cursor(0, 1, if |input| == 0 then NUL else input[0])
  }

  /** `advance`: step onto the next character, or turn the current one into '\0' at the end. */
  function Step(input: string, c: Cursor): (r: Cursor)
    requires CursorOk(input, c)
    ensures CursorOk(input, r)
    ensures r.pos == c.pos + 1 || r == c.(cur := NUL)
    ensures r.line == c.line + (if r.pos == c.pos + 1 && r.cur == '\n' then 1 else 0)
    ensures c.cur != NUL ==> Remaining(input, r) < Remaining(input, c)
  {
    if c.pos + 1 < |input| then
      var ch := input[c.pos + 1];
      Cursor(c.pos + 1, if ch == '\n' then c.line + 1 else c.line, ch)
    else
      c.(cur := NUL)
  }

  /** The character after the current one, as `input_[pos_ + 1]` reads it ('\0' past the end). */
  function Peek(input: string, c: Cursor): (r: char)
    ensures CursorOk(input, c) ==> r == Step(input, c).cur
  {
    if c.pos + 1 < |input| then input[c.pos + 1] else NUL
  }

  lemma StepIdlesAtEnd(input: string, c: Cursor)
    requires CursorOk(input, c) && c.pos + 1 >= |input|
    ensures Step(input, c).cur == NUL && Step(input, c).pos == c.pos
    ensures Step(input, Step(input, c)) == Step(input, c)
  {
  }

  // ---------------------------------------------------------------------------
  // The scanning loops

  /** `skip_whitespace` */
  function SkipSpace(input: string, c: Cursor): (r: Cursor)
    requires CursorOk(input, c)
    ensures CursorOk(input, r) && c.pos <= r.pos
    ensures r.cur == NUL || !IsSpace(r.cur)
    ensures forall i :: c.pos <= i < r.pos ==> IsSpace(input[i])
    ensures Remaining(input, r) <= Remaining(input, c)
    decreases Remaining(input, c)
  {
    if c.cur != NUL && IsSpace(c.cur) then SkipSpace(input, Step(input, c)) else c
  }

  /** `skip_comment`: up to, not past, the next newline. */
  function SkipToLineEnd(input: string, c: Cursor): (r: Cursor)
    requires CursorOk(input, c)
    ensures CursorOk(input, r) && c.pos <= r.pos
    ensures r.cur == NUL || r.cur == '\n'
    ensures forall i :: c.pos <= i < r.pos ==> input[i] != '\n'
    ensures c.cur != NUL && c.cur != '\n' ==> Remaining(input, r) < Remaining(input, c)
    ensures Remaining(input, r) <= Remaining(input, c)
    decreases Remaining(input, c)
  {
    if c.cur != NUL && c.cur != '\n' then SkipToLineEnd(input, Step(input, c)) else c
  }

  /** `read_ident`: the run of identifier characters under the cursor, read from the input. */
  function IdentRun(input: string, c: Cursor): (res: (string, Cursor))
    requires CursorOk(input, c)
    ensures CursorOk(input, res.1)
    ensures IsIdentRun(res.0)
    ensures res.1.cur == NUL || !IsIdentChar(res.1.cur)
    ensures res.0 != [] ==> c.cur != NUL && c.pos + |res.0| <= |input| && res.0 == input[c.pos..c.pos + |res.0|]
    ensures Remaining(input, res.1) + |res.0| <= Remaining(input, c)
    decreases Remaining(input, c)
  {
    if c.cur != NUL && IsIdentChar(c.cur) then
      var (rest, r) := IdentRun(input, Step(input, c));
      ([c.cur] + rest, r)
    else
      ([], c)
  }

  /** One character of an identifier run: it is taken, and the run goes on from the next one. */
  lemma IdentRunStep(input: string, c: Cursor)
    requires CursorOk(input, c) && c.cur != NUL && IsIdentChar(c.cur)
    ensures IdentRun(input, c) == ([c.cur] + IdentRun(input, Step(input, c)).0, IdentRun(input, Step(input, c)).1)
  {
  }

  /** The digit loops of `read_number`: the run of digits of `base` under the cursor. */
  function DigitRun(input: string, c: Cursor, base: int): (res: (string, Cursor))
    requires CursorOk(input, c)
    ensures CursorOk(input, res.1)
    ensures AllDigitsIn(res.0, base)
    ensures !IsDigitIn(res.1.cur, base)
    ensures Remaining(input, res.1) + |res.0| <= Remaining(input, c)
    decreases Remaining(input, c)
  {
    if IsDigitIn(c.cur, base) then
      assert c.cur != NUL;
      var (rest, r) := DigitRun(input, Step(input, c), base);
      ([c.cur] + rest, r)
    else
      ([], c)
  }

  /** `read_number`: optional '-', then "0x"/"0X" (kept as "0x") and hex digits, or decimal digits. */
  function NumberRun(input: string, c: Cursor): (res: (string, Cursor))
    requires CursorOk(input, c)
    ensures CursorOk(input, res.1)
    ensures IsNumberLiteral(res.0)
    ensures c.cur == '-' || IsDigit(c.cur) ==> res.0 != [] && Remaining(input, res.1) < Remaining(input, c)
    ensures Remaining(input, res.1) <= Remaining(input, c)
  {
    var (sign, c1) := if c.cur == '-' then ("-", Step(input, c)) else ("", c);
    if c1.cur == '0' && ToLower(Peek(input, c1)) == 'x' then
      var c2 := Step(input, Step(input, c1));
      var (digits, c3) := DigitRun(input, c2, 16);
      assert (sign + "0x" + digits)[|sign|..] == "0x" + digits;
      (sign + "0x" + digits, c3)
    else
      var (digits, c3) := DigitRun(input, c1, 10);
      assert (sign + digits)[|sign|..] == digits;
      (sign + digits, c3)
  }

  // ---------------------------------------------------------------------------
  // next_token

  /**
   * The white space and `;` comments `next_token` passes over before a token: it skips white
   * space, and on a ';' skips the comment and starts over.
   */
  function SkipTrivia(input: string, c: Cursor): (r: Cursor)
    requires CursorOk(input, c)
    ensures CursorOk(input, r) && c.pos <= r.pos
    ensures r.cur == NUL || (!IsSpace(r.cur) && r.cur != ';')
    ensures Remaining(input, r) <= Remaining(input, c)
    decreases Remaining(input, c)
  {
    var c1 := SkipSpace(input, c);
    if c1.cur == ';' then SkipTrivia(input, SkipToLineEnd(input, c1)) else c1
  }

  /** The kind of a token made of the one character `ch`. */
  function SingleCharKind(ch: char): TokenKind {
    if ch == '.' then Dot
    else if ch == ',' then Comma
    else if ch == ':' then Colon
    else if ch == '(' then LParen
    else if ch == ')' then RParen
    else Illegal
  }

  /** An identifier, or an instruction mnemonic when it names one (lexer.cpp, the alpha branch). */
  function WordToken(input: string, c: Cursor): (res: (Token, Cursor))
    requires CursorOk(input, c) && IsIdentStart(c.cur)
    ensures CursorOk(input, res.1) && res.0.line == res.1.line
    ensures res.0.kind in {Ident, Inst} && Remaining(input, res.1) < Remaining(input, c)
  {
    var (ident, c2) := IdentRun(input, c);
    (Token(if ident in INSTRUCTIONS then Inst else Ident, ident, c2.line), c2)
  }

  /** A number literal. */
  function NumberToken(input: string, c: Cursor): (res: (Token, Cursor))
    requires CursorOk(input, c) && (IsDigit(c.cur) || c.cur == '-')
    ensures CursorOk(input, res.1) && res.0.line == res.1.line
    ensures res.0.kind == Number && Remaining(input, res.1) < Remaining(input, c)
  {
    var (number, c2) := NumberRun(input, c);
    (Token(Number, number, c2.line), c2)
  }

  /** '$' and the identifier run after it: a register, or ILLEGAL when it names none. */
  function DollarToken(input: string, c: Cursor): (res: (Token, Cursor))
    requires CursorOk(input, c) && c.cur == '$'
    ensures CursorOk(input, res.1) && res.0.line == res.1.line
    ensures res.0.kind in {Register, Illegal} && Remaining(input, res.1) < Remaining(input, c)
  {
    var (name, c2) := IdentRun(input, Step(input, c));
    (Token(if IsRegisterName(name) then Register else Illegal, "$" + name, c2.line), c2)
  }

  /** A punctuation character, or any other character as a one-character ILLEGAL token. */
  function CharToken(input: string, c: Cursor): (res: (Token, Cursor))
    requires CursorOk(input, c) && c.cur != NUL
    ensures CursorOk(input, res.1) && res.0.line == res.1.line
    ensures res.0.kind != EoF && Remaining(input, res.1) < Remaining(input, c)
  {
    var c2 := Step(input, c);
    (Token(SingleCharKind(c.cur), [c.cur], c2.line), c2)
  }

  /** The token that starts at the cursor, once white space and comments are behind it. */
  function LexToken(input: string, c: Cursor): (res: (Token, Cursor))
    requires CursorOk(input, c)
    ensures CursorOk(input, res.1)
    ensures res.0.line == res.1.line
    ensures res.0.kind == EoF <==> c.cur == NUL
    ensures res.0.kind == EoF ==> res == (Token(EoF, "", c.line), c)
    ensures res.0.kind != EoF ==> Remaining(input, res.1) < Remaining(input, c)
  {
    if c.cur == NUL then (Token(EoF, "", c.line), c)
    else if IsIdentStart(c.cur) then WordToken(input, c)
    else if IsDigit(c.cur) || c.cur == '-' || (c.cur == '0' && ToLower(Peek(input, c)) == 'x') then NumberToken(input, c)
    else if c.cur == '$' then DollarToken(input, c)
    else CharToken(input, c)
  }

  /** `next_token`: the token under the cursor and the state after it. */
  function Lex(input: string, c: Cursor): (res: (Token, Cursor))
    requires CursorOk(input, c)
    ensures CursorOk(input, res.1)
    ensures res.0.line == res.1.line
    ensures res.0.kind == EoF ==> res.1.cur == NUL && res.0 == Token(EoF, "", res.1.line)
    ensures res.0.kind != EoF ==> Remaining(input, res.1) < Remaining(input, c)
  {
    LexToken(input, SkipTrivia(input, c))
  }

  /** Every token `next_token` hands out has the shape its kind promises. */
  lemma LexWellFormed(input: string, c: Cursor)
    requires CursorOk(input, c)
    ensures WellFormed(Lex(input, c).0)
  {
    var c1 := SkipTrivia(input, c);
    if c1.cur == NUL {
    } else if IsIdentStart(c1.cur) {
      WordTokenWellFormed(input, c1);
    } else if IsDigit(c1.cur) || c1.cur == '-' || (c1.cur == '0' && ToLower(Peek(input, c1)) == 'x') {
      NumberTokenWellFormed(input, c1);
    } else if c1.cur == '$' {
      DollarTokenWellFormed(input, c1);
    } else {
      CharTokenWellFormed(input, c1);
    }
  }

  lemma WordTokenWellFormed(input: string, c: Cursor)
    requires CursorOk(input, c) && IsIdentStart(c.cur)
    ensures WellFormed(WordToken(input, c).0)
  {
  }

  lemma NumberTokenWellFormed(input: string, c: Cursor)
    requires CursorOk(input, c) && (IsDigit(c.cur) || c.cur == '-')
    ensures WellFormed(NumberToken(input, c).0)
  {
  }

  lemma DollarTokenWellFormed(input: string, c: Cursor)
    requires CursorOk(input, c) && c.cur == '$'
    ensures WellFormed(DollarToken(input, c).0)
  {
    var (name, c2) := IdentRun(input, Step(input, c));
    assert ("$" + name)[1..] == name;
  }

  lemma CharTokenWellFormed(input: string, c: Cursor)
    requires CursorOk(input, c) && c.cur != NUL && !IsIdentStart(c.cur) && !IsDigit(c.cur)
    requires c.cur != '-' && c.cur != '$' && !IsSpace(c.cur) && c.cur != ';'
    ensures WellFormed(CharToken(input, c).0)
  {
  }

  // ---------------------------------------------------------------------------
  // The token stream

  /** A token stream as the parser sees it: it ends in EoF and has no EoF before that. */
  predicate IsStream(ts: seq<Token>) {
    |ts| > 0 && ts[|ts| - 1].kind == EoF && forall i :: 0 <= i < |ts| - 1 ==> ts[i].kind != EoF
  }

  /** A token other than EoF sits before the end of the stream. */
  lemma InsideStream(ts: seq<Token>, i: nat)
    requires IsStream(ts) && At(ts, i).kind != EoF
    ensures i < |ts| - 1
  {
  }

  /** The i-th token pulled from a stream; past the end the lexer keeps returning the final EoF. */
  function At(ts: seq<Token>, i: nat): Token
    requires |ts| > 0
  {
    if i < |ts| then ts[i] else ts[|ts| - 1]
  }

  /** Every token `next_token` hands out from cursor `c` up to and including the first EoF. */
  function TokensFrom(input: string, c: Cursor): (ts: seq<Token>)
    requires CursorOk(input, c)
    ensures IsStream(ts)
    decreases Remaining(input, c)
  {
    var (t, next) := Lex(input, c);
    if t.kind == EoF then [t] else [t] + TokensFrom(input, next)
  }

  /** Every token of the stream has the shape its kind promises. */
  lemma {:induction false} TokensWellFormed(input: string, c: Cursor)
    requires CursorOk(input, c)
    ensures forall i :: 0 <= i < |TokensFrom(input, c)| ==> WellFormed(TokensFrom(input, c)[i])
    decreases Remaining(input, c)
  {
    LexWellFormed(input, c);
    var (t, next) := Lex(input, c);
    if t.kind != EoF {
      TokensWellFormed(input, next);
    }
  }

  function Tokens(input: string): seq<Token> {
    TokensFrom(input, Start(input))
  }

  /** Once `next_token` has returned EoF, it returns the same EoF forever and changes nothing. */
  lemma EofIsSticky(input: string, c: Cursor)
    requires CursorOk(input, c) && Lex(input, c).0.kind == EoF
    ensures Lex(input, Lex(input, c).1) == Lex(input, c)
  {
    var r := Lex(input, c).1;
    assert SkipSpace(input, r) == r;
  }

  /**
   * What a lexer in state `c` still has to hand out, when `toks` is the whole stream and `k`
   * tokens of it have been pulled: the rest of the stream, or, once the EoF has been pulled,
   * that same EoF again and again.
   */
  ghost predicate Pending(input: string, c: Cursor, toks: seq<Token>, k: nat)
    requires CursorOk(input, c) && IsStream(toks)
  {
    if k < |toks| then TokensFrom(input, c) == toks[k..]
    else Lex(input, c) == (toks[|toks| - 1], c)
  }

  /** Pulling one more token yields the k-th token of the stream and leaves the rest pending. */
  lemma NextTokenIsAt(input: string, c: Cursor, toks: seq<Token>, k: nat)
    requires CursorOk(input, c) && IsStream(toks) && Pending(input, c, toks, k)
    ensures Lex(input, c).0 == At(toks, k)
    ensures Pending(input, Lex(input, c).1, toks, k + 1)
  {
    if k < |toks| {
      var (t, next) := Lex(input, c);
      assert toks[k] == t;
      if k + 1 < |toks| {
        assert toks[k + 1..] == toks[k..][1..];
      } else {
        EofIsSticky(input, c);
      }
    }
  }

  // ---------------------------------------------------------------------------
  // The Lexer class

  /** `Lexer`: the C++ class, its fields updated in place, each method proved against its function. */
  class Lexer {
    const input: string
    var pos: nat
    var line: int
    var currentChar: char

    /** The fields as a `Cursor`. */
    function State(): Cursor
      reads this
    {
      Cursor(pos, line, currentChar)
    }

    predicate Valid()
      reads this
    {
      CursorOk(input, State())
    }

    constructor(input: string)
      ensures this.input == input && State() == Start(input) && Valid()
    {
      this.input := input;
      pos := 0;
      line := 1;
      currentChar := if |input| == 0 then NUL else input[0];
    }

    method Advance()
      requires Valid()
      modifies this
      ensures Valid() && State() == Step(input, old(State()))
    {
      if pos + 1 < |input| {
        pos := pos + 1;
        currentChar := input[pos];
        if currentChar == '\n' {
          line := line + 1;
        }
      } else {
        currentChar := NUL;
      }
    }

    method SkipWhitespace()
      requires Valid()
      modifies this
      ensures Valid() && State() == SkipSpace(input, old(State()))
    {
      while currentChar != NUL && IsSpace(currentChar)
        invariant Valid() && SkipSpace(input, old(State())) == SkipSpace(input, State())
        decreases Remaining(input, State())
      {
        Advance();
      }
    }

    method SkipComment()
      requires Valid()
      modifies this
      ensures Valid() && State() == SkipToLineEnd(input, old(State()))
    {
      while currentChar != NUL && currentChar != '\n'
        invariant Valid() && SkipToLineEnd(input, old(State())) == SkipToLineEnd(input, State())
        decreases Remaining(input, State())
      {
        Advance();
      }
    }

    method ReadIdent() returns (result: string)
      requires Valid()
      modifies this
      ensures Valid() && (result, State()) == IdentRun(input, old(State()))
    {
      ghost var start := State();
      result := "";
      assert IdentRun(input, start).0 == result + IdentRun(input, State()).0;
      while currentChar != NUL && IsIdentChar(currentChar)
        invariant Valid()
        invariant IdentRun(input, start).0 == result + IdentRun(input, State()).0
        invariant IdentRun(input, start).1 == IdentRun(input, State()).1
        decreases Remaining(input, State())
      {
        ghost var before := State();
        ghost var done := result;
        IdentRunStep(input, before);
        result := result + [currentChar];
        Advance();
        ghost var rest := IdentRun(input, State()).0;
        assert done + ([before.cur] + rest) == result + rest;
      }
      assert result + IdentRun(input, State()).0 == result;
    }

    /** One digit loop of `read_number`. */
    method ReadDigits(base: int, prefix: string) returns (result: string)
      requires Valid()
      modifies this
      ensures Valid()
      ensures var (digits, after) := DigitRun(input, old(State()), base); result == prefix + digits && State() == after
    {
      result := prefix;
      while IsDigitIn(currentChar, base)
        invariant Valid()
        invariant var (digits, after) := DigitRun(input, old(State()), base);
          after == DigitRun(input, State(), base).1 &&
          prefix + digits == result + DigitRun(input, State(), base).0
        decreases Remaining(input, State())
      {
        ghost var before := State();
        result := result + [currentChar];
        Advance();
        assert DigitRun(input, before, base).0 == [before.cur] + DigitRun(input, State(), base).0;
      }
    }

    method ReadNumber() returns (result: string)
      requires Valid()
      modifies this
      ensures Valid() && (result, State()) == NumberRun(input, old(State()))
    {
      ghost var start := State();
      result := "";
      if currentChar == '-' {
        result := result + "-";
        assert result == "-";
        Advance();
      }
      if currentChar == '0' && ToLower(Peek(input, State())) == 'x' {
        result := result + "0x";
        Advance();
        Advance();
        result := ReadDigits(16, result);
      } else {
        result := ReadDigits(10, result);
      }
    }

    /** `is_instruction` */
    predicate IsInstruction(s: string)
      ensures IsInstruction(s) <==> s in FUNCT_CODES || s in OPCODES
    {
      InstructionsPartition();
      FunctCodesCoverRType();
      OpcodesCoverIType();
      s in INSTRUCTIONS
    }

    /** `is_register` */
    predicate IsRegister(s: string)
      ensures IsRegister(s) <==> StripDollar(s) in REG_MAP
    {
      RegistersAreRegMapKeys();
      IsRegisterName(s)
    }

    method NextToken() returns (t: Token)
      requires Valid()
      modifies this
      ensures Valid() && (t, State()) == Lex(input, old(State()))
      decreases Remaining(input, State())
    {
      SkipWhitespace();
      if currentChar == ';' {
        SkipComment();
        t := NextToken();
        return;
      }
      if currentChar == NUL {
        return Token(EoF, "", line);
      }
      if IsIdentStart(currentChar) {
        var ident := ReadIdent();
        if IsInstruction(ident) {
          return Token(Inst, ident, line);
        }
        return Token(Ident, ident, line);
      }
      if IsDigit(currentChar) || currentChar == '-' ||
         (currentChar == '0' && ToLower(Peek(input, State())) == 'x') {
        var number := ReadNumber();
        return Token(Number, number, line);
      }
      if currentChar == '$' {
        Advance();
        var reg := ReadIdent();
        if IsRegister(reg) {
          return Token(Register, "$" + reg, line);
        }
        return Token(Illegal, "$" + reg, line);
      }
      var ch := currentChar;
      Advance();
      t := Token(SingleCharKind(ch), [ch], line);
    }
  }
}
