/**
 * The recursive-descent parser of src/parser.cpp.
 *
 * The parser sees the token stream through `current_token_` and the one-token lookahead
 * `next_token_`. Its grammar is specified here by functions over the whole stream `toks`
 * (as `Lexing.TokensFrom` hands it out) and the index `p` of the current token: each returns
 * the node it builds and the index after it, or the error it throws together with the index
 * of the current token at that moment, which is what the recovery in `parse` looks at. The
 * class `Parser` below does the same work step by step, pulling its tokens from that stream,
 * and is proved to agree with them.
 */
module Parsing {
  import opened Wrappers
  import opened Common
  import opened Lexing

  // ---------------------------------------------------------------------------
  // Errors

  /** What the parser throws (the message text is not modelled). */
  datatype ParseErrorKind =
    | Expected(kind: TokenKind)   // expect_token: the current token has another kind
    | InvalidRegister             // expect_register: not one of the 32 registers
    | UnknownInstruction          // parse_statement: an INST that is neither R- nor I-type
    | UnexpectedToken             // parse_statement: no statement starts with this token

  /** An error, and the index of the current token when it was thrown. */
  datatype Failure = Failure(kind: ParseErrorKind, at: nat)

  /** A parsed value and the index of the current token after it. */
  type Parsed<T> = Result<(T, nat), Failure>

  predicate IsValue(t: Token) { t.kind == Number || t.kind == Ident }

  /** A register operand `expect_register` accepts. */
  predicate IsRegisterToken(t: Token) { t.kind == Register && IsRegisterName(StripDollar(t.literal)) }

  // ---------------------------------------------------------------------------
  // The grammar, over the token stream

  /** `expect_token` */
  function ExpectAt(toks: seq<Token>, p: nat, kind: TokenKind): (r: Outcome<Failure>)
    requires |toks| > 0
    ensures r.Pass? <==> At(toks, p).kind == kind
    ensures r.Fail? ==> r.error.at == p && r.error.kind == Expected(kind)
  {
    if At(toks, p).kind == kind then Pass else Fail(Failure(Expected(kind), p))
  }

  /** `expect_register`, without its `advance`: the operand with its '$' removed. */
  function RegisterAt(toks: seq<Token>, p: nat): (r: Result<string, Failure>)
    requires |toks| > 0
    ensures r.Ok? <==> IsRegisterToken(At(toks, p))
    ensures r.Ok? ==> IsRegisterName(r.value)
    ensures r.Err? ==> r.error.at == p
  {
    var reg := StripDollar(At(toks, p).literal);
    :- ExpectAt(toks, p, Register);
    if !IsRegisterName(reg) then Err(Failure(InvalidRegister, p)) else Ok(reg)
  }

  /** `parse_rtype`: mnemonic rd, rs, rt, where `sll`/`srl` may take a number as rt. */
  function RTypeAt(toks: seq<Token>, p: nat): (r: Parsed<Node>)
    requires |toks| > 0
    ensures r.Ok? ==> r.value.1 == p + 6 && r.value.0.RType? && r.value.0.Unplaced()
    ensures r.Err? ==> p <= r.error.at <= p + 5
  {
    var mnemonic := At(toks, p).literal;
    :- ExpectAt(toks, p, Inst);
    var rd :- RegisterAt(toks, p + 1);
    :- ExpectAt(toks, p + 2, Comma);
    var rs :- RegisterAt(toks, p + 3);
    :- ExpectAt(toks, p + 4, Comma);
    if IsShift(mnemonic) && At(toks, p + 5).kind == Number then
      Ok((RType(mnemonic, rd, rs, At(toks, p + 5).literal, 0, Text), p + 6))
    else
      var rt :- RegisterAt(toks, p + 5);
      Ok((RType(mnemonic, rd, rs, rt, 0, Text), p + 6))
  }

  /** The optional `(reg)` base after a `lw`/`sw` offset at index `q`; "" when absent. */
  function BaseAt(toks: seq<Token>, q: nat): (r: Parsed<string>)
    requires |toks| > 0
    ensures r.Ok? ==> r.value.1 == (if At(toks, q).kind == LParen then q + 3 else q)
    ensures r.Ok? && At(toks, q).kind != LParen ==> r.value.0 == ""
    ensures r.Err? ==> q + 1 <= r.error.at <= q + 2
  {
    if At(toks, q).kind == LParen then
      var rs :- RegisterAt(toks, q + 1);
      :- ExpectAt(toks, q + 2, RParen);
      Ok((rs, q + 3))
    else
      Ok(("", q))
  }

  /**
   * `parse_itype`: `beq rs, rt, label`; `lw`/`sw` rt, then a label or a number, then an
   * optional `(rs)`. Any other mnemonic gets the empty default fields.
   */
  function ITypeAt(toks: seq<Token>, p: nat): (r: Parsed<Node>)
    requires |toks| > 0
    ensures r.Ok? ==> p < r.value.1 <= p + 7 && r.value.0.IType? && r.value.0.Unplaced()
    ensures r.Err? ==> p <= r.error.at <= p + 6
  {
    var mnemonic := At(toks, p).literal;
    :- ExpectAt(toks, p, Inst);
    if mnemonic == "beq" then BranchAt(toks, p)
    else if mnemonic == "lw" || mnemonic == "sw" then MemoryAt(toks, p)
    else Ok((IType(mnemonic, "", "", "", false, 0, Text), p + 1))
  }

  /** The `beq` operands after the mnemonic at `p`: two registers and a label. */
  function BranchAt(toks: seq<Token>, p: nat): (r: Parsed<Node>)
    requires |toks| > 0
    ensures r.Ok? ==> r.value.1 == p + 6 && r.value.0.IType? && r.value.0.Unplaced()
    ensures r.Ok? ==> r.value.0.isLabelRef && r.value.0.mnemonic == At(toks, p).literal
    ensures r.Err? ==> p + 1 <= r.error.at <= p + 5
  {
    var rs :- RegisterAt(toks, p + 1);
    :- ExpectAt(toks, p + 2, Comma);
    var rt :- RegisterAt(toks, p + 3);
    :- ExpectAt(toks, p + 4, Comma);
    :- ExpectAt(toks, p + 5, Ident);
    Ok((IType(At(toks, p).literal, rt, rs, At(toks, p + 5).literal, true, 0, Text), p + 6))
  }

  /** The `lw`/`sw` operands after the mnemonic at `p`: a register, a label or number, a base. */
  function MemoryAt(toks: seq<Token>, p: nat): (r: Parsed<Node>)
    requires |toks| > 0
    ensures r.Ok? ==> p + 4 <= r.value.1 <= p + 7 && r.value.0.IType? && r.value.0.Unplaced()
    ensures r.Ok? ==> r.value.0.mnemonic == At(toks, p).literal
    ensures r.Err? ==> p + 1 <= r.error.at <= p + 6
  {
    var rt :- RegisterAt(toks, p + 1);
    :- ExpectAt(toks, p + 2, Comma);
    var operand := At(toks, p + 3);
    var isLabelRef := operand.kind == Ident;
    :- if isLabelRef then Pass else ExpectAt(toks, p + 3, Number);
    var (rs, q) :- BaseAt(toks, p + 4);
    Ok((IType(At(toks, p).literal, rt, rs, operand.literal, isLabelRef, 0, Text), q))
  }

  /**
   * The `.word` operand loop, from index `q`: when `expectValue`, a NUMBER or IDENT is taken,
   * otherwise a COMMA; anything else ends the list. Returns the values and the index after.
   */
  function WordValues(toks: seq<Token>, q: nat, expectValue: bool): (res: (seq<string>, nat))
    requires IsStream(toks)
    ensures q <= res.1
    decreases |toks| - q
  {
    if expectValue then
      if IsValue(At(toks, q)) then
        var (rest, r) := WordValues(toks, q + 1, false);
        ([At(toks, q).literal] + rest, r)
      else
        ([], q)
    else if At(toks, q).kind == Comma then
      WordValues(toks, q + 1, true)
    else
      ([], q)
  }

  /** `parse_directive`: '.', a name, an optional ':', and for `.word` its operand list. */
  function DirectiveAt(toks: seq<Token>, p: nat): (r: Parsed<Node>)
    requires IsStream(toks)
    ensures r.Ok? ==> p + 2 <= r.value.1 && r.value.0.Directive? && r.value.0.Unplaced()
    ensures r.Err? ==> p <= r.error.at <= p + 1
  {
    var name := At(toks, p + 1).literal;
    :- ExpectAt(toks, p, Dot);
    :- ExpectAt(toks, p + 1, Ident);
    var q := if At(toks, p + 2).kind == Colon then p + 3 else p + 2;
    if name == "word" then
      var (values, r) := WordValues(toks, q, true);
      Ok((Directive(name, values, 0, Text), r))
    else
      Ok((Directive(name, [], 0, Text), q))
  }

  /** `parse_statement`: the node of one statement, or none for a skipped ILLEGAL token. */
  function StatementAt(toks: seq<Token>, p: nat): (r: Parsed<Option<Node>>)
    requires IsStream(toks)
    ensures r.Ok? ==> p < r.value.1
    ensures r.Ok? && r.value.0.Some? ==> r.value.0.value.Unplaced()
    ensures r.Err? ==> p <= r.error.at
  {
    var t := At(toks, p);
    if t.kind == Dot then
      var (node, q) :- DirectiveAt(toks, p);
      Ok((Some(node), q))
    else if t.kind == Ident && At(toks, p + 1).kind == Colon then
      Ok((Some(Label(t.literal, 0, Text)), p + 2))
    else if t.kind == Inst then
      if t.literal in RTYPE_INSTRUCTIONS then
        var (node, q) :- RTypeAt(toks, p);
        Ok((Some(node), q))
      else if t.literal in ITYPE_INSTRUCTIONS then
        var (node, q) :- ITypeAt(toks, p);
        Ok((Some(node), q))
      else
        Err(Failure(UnknownInstruction, p))
    else if t.kind == Illegal then
      Ok((None, p + 1))
    else
      Err(Failure(UnexpectedToken, p))
  }

  function OptionToSeq<T>(o: Option<T>): seq<T> {
    if o.Some? then [o.value] else []
  }

  /**
   * `parse`: statements until EoF, in source order. An error thrown while the current token
   * is ILLEGAL drops the statement, skips that token and goes on; any other error ends parsing.
   */
  function ProgramFrom(toks: seq<Token>, p: nat): (r: Result<seq<Node>, Failure>)
    requires IsStream(toks)
    ensures r.Ok? ==> forall n :: n in r.value ==> n.Unplaced()
    decreases |toks| - p
  {
    if At(toks, p).kind == EoF then
      Ok([])
    else
      match StatementAt(toks, p)
      case Ok((node, q)) =>
        var rest :- ProgramFrom(toks, q);
        Ok(OptionToSeq(node) + rest)
      case Err(e) =>
        if At(toks, e.at).kind == Illegal then ProgramFrom(toks, e.at + 1) else Err(e)
  }

  /**
   * `parse` over a whole token stream: the nodes, all still unplaced, or an error that was not
   * thrown on an ILLEGAL token (those are recovered from).
   */
  function Program(toks: seq<Token>): (r: Result<seq<Node>, Failure>)
    requires IsStream(toks)
    ensures r.Ok? ==> forall n :: n in r.value ==> n.Unplaced()
    ensures r.Err? ==> At(toks, r.error.at).kind != Illegal
  {
    ProgramErrorNotAtIllegal(toks, 0);
    ProgramFrom(toks, 0)
  }

  // ---------------------------------------------------------------------------
  // Properties of the grammar

  /** Every token of a lexed stream, and the EoF after it, has the shape of its kind. */
  predicate Lexed(toks: seq<Token>) {
    IsStream(toks) && forall i :: 0 <= i < |toks| ==> WellFormed(toks[i])
  }

  /**
   * On a lexed stream a register operand is accepted exactly when the token is a REGISTER,
   * and what is stored is the register name without its '$'.
   */
  lemma LexedRegisterOperand(toks: seq<Token>, p: nat)
    requires Lexed(toks)
    ensures RegisterAt(toks, p).Ok? <==> At(toks, p).kind == Register
    ensures RegisterAt(toks, p).Ok? ==> RegisterAt(toks, p).value in REGISTERS
    ensures RegisterAt(toks, p).Err? ==> RegisterAt(toks, p).error.kind == Expected(Register)
  {
    var t := At(toks, p);
    assert WellFormed(t);
    if t.kind == Register {
      var name := t.literal[1..];
      assert t.literal == "$" + name;
      assert name in REGISTERS;
      assert name[0] != '$';
    }
  }

  /**
   * The shape `parse_rtype` accepts: INST, a register, ',', a register, ',', and a register
   * or, for `sll`/`srl` only, a NUMBER kept as text. Registers are stored without the '$'.
   */
  lemma RTypeShape(toks: seq<Token>, p: nat)
    requires |toks| > 0
    ensures RTypeAt(toks, p).Ok? <==>
      && At(toks, p).kind == Inst
      && IsRegisterToken(At(toks, p + 1)) && At(toks, p + 2).kind == Comma
      && IsRegisterToken(At(toks, p + 3)) && At(toks, p + 4).kind == Comma
      && (IsRegisterToken(At(toks, p + 5)) || (IsShift(At(toks, p).literal) && At(toks, p + 5).kind == Number))
    ensures RTypeAt(toks, p).Ok? ==>
      var shiftByNumber := IsShift(At(toks, p).literal) && At(toks, p + 5).kind == Number;
      RTypeAt(toks, p).value.0 ==
        RType(At(toks, p).literal, StripDollar(At(toks, p + 1).literal), StripDollar(At(toks, p + 3).literal),
              if shiftByNumber then At(toks, p + 5).literal else StripDollar(At(toks, p + 5).literal), 0, Text)
  {
  }

  /**
   * The shapes `parse_itype` accepts for `beq`: INST, a register (rs), ',', a register (rt),
   * ',', and an IDENT, which becomes a label reference.
   */
  lemma BeqShape(toks: seq<Token>, p: nat)
    requires |toks| > 0 && At(toks, p) .kind == Inst && At(toks, p).literal == "beq"
    ensures ITypeAt(toks, p).Ok? <==>
      && IsRegisterToken(At(toks, p + 1)) && At(toks, p + 2).kind == Comma
      && IsRegisterToken(At(toks, p + 3)) && At(toks, p + 4).kind == Comma
      && At(toks, p + 5).kind == Ident
    ensures ITypeAt(toks, p).Ok? ==>
      ITypeAt(toks, p).value == (IType("beq", StripDollar(At(toks, p + 3).literal), StripDollar(At(toks, p + 1).literal),
                                        At(toks, p + 5).literal, true, 0, Text), p + 6)
  {
  }

  /**
   * The shapes `parse_itype` accepts for `lw`/`sw`: INST, a register (rt), ',', then an IDENT
   * (a label reference) or a NUMBER (an immediate), then optionally '(' register ')' as rs;
   * without it rs stays empty.
   */
  lemma LoadStoreShape(toks: seq<Token>, p: nat)
    requires |toks| > 0 && At(toks, p).kind == Inst && At(toks, p).literal in {"lw", "sw"}
    ensures ITypeAt(toks, p).Ok? <==>
      && IsRegisterToken(At(toks, p + 1)) && At(toks, p + 2).kind == Comma
      && IsValue(At(toks, p + 3))
      && (At(toks, p + 4).kind == LParen ==> IsRegisterToken(At(toks, p + 5)) && At(toks, p + 6).kind == RParen)
    ensures ITypeAt(toks, p).Ok? ==>
      var based := At(toks, p + 4).kind == LParen;
      ITypeAt(toks, p).value ==
        (IType(At(toks, p).literal, StripDollar(At(toks, p + 1).literal),
               if based then StripDollar(At(toks, p + 5).literal) else "",
               At(toks, p + 3).literal, At(toks, p + 3).kind == Ident, 0, Text),
         if based then p + 7 else p + 4)
  {
  }

  /**
   * The `.word` list from index `q`: the tokens up to where it stops alternate value, ',',
   * value, ... and the values are collected in order. It stops either right after a value
   * (the next token is not a ',') or where a value was expected and none came: an empty list,
   * or a trailing ',' that has been consumed.
   */
  lemma {:induction false} WordValuesShape(toks: seq<Token>, q: nat)
    requires IsStream(toks)
    ensures var (vs, r) := WordValues(toks, q, true);
      && (r == q + 2 * |vs| || (|vs| > 0 && r == q + 2 * |vs| - 1))
      && (forall j :: q <= j < r ==>
            if (j - q) % 2 == 0 then IsValue(At(toks, j)) && At(toks, j).literal == vs[(j - q) / 2]
            else At(toks, j).kind == Comma)
      && (r == q + 2 * |vs| ==> !IsValue(At(toks, r)))
      && (r != q + 2 * |vs| ==> At(toks, r).kind != Comma)
    decreases |toks| - q
  {
    if IsValue(At(toks, q)) && At(toks, q + 1).kind == Comma {
      WordValuesShape(toks, q + 2);
      var (rest, r) := WordValues(toks, q + 2, true);
      var vs := WordValues(toks, q, true).0;
      assert WordValues(toks, q + 1, false) == WordValues(toks, q + 2, true);
      assert vs == [At(toks, q).literal] + rest;
    }
  }

  /** On a lexed stream an INST token names an R-type or an I-type instruction. */
  lemma LexedMnemonic(toks: seq<Token>, p: nat)
    requires Lexed(toks) && At(toks, p).kind == Inst
    ensures At(toks, p).literal in RTYPE_INSTRUCTIONS || At(toks, p).literal in ITYPE_INSTRUCTIONS
  {
    assert WellFormed(At(toks, p));
  }

  /** An R-type statement fails on a token of the wrong kind, or on the register operand at the failing index. */
  lemma RTypeErrorSources(toks: seq<Token>, p: nat)
    requires |toks| > 0
    ensures var r := RTypeAt(toks, p);
      r.Err? && !r.error.kind.Expected? ==>
        var q := r.error.at;
        (q == p + 1 || q == p + 3 || q == p + 5) && RegisterAt(toks, q) == Err(r.error)
  {
    if ExpectAt(toks, p, Inst).Pass? && RegisterAt(toks, p + 1).Ok? && ExpectAt(toks, p + 2, Comma).Pass? {
      if RegisterAt(toks, p + 3).Ok? && ExpectAt(toks, p + 4, Comma).Pass? {
        assert RTypeAt(toks, p).Err? ==> RTypeAt(toks, p).error == RegisterAt(toks, p + 5).error;
      }
    }
  }

  /** The same for an I-type statement, whose base register sits at index p + 5. */
  lemma ITypeErrorSources(toks: seq<Token>, p: nat)
    requires |toks| > 0
    ensures var r := ITypeAt(toks, p);
      r.Err? && !r.error.kind.Expected? ==>
        var q := r.error.at;
        (q == p + 1 || q == p + 3 || q == p + 5) && RegisterAt(toks, q) == Err(r.error)
  {
    if At(toks, p).kind == Inst {
      var mnemonic := At(toks, p).literal;
      if mnemonic == "beq" {
        BranchErrorSources(toks, p);
      } else if mnemonic == "lw" || mnemonic == "sw" {
        MemoryErrorSources(toks, p);
      }
    }
  }

  /** A `beq` fails for a cause other than a missing token only on one of its registers. */
  lemma BranchErrorSources(toks: seq<Token>, p: nat)
    requires |toks| > 0
    ensures var r := BranchAt(toks, p);
      r.Err? && !r.error.kind.Expected? ==>
        var q := r.error.at;
        (q == p + 1 || q == p + 3) && RegisterAt(toks, q) == Err(r.error)
  {
    if RegisterAt(toks, p + 1).Ok? && ExpectAt(toks, p + 2, Comma).Pass? {
      if RegisterAt(toks, p + 3).Ok? && ExpectAt(toks, p + 4, Comma).Pass? {
        assert BranchAt(toks, p).Err? ==> BranchAt(toks, p).error.kind == Expected(Ident);
      }
    }
  }

  /** An `lw`/`sw` fails for a cause other than a missing token only on one of its registers. */
  lemma MemoryErrorSources(toks: seq<Token>, p: nat)
    requires |toks| > 0
    ensures var r := MemoryAt(toks, p);
      r.Err? && !r.error.kind.Expected? ==>
        var q := r.error.at;
        (q == p + 1 || q == p + 5) && RegisterAt(toks, q) == Err(r.error)
  {
    var r := MemoryAt(toks, p);
    if RegisterAt(toks, p + 1).Err? {
      assert r == Err(RegisterAt(toks, p + 1).error);
    } else if ExpectAt(toks, p + 2, Comma).Fail? || (At(toks, p + 3).kind != Ident && At(toks, p + 3).kind != Number) {
      assert r.Err? ==> r.error.kind.Expected?;
    } else {
      BaseErrorSources(toks, p + 4);
      assert r.Err? ==> r == Err(BaseAt(toks, p + 4).error);
    }
  }

  /** The optional base fails on a token of the wrong kind, or on the register right after '('. */
  lemma BaseErrorSources(toks: seq<Token>, q: nat)
    requires |toks| > 0
    ensures var r := BaseAt(toks, q);
      r.Err? && !r.error.kind.Expected? ==> r.error.at == q + 1 && RegisterAt(toks, q + 1) == Err(r.error)
  {
  }

  lemma LexedRTypeErrors(toks: seq<Token>, p: nat)
    requires Lexed(toks)
    ensures RTypeAt(toks, p).Err? ==> RTypeAt(toks, p).error.kind.Expected?
  {
    RTypeErrorSources(toks, p);
    var r := RTypeAt(toks, p);
    if r.Err? && !r.error.kind.Expected? {
      LexedRegisterOperand(toks, r.error.at);
    }
  }

  lemma LexedITypeErrors(toks: seq<Token>, p: nat)
    requires Lexed(toks)
    ensures ITypeAt(toks, p).Err? ==> ITypeAt(toks, p).error.kind.Expected?
  {
    ITypeErrorSources(toks, p);
    var r := ITypeAt(toks, p);
    if r.Err? && !r.error.kind.Expected? {
      LexedRegisterOperand(toks, r.error.at);
    }
  }

  /**
   * On a lexed stream the parser never reports an invalid register or an unknown instruction:
   * the lexer already turned unknown `$names` into ILLEGAL tokens and tags only the eleven
   * mnemonics as INST. Every error is a token of an unexpected kind.
   */
  lemma LexedStatementErrors(toks: seq<Token>, p: nat)
    requires Lexed(toks)
    ensures StatementAt(toks, p).Err? ==>
      StatementAt(toks, p).error.kind.Expected? || StatementAt(toks, p).error.kind == UnexpectedToken
  {
    LexedRTypeErrors(toks, p);
    LexedITypeErrors(toks, p);
    if At(toks, p).kind == Inst {
      LexedMnemonic(toks, p);
    }
  }

  /**
   * A bad register as the last operand of an R-type statement, as in `add $t0, $t1, $zz`: the
   * lexer makes `$zz` ILLEGAL, the statement is dropped, and parsing goes on right after it.
   */
  lemma BadLastRegisterIsSkipped(toks: seq<Token>, p: nat)
    requires IsStream(toks)
    requires At(toks, p).kind == Inst && At(toks, p).literal in RTYPE_INSTRUCTIONS
    requires IsRegisterToken(At(toks, p + 1)) && At(toks, p + 2).kind == Comma
    requires IsRegisterToken(At(toks, p + 3)) && At(toks, p + 4).kind == Comma
    requires At(toks, p + 5).kind == Illegal
    ensures ProgramFrom(toks, p) == ProgramFrom(toks, p + 6)
  {
    RTypeFailsAtLast(toks, p);
    ProgramOnError(toks, p);
  }

  /**
   * A bad register in the middle, as in `add $t0, $zz, $t1`: the ILLEGAL `$zz` is skipped,
   * but parsing resumes at the ',' after it, where no statement starts, and that error ends
   * parsing.
   */
  lemma BadMiddleRegisterIsFatal(toks: seq<Token>, p: nat)
    requires IsStream(toks)
    requires At(toks, p).kind == Inst && At(toks, p).literal in RTYPE_INSTRUCTIONS
    requires IsRegisterToken(At(toks, p + 1)) && At(toks, p + 2).kind == Comma
    requires At(toks, p + 3).kind == Illegal && At(toks, p + 4).kind == Comma
    ensures ProgramFrom(toks, p) == Err(Failure(UnexpectedToken, p + 4))
  {
    RTypeFailsAtMiddle(toks, p);
    ProgramOnError(toks, p);
    CommaStartsNothing(toks, p + 4);
    ProgramOnError(toks, p + 4);
  }

  /** An R-type statement whose second operand is not a register fails there. */
  lemma RTypeFailsAtMiddle(toks: seq<Token>, p: nat)
    requires IsStream(toks)
    requires At(toks, p).kind == Inst && At(toks, p).literal in RTYPE_INSTRUCTIONS
    requires IsRegisterToken(At(toks, p + 1)) && At(toks, p + 2).kind == Comma
    requires At(toks, p + 3).kind == Illegal
    ensures StatementAt(toks, p) == Err(Failure(Expected(Register), p + 3))
  {
    assert RegisterAt(toks, p + 3) == Err(Failure(Expected(Register), p + 3));
    assert RTypeAt(toks, p) == Err(Failure(Expected(Register), p + 3));
  }

  /** An R-type statement whose last operand is not a register (nor a shift amount) fails there. */
  lemma RTypeFailsAtLast(toks: seq<Token>, p: nat)
    requires IsStream(toks)
    requires At(toks, p).kind == Inst && At(toks, p).literal in RTYPE_INSTRUCTIONS
    requires IsRegisterToken(At(toks, p + 1)) && At(toks, p + 2).kind == Comma
    requires IsRegisterToken(At(toks, p + 3)) && At(toks, p + 4).kind == Comma
    requires At(toks, p + 5).kind == Illegal
    ensures StatementAt(toks, p) == Err(Failure(Expected(Register), p + 5))
  {
    assert RegisterAt(toks, p + 5) == Err(Failure(Expected(Register), p + 5));
    assert RTypeAt(toks, p) == Err(Failure(Expected(Register), p + 5));
  }

  /** No statement starts with a ','. */
  lemma CommaStartsNothing(toks: seq<Token>, p: nat)
    requires IsStream(toks) && At(toks, p).kind == Comma
    ensures StatementAt(toks, p) == Err(Failure(UnexpectedToken, p))
  {
  }

  /**
   * After a statement fails, `parse` skips the current token and goes on when it is ILLEGAL,
   * and stops with the error otherwise.
   */
  lemma ProgramOnError(toks: seq<Token>, p: nat)
    requires IsStream(toks) && At(toks, p).kind != EoF && StatementAt(toks, p).Err?
    ensures var e := StatementAt(toks, p).error;
      ProgramFrom(toks, p) == if At(toks, e.at).kind == Illegal then ProgramFrom(toks, e.at + 1) else Err(e)
  {
  }

  /** An ILLEGAL token where a statement would start is skipped: parsing goes on after it. */
  lemma IllegalIsSkipped(toks: seq<Token>, p: nat)
    requires IsStream(toks) && At(toks, p).kind == Illegal
    ensures ProgramFrom(toks, p) == ProgramFrom(toks, p + 1)
  {
    assert StatementAt(toks, p) == Ok((None, p + 1));
    var rest := ProgramFrom(toks, p + 1);
    if rest.Ok? {
      assert OptionToSeq<Node>(None) + rest.value == rest.value;
    }
  }

  /** A statement that parses puts its node in front of the nodes of the statements after it. */
  lemma StatementThenRest(toks: seq<Token>, p: nat, node: Node, q: nat)
    requires IsStream(toks) && At(toks, p).kind != EoF && StatementAt(toks, p) == Ok((Some(node), q))
    ensures ProgramFrom(toks, p).Ok? <==> ProgramFrom(toks, q).Ok?
    ensures ProgramFrom(toks, p).Ok? ==> ProgramFrom(toks, p).value == [node] + ProgramFrom(toks, q).value
  {
  }

  /**
   * The error `parse` reports is never at an ILLEGAL token, and never before where parsing
   * started: an error thrown on an ILLEGAL token is always recovered from.
   */
  lemma {:induction false} ProgramErrorNotAtIllegal(toks: seq<Token>, p: nat)
    requires IsStream(toks)
    ensures var r := ProgramFrom(toks, p);
      r.Err? ==> p <= r.error.at && At(toks, r.error.at).kind != Illegal
    decreases |toks| - p
  {
    if At(toks, p).kind != EoF {
      var st := StatementAt(toks, p);
      if st.Ok? {
        ProgramAfterStatement(toks, p);
        ProgramErrorNotAtIllegal(toks, st.value.1);
      } else {
        ProgramOnError(toks, p);
        if At(toks, st.error.at).kind == Illegal {
          ProgramErrorNotAtIllegal(toks, st.error.at + 1);
        }
      }
    }
  }

  /** When a statement parses, the error `parse` reports, if any, is the one from the statements after it. */
  lemma ProgramAfterStatement(toks: seq<Token>, p: nat)
    requires IsStream(toks) && At(toks, p).kind != EoF && StatementAt(toks, p).Ok?
    ensures ProgramFrom(toks, p).Err? ==> ProgramFrom(toks, p) == ProgramFrom(toks, StatementAt(toks, p).value.1)
  {
  }

  // ---------------------------------------------------------------------------
  // The Parser class

  /** The result `parse` hands back: the nodes, or the kind of the error that escaped. */
  function WithoutPosition<T>(r: Result<T, Failure>): Result<T, ParseErrorKind> {
    match r
    case Ok(v) => Ok(v)
    case Err(f) => Err(f.kind)
  }

  /** `nodes` followed by what `rest` parsed, or its error. */
  function Prefixed(nodes: seq<Node>, rest: Result<seq<Node>, Failure>): Result<seq<Node>, Failure> {
    match rest
    case Ok(tail) => Ok(nodes + tail)
    case Err(f) => Err(f)
  }

  lemma PrefixedNothing(rest: Result<seq<Node>, Failure>)
    ensures Prefixed([], rest) == rest
  {
    if rest.Ok? {
      assert [] + rest.value == rest.value;
    }
  }

  lemma PrefixedTwice(nodes: seq<Node>, more: seq<Node>, rest: Result<seq<Node>, Failure>)
    ensures Prefixed(nodes + more, rest) == Prefixed(nodes, Prefixed(more, rest))
  {
    if rest.Ok? {
      assert nodes + more + rest.value == nodes + (more + rest.value);
    }
  }

  /**
   * `Parser`: the current token and the lookahead. The C++ parser pulls tokens from a `Lexer`
   * on demand; here it pulls them from the stream that lexer hands out, which
   * `Lexing.NextTokenIsAt` shows to be the same tokens in the same order. `index` is the
   * position of the current token in that stream.
   */
  class Parser {
    const tokens: seq<Token>
    var index: nat
    var currentToken: Token
    var nextToken: Token

    predicate Valid()
      reads this
    {
      IsStream(tokens) && currentToken == At(tokens, index) && nextToken == At(tokens, index + 1)
    }

    /** A method's result and the parser's new position, as the grammar function `spec` gives them. */
    predicate Tracks<T(==)>(r: Result<T, ParseErrorKind>, spec: Parsed<T>)
      reads this
    {
      match spec
      case Ok((v, q)) => r == Ok(v) && index == q
      case Err(f) => r == Err(f.kind) && index == f.at
    }

    /** The constructor pulls the first two tokens. */
    constructor(tokens: seq<Token>)
      requires IsStream(tokens)
      ensures Valid() && this.tokens == tokens && index == 0
    {
      this.tokens := tokens;
      index := 0;
      currentToken := At(tokens, 0);
      nextToken := At(tokens, 1);
    }

    /** `advance`: the lookahead becomes current and one new token is pulled. */
    method Advance()
      requires Valid()
      modifies this
      ensures Valid() && index == old(index) + 1
    {
      currentToken := nextToken;
      nextToken := At(tokens, index + 2);
      index := index + 1;
    }

    /** `expect_token` */
    function ExpectToken(kind: TokenKind): (r: Outcome<ParseErrorKind>)
      reads this
      ensures r.Pass? <==> currentToken.kind == kind
    {
      if currentToken.kind == kind then Pass else Fail(Expected(kind))
    }

    /** `expect_register` */
    method ExpectRegister() returns (r: Result<string, ParseErrorKind>)
      requires Valid()
      modifies this
      ensures Valid()
      ensures match RegisterAt(tokens, old(index))
        case Ok(reg) => r == Ok(reg) && index == old(index) + 1
        case Err(f) => r == Err(f.kind) && index == old(index)
    {
      if currentToken.kind != Register {
        return Err(Expected(Register));
      }
      var reg := currentToken.literal;
      if |reg| > 0 && reg[0] == '$' {
        reg := reg[1..];
      }
      if !IsRegisterName(reg) {
        return Err(InvalidRegister);
      }
      Advance();
      return Ok(reg);
    }

    /** `parse_rtype` */
    method ParseRType() returns (r: Result<Node, ParseErrorKind>)
      requires Valid()
      modifies this
      ensures Valid() && Tracks(r, RTypeAt(tokens, old(index)))
    {
      if currentToken.kind != Inst {
        return Err(Expected(Inst));
      }
      var mnemonic := currentToken.literal;
      Advance();
      var rd :- ExpectRegister();
      :- ExpectToken(Comma);
      Advance();
      var rs :- ExpectRegister();
      :- ExpectToken(Comma);
      Advance();
      var rt;
      if IsShift(mnemonic) && currentToken.kind == Number {
        rt := currentToken.literal;
        Advance();
      } else {
        rt :- ExpectRegister();
      }
      return Ok(RType(mnemonic, rd, rs, rt, 0, Text));
    }

    /** The optional `(reg)` base of `lw`/`sw`. */
    method ParseBase() returns (r: Result<string, ParseErrorKind>)
      requires Valid()
      modifies this
      ensures Valid() && Tracks(r, BaseAt(tokens, old(index)))
    {
      if currentToken.kind == LParen {
        Advance();
        var rs :- ExpectRegister();
        :- ExpectToken(RParen);
        Advance();
        return Ok(rs);
      }
      return Ok("");
    }

    /** `parse_itype` */
    method ParseIType() returns (r: Result<Node, ParseErrorKind>)
      requires Valid()
      modifies this
      ensures Valid() && Tracks(r, ITypeAt(tokens, old(index)))
    {
      if currentToken.kind != Inst {
        return Err(Expected(Inst));
      }
      var mnemonic := currentToken.literal;
      Advance();
      if mnemonic == "beq" {
        var rs :- ExpectRegister();
        :- ExpectToken(Comma);
        Advance();
        var rt :- ExpectRegister();
        :- ExpectToken(Comma);
        Advance();
        :- ExpectToken(Ident);
        var target := currentToken.literal;
        Advance();
        return Ok(IType(mnemonic, rt, rs, target, true, 0, Text));
      } else if mnemonic == "lw" || mnemonic == "sw" {
        var rt :- ExpectRegister();
        :- ExpectToken(Comma);
        Advance();
        var isLabelRef := currentToken.kind == Ident;
        if !isLabelRef {
          :- ExpectToken(Number);
        }
        var immOrLabel := currentToken.literal;
        Advance();
        var rs :- ParseBase();
        return Ok(IType(mnemonic, rt, rs, immOrLabel, isLabelRef, 0, Text));
      }
      return Ok(IType(mnemonic, "", "", "", false, 0, Text));
    }

    /** The `.word` operand loop of `parse_directive`. */
    method ParseWordValues() returns (values: seq<string>)
      requires Valid()
      modifies this
      ensures Valid() && (values, index) == WordValues(tokens, old(index), true)
    {
      ghost var start := index;
      values := [];
      var expectValue := true;
      while true
        invariant Valid()
        invariant WordValues(tokens, start, true).0 == values + WordValues(tokens, index, expectValue).0
        invariant WordValues(tokens, start, true).1 == WordValues(tokens, index, expectValue).1
        decreases |tokens| - index
      {
        ghost var before := index;
        if expectValue {
          if IsValue(currentToken) {
            InsideStream(tokens, index);
            values := values + [currentToken.literal];
            Advance();
            expectValue := false;
          } else {
            break;
          }
        } else {
          if currentToken.kind == Comma {
            InsideStream(tokens, index);
            Advance();
            expectValue := true;
            continue;
          } else {
            break;
          }
        }
      }
      assert values + [] == values;
    }

    /** `parse_directive` */
    method ParseDirective() returns (r: Result<Node, ParseErrorKind>)
      requires Valid()
      modifies this
      ensures Valid() && Tracks(r, DirectiveAt(tokens, old(index)))
    {
      if currentToken.kind != Dot {
        return Err(Expected(Dot));
      }
      Advance();
      :- ExpectToken(Ident);
      var name := currentToken.literal;
      Advance();
      if currentToken.kind == Colon {
        Advance();
      }
      var values: seq<string> := [];
      if name == "word" {
        values := ParseWordValues();
      }
      return Ok(Directive(name, values, 0, Text));
    }

    /** `parse_statement`: `None` stands for the null pointer returned for an ILLEGAL token. */
    method ParseStatement() returns (r: Result<Option<Node>, ParseErrorKind>)
      requires Valid()
      modifies this
      ensures Valid() && Tracks(r, StatementAt(tokens, old(index)))
    {
      if currentToken.kind == Dot {
        var node :- ParseDirective();
        return Ok(Some(node));
      }
      if currentToken.kind == Ident && nextToken.kind == Colon {
        var name := currentToken.literal;
        Advance();
        Advance();
        return Ok(Some(Label(name, 0, Text)));
      }
      if currentToken.kind == Inst {
        var mnemonic := currentToken.literal;
        if mnemonic in RTYPE_INSTRUCTIONS {
          var node :- ParseRType();
          return Ok(Some(node));
        } else if mnemonic in ITYPE_INSTRUCTIONS {
          var node :- ParseIType();
          return Ok(Some(node));
        } else {
          return Err(UnknownInstruction);
        }
      }
      if currentToken.kind == Illegal {
        Advance();
        return Ok(None);
      }
      return Err(UnexpectedToken);
    }

    /** `parse` */
    method Parse() returns (r: Result<seq<Node>, ParseErrorKind>)
      requires Valid()
      modifies this
      ensures Valid() && r == WithoutPosition(ProgramFrom(tokens, old(index)))
    {
      ghost var start := index;
      var nodes: seq<Node> := [];
      PrefixedNothing(ProgramFrom(tokens, index));
      while currentToken.kind != EoF
        invariant Valid()
        invariant ProgramFrom(tokens, start) == Prefixed(nodes, ProgramFrom(tokens, index))
        decreases |tokens| - index
      {
        ghost var before := index;
        InsideStream(tokens, index);
        var statement := ParseStatement();
        match statement
        case Ok(node) =>
          assert ProgramFrom(tokens, before) == Prefixed(OptionToSeq(node), ProgramFrom(tokens, index));
          PrefixedTwice(nodes, OptionToSeq(node), ProgramFrom(tokens, index));
          nodes := nodes + OptionToSeq(node);
        case Err(e) =>
          if currentToken.kind == Illegal {
            assert ProgramFrom(tokens, before) == ProgramFrom(tokens, index + 1);
            Advance();
            continue;
          }
          assert ProgramFrom(tokens, before) == Err(StatementAt(tokens, before).error);
          return Err(e);
      }
      assert nodes + [] == nodes;
      return Ok(nodes);
    }
  }
}
