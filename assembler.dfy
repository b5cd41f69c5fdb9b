/**
 * The assembler as a whole: the source text is lexed, parsed, placed by pass 1 and encoded by
 * pass 2 into the instruction image and the data image, each a run of big-endian words.
 * Writing the images out is not modelled; the theorems here read the words back from the bytes
 * and say what each one is.
 */
module Assembler {
  import opened Wrappers
  import opened Common
  import opened CNumbers
  import opened Lexing
  import opened Parsing
  import opened Encoding
  import opened CodeGen

  /** The two kinds of exception `assemble` lets through: a syntax error and a code generation error. */
  datatype AsmError =
    | SyntaxError(failure: Failure)
    | CodeError(error: GenError)

  /** The instruction image and the data image. */
  datatype Images = Images(instructions: seq<byte>, data: seq<byte>)

  /** `Assembler::assemble` without its file output: parse, then generate code. */
  function Assemble(input: string): (r: Result<Images, AsmError>)
    ensures r.Ok? ==> |r.value.instructions| % 4 == 0 && |r.value.data| % 4 == 0
  {
    match Program(Tokens(input))
    case Err(f) => Err(SyntaxError(f))
    case Ok(nodes) =>
      match Generate(nodes)
      case Err(e) => Err(CodeError(e))
      case Ok(images) => Ok(images)
  }

  /** `pass1`, then `pass2` with the table pass 1 built, over the parsed program. */
  function Generate(nodes: seq<Node>): (r: Result<Images, GenError>)
    ensures r.Ok? ==> |r.value.instructions| % 4 == 0 && |r.value.data| % 4 == 0
  {
    var (placed, symbols) :- Pass1Of(nodes);
    var (text, data) :- Pass2Words(placed, symbols);
    Ok(Images(Serialize(text), Serialize(data)))
  }

  /**
   * A parsed program assembles exactly when pass 1 accepts it (every instruction in TEXT, every
   * `.word` in DATA, no label twice) and pass 2 can encode every instruction and every `.word`
   * value at the places pass 1 gave them.
   */
  lemma GenerateSucceeds(nodes: seq<Node>)
    ensures Generate(nodes).Ok? <==>
      && (forall i :: 0 <= i < |nodes| ==> PlacementOk(nodes, i))
      && DistinctLabels(nodes, 0)
      && (Pass1Of(nodes).Ok? ==>
            var (placed, symbols) := Pass1Of(nodes).value;
            && (forall i :: 0 <= i < |placed| && InTextImage(placed[i]) ==> EncodeInstruction(placed[i], symbols).Ok?)
            && (forall i, j :: 0 <= i < |placed| && InDataImage(placed[i]) && 0 <= j < |placed[i].values| ==>
                  EncodeWord(placed[i].values[j], symbols).Ok?))
  {
    Pass1Succeeds(nodes);
    if Pass1Of(nodes).Ok? {
      var (placed, symbols) := Pass1Of(nodes).value;
      Pass2Succeeds(placed, symbols);
    }
  }

  /** The images hold one word per instruction and one word per `.word` value of the program. */
  lemma GeneratedSizes(nodes: seq<Node>, images: Images)
    requires Generate(nodes) == Ok(images)
    ensures |images.instructions| == 4 * InstructionCount(nodes)
    ensures |images.data| == 4 * WordValueCount(nodes)
  {
    var (placed, symbols) := Pass1Of(nodes).value;
    ImagesHoldEverything(nodes);
    Pass2Fills(placed, symbols);
  }

  /**
   * The word at byte 4k of the instruction image, where k instructions come before node i, is
   * the encoding of instruction i placed in TEXT at address 4k.
   */
  lemma GeneratedInstruction(nodes: seq<Node>, images: Images, i: nat)
    requires Generate(nodes) == Ok(images)
    requires i < |nodes| && nodes[i].IsInstruction()
    ensures var k := InstructionCount(nodes[..i]);
      && 4 * k + 4 <= |images.instructions|
      && EncodeInstruction(nodes[i].PlacedAt(Text, ToUint32(4 * k)), Pass1Of(nodes).value.1)
         == Ok(WordAt(images.instructions, 4 * k))
  {
    var (placed, symbols) := Pass1Of(nodes).value;
    var (text, data) := Pass2Words(placed, symbols).value;
    var k := InstructionCount(nodes[..i]);
    InstructionPlaced(nodes, placed, symbols, i, k);
    Pass2TextOrder(placed, symbols, i);
    SerializeReadsBack(text, k);
  }

  /** Pass 1 places instruction i in TEXT at 4 times the number of instructions before it. */
  lemma InstructionPlaced(nodes: seq<Node>, placed: seq<Node>, symbols: map<string, uint32>, i: nat, k: nat)
    requires Pass1Of(nodes) == Ok((placed, symbols))
    requires i < |nodes| && nodes[i].IsInstruction() && k == InstructionCount(nodes[..i])
    ensures i < |placed| && InTextImage(placed[i]) && TextCount(placed[..i]) == k
    ensures placed[i] == nodes[i].PlacedAt(Text, ToUint32(4 * k))
  {
    Pass1Places(nodes, i);
    PlacedKinds(nodes, i);
    AddressIsImageOffset(nodes, i);
    CountsAgree(nodes, i);
    assert placed[i].Unannotated() == nodes[i].Unannotated();
  }

  /**
   * A `beq` to a label, taken from where its word lies in the instruction image, jumps to that
   * label's address, which is where pass 1 placed the label.
   */
  lemma GeneratedBranch(nodes: seq<Node>, images: Images, i: nat)
    requires Generate(nodes) == Ok(images)
    requires i < |nodes| && nodes[i].IType? && nodes[i].mnemonic == "beq" && nodes[i].isLabelRef
    ensures var k := InstructionCount(nodes[..i]);
      && 4 * k + 4 <= |images.instructions|
      && exists m ::
        && 0 <= m < |nodes| && nodes[m].Label? && nodes[m].name == nodes[i].immOrLabel
        && BranchTarget(ToUint32(4 * k), WordAt(images.instructions, 4 * k)) == Pass1Of(nodes).value.0[m].address
  {
    var (placed, symbols) := Pass1Of(nodes).value;
    var (text, data) := Pass2Words(placed, symbols).value;
    var k := InstructionCount(nodes[..i]);
    InstructionPlaced(nodes, placed, symbols, i, k);
    BranchesReachLabels(nodes, placed, symbols, text, data, i);
    SerializeReadsBack(text, k);
    LabelOwner(nodes, placed, symbols, nodes[i].immOrLabel);
  }

  /** A name in pass 1's table belongs to a label node, bound to where that node was placed. */
  lemma LabelOwner(nodes: seq<Node>, placed: seq<Node>, symbols: map<string, uint32>, name: string)
    requires Pass1Of(nodes) == Ok((placed, symbols)) && name in symbols
    ensures exists m :: 0 <= m < |nodes| && nodes[m].Label? && nodes[m].name == name && symbols[name] == placed[m].address
  {
    Pass1Binds(nodes);
    var m :| 0 <= m < |nodes| && nodes[m].Label? && nodes[m].name == name;
  }

  /**
   * A `.word` value that is not a number becomes, in the data image, the address of the label
   * it names: value j of node i is data word w, where w counts the `.word` values before it.
   */
  lemma GeneratedWordLabel(nodes: seq<Node>, images: Images, i: nat, j: nat, w: nat)
    requires Generate(nodes) == Ok(images)
    requires i < |nodes| && IsWordDirective(nodes[i]) && j < |nodes[i].values|
    requires !StrToLL(nodes[i].values[j]).Converted?
    requires w == WordValueCount(nodes[..i]) + j
    ensures 4 * w + 4 <= |images.data|
    ensures exists m ::
      && 0 <= m < |nodes| && nodes[m].Label? && nodes[m].name == nodes[i].values[j]
      && WordAt(images.data, 4 * w) == Pass1Of(nodes).value.0[m].address
  {
    var (placed, symbols) := Pass1Of(nodes).value;
    var (text, data) := Pass2Words(placed, symbols).value;
    DataWordLabel(nodes, placed, symbols, text, data, i, j, w);
    assert images.data == Serialize(data);
  }

  /** The same, for the serialised data words of both passes. */
  lemma DataWordLabel(nodes: seq<Node>, placed: seq<Node>, symbols: map<string, uint32>, text: seq<uint32>,
                      data: seq<uint32>, i: nat, j: nat, w: nat)
    requires Pass1Of(nodes) == Ok((placed, symbols)) && Pass2Words(placed, symbols) == Ok((text, data))
    requires i < |nodes| && IsWordDirective(nodes[i]) && j < |nodes[i].values|
    requires !StrToLL(nodes[i].values[j]).Converted?
    requires w == WordValueCount(nodes[..i]) + j
    ensures w < |data|
    ensures
      exists m ::
        && 0 <= m < |nodes| && nodes[m].Label? && nodes[m].name == nodes[i].values[j]
        && WordAt(Serialize(data), 4 * w) == placed[m].address
  {
    var at := DataCount(placed[..i]);
    CountsAgree(nodes, i);
    WordLabelsResolve(nodes, placed, symbols, text, data, i, j, at);
    var m :| 0 <= m < |nodes| && nodes[m].Label? && nodes[m].name == nodes[i].values[j] && data[at + j] == placed[m].address;
    assert at == WordValueCount(nodes[..i]);
    assert w == at + j;
    SerializeReadsBack(data, w);
    assert WordAt(Serialize(data), 4 * w) == placed[m].address;
  }
}
