/**
 * The two passes of code_gen.cpp over the AST.
 *
 * Pass 1 gives every node the current section and that section's address counter and binds
 * the labels in a `SymbolTable`; pass 2 sizes the instruction and data images, then fills them
 * with the encoded words, most significant byte first.
 *
 * Each pass is specified by a function over the node sequence (`Pass1Of`, `Pass2Words`); the
 * methods `Pass1` and `Pass2` update an `array<Node>` and fill `array<byte>` buffers in place,
 * as the C++ does with its vectors, and are proved to follow those functions. The lemmas state
 * what the passes promise through independent descriptions: prefix counts of instructions and
 * `.word` values, the last section switch, and reading words back out of the images.
 */
module CodeGen {
  import opened Wrappers
  import opened Common
  import opened CNumbers
  import opened Symbols
  import opened Encoding

  // ---------------------------------------------------------------------------
  // Pass 1, as a function

  /** The state of pass 1: `text_addr`, `data_addr` and `current_section`. */
  datatype Counters = Counters(textAddr: uint32, dataAddr: uint32, section: Section)

  const START: Counters := Counters(0, 0, Text)

  predicate IsWordDirective(n: Node) { n.Directive? && n.name == "word" }

  /** The node as pass 1 leaves it: in the current section, at that section's counter. */
  function Place(c: Counters, n: Node): Node {
    n.PlacedAt(c.section, if c.section == Data then c.dataAddr else c.textAddr)
  }

  /**
   * How one node moves the counters, or the error it raises: an instruction advances the text
   * counter by 4 and is refused in DATA; `.text`/`.data` switch the section; `.word` advances
   * the data counter by 4 per value and is refused in TEXT. The counters are `uint32_t`.
   */
  function Step(c: Counters, n: Node): (r: Result<Counters, GenError>)
    ensures r.Err? <==> (n.IsInstruction() && c.section == Data) || (IsWordDirective(n) && c.section == Text)
    ensures r.Ok? && !n.Directive? ==> r.value.section == c.section
    ensures r.Ok? && !n.IsInstruction() ==> r.value.textAddr == c.textAddr
    ensures r.Ok? && !IsWordDirective(n) ==> r.value.dataAddr == c.dataAddr
  {
    if n.IsInstruction() then
      if c.section == Data then Err(InstructionInData) else Ok(c.(textAddr := ToUint32(c.textAddr + 4)))
    else if n.Directive? && n.name == "text" then
      Ok(c.(section := Text))
    else if n.Directive? && n.name == "data" then
      Ok(c.(section := Data))
    else if IsWordDirective(n) then
      if c.section == Text then Err(WordInText) else Ok(c.(dataAddr := ToUint32(c.dataAddr + 4 * |n.values|)))
    else
      Ok(c)
  }

  /** Step's outcome, one kind of node at a time. */
  lemma StepCases(c: Counters, n: Node)
    ensures n.Label? ==> Step(c, n) == Ok(c)
    ensures n.IsInstruction() ==>
      Step(c, n) == if c.section == Data then Err(InstructionInData) else Ok(c.(textAddr := ToUint32(c.textAddr + 4)))
    ensures n.Directive? && n.name == "text" ==> Step(c, n) == Ok(c.(section := Text))
    ensures n.Directive? && n.name == "data" ==> Step(c, n) == Ok(c.(section := Data))
    ensures IsWordDirective(n) ==>
      Step(c, n) == if c.section == Text then Err(WordInText) else Ok(c.(dataAddr := ToUint32(c.dataAddr + 4 * |n.values|)))
    ensures n.Directive? && n.name != "text" && n.name != "data" && n.name != "word" ==> Step(c, n) == Ok(c)
  { }

  /** `sym_table.add` for a label node; any other node leaves the table alone. */
  function BindLabel(symbols: map<string, uint32>, n: Node): Result<map<string, uint32>, GenError> {
    if !n.Label? then Ok(symbols)
    else match Bind(symbols, n.name, n.address)
      case Ok(after) => Ok(after)
      case Err(_) => Err(GenError.DuplicateLabel(n.name))
  }

  /** Pass 1 over `nodes` from counters `c` and table `symbols`: the placed nodes and the final table. */
  function Pass1From(c: Counters, symbols: map<string, uint32>, nodes: seq<Node>)
    : (r: Result<(seq<Node>, map<string, uint32>), GenError>)
    ensures r.Ok? ==> |r.value.0| == |nodes|
    decreases |nodes|
  {
    if nodes == [] then Ok(([], symbols))
    else
      var placed := Place(c, nodes[0]);
      var bound :- BindLabel(symbols, placed);
      var next :- Step(c, nodes[0]);
      var rest :- Pass1From(next, bound, nodes[1..]);
      Ok(([placed] + rest.0, rest.1))
  }

  /** `pass1`: both counters at 0, section TEXT, an empty table. */
  function Pass1Of(nodes: seq<Node>): (r: Result<(seq<Node>, map<string, uint32>), GenError>)
    ensures r.Ok? ==> |r.value.0| == |nodes|
  {
    Pass1From(START, map[], nodes)
  }

  // ---------------------------------------------------------------------------
  // What pass 1 computes, stated through prefix counts

  /** The number of instructions among `nodes`. */
  function InstructionCount(nodes: seq<Node>): nat {
    if nodes == [] then 0
    else InstructionCount(nodes[..|nodes| - 1]) + if nodes[|nodes| - 1].IsInstruction() then 1 else 0
  }

  /** The number of `.word` values among `nodes`. */
  function WordValueCount(nodes: seq<Node>): nat {
    if nodes == [] then 0
    else WordValueCount(nodes[..|nodes| - 1]) + if IsWordDirective(nodes[|nodes| - 1]) then |nodes[|nodes| - 1].values| else 0
  }

  /** The section chosen by the last `.text` or `.data` among `nodes`; TEXT when there is none. */
  function SectionAfter(nodes: seq<Node>): Section {
    if nodes == [] then Text
    else
      var last := nodes[|nodes| - 1];
      if last.Directive? && last.name == "text" then Text
      else if last.Directive? && last.name == "data" then Data
      else SectionAfter(nodes[..|nodes| - 1])
  }

  /** The counters once the nodes of `prefix` have been walked without error. */
  function CountersAfter(prefix: seq<Node>): Counters {
    Counters(ToUint32(4 * InstructionCount(prefix)), ToUint32(4 * WordValueCount(prefix)), SectionAfter(prefix))
  }

  /** Node `i` is in a section that admits it: instructions in TEXT, `.word` in DATA. */
  predicate PlacementOk(nodes: seq<Node>, i: nat)
    requires i < |nodes|
  {
    && (nodes[i].IsInstruction() ==> SectionAfter(nodes[..i]) == Text)
    && (IsWordDirective(nodes[i]) ==> SectionAfter(nodes[..i]) == Data)
  }

  /** No two label nodes at or after index `k` share a name. */
  predicate DistinctLabels(nodes: seq<Node>, k: nat) {
    forall i, j :: k <= i < j < |nodes| && nodes[i].Label? && nodes[j].Label? ==> nodes[i].name != nodes[j].name
  }

  lemma ToUint32Sum(x: int, y: int)
    ensures ToUint32(ToUint32(x) + y) == ToUint32(x + y)
  {
    var q := x / TWO_32;
    assert x == q * TWO_32 + ToUint32(x);
    assert x + y == ToUint32(x) + y + q * TWO_32;
  }

  lemma ToUint32OfMultipleOf4(x: int)
    ensures ToUint32(4 * x) % 4 == 0
  {
    var q := (4 * x) / TWO_32;
    assert 4 * x == q * TWO_32 + ToUint32(4 * x);
    assert ToUint32(4 * x) == 4 * (x - q * 0x4000_0000);
  }

  /**
   * From the counters after `nodes[..k]`, node k is admitted exactly when its section allows
   * it, and it moves the counters to those after `nodes[..k + 1]`.
   */
  lemma StepFollowsCounts(nodes: seq<Node>, k: nat)
    requires k < |nodes|
    ensures Step(CountersAfter(nodes[..k]), nodes[k]).Ok? <==> PlacementOk(nodes, k)
    ensures Step(CountersAfter(nodes[..k]), nodes[k]).Ok? ==>
      Step(CountersAfter(nodes[..k]), nodes[k]).value == CountersAfter(nodes[..k + 1])
  {
    var prefix := nodes[..k + 1];
    assert prefix[..k] == nodes[..k] && prefix[k] == nodes[k];
    ToUint32Sum(4 * InstructionCount(nodes[..k]), 4);
    ToUint32Sum(4 * WordValueCount(nodes[..k]), 4 * if IsWordDirective(nodes[k]) then |nodes[k].values| else 0);
  }

  /** Whether pass 1 of `nodes[k..]` from the counters after `nodes[..k]` can bind every label. */
  predicate LabelsFresh(nodes: seq<Node>, k: nat, symbols: map<string, uint32>) {
    && DistinctLabels(nodes, k)
    && forall i :: k <= i < |nodes| && nodes[i].Label? ==> nodes[i].name !in symbols
  }

  /**
   * Pass 1 of `nodes[k..]`, started from the counters after `nodes[..k]`, succeeds exactly
   * when every node is in a section that admits it and every label name is new.
   */
  lemma {:induction false} Pass1FromSucceeds(nodes: seq<Node>, k: nat, symbols: map<string, uint32>)
    requires k <= |nodes|
    ensures Pass1From(CountersAfter(nodes[..k]), symbols, nodes[k..]).Ok? <==>
      (forall i :: k <= i < |nodes| ==> PlacementOk(nodes, i)) && LabelsFresh(nodes, k, symbols)
    decreases |nodes| - k
  {
    if k == |nodes| {
      assert nodes[k..] == [];
    } else {
      var c := CountersAfter(nodes[..k]);
      var tail := nodes[k..];
      assert tail[0] == nodes[k] && tail[1..] == nodes[k + 1..];
      StepFollowsCounts(nodes, k);
      var bound := BindLabel(symbols, Place(c, nodes[k]));
      if bound.Ok? {
        Pass1FromSucceeds(nodes, k + 1, bound.value);
      }
    }
  }

  /** On success, that pass places node i with the counters after `nodes[..i]`. */
  lemma Pass1FromPlaces(nodes: seq<Node>, k: nat, symbols: map<string, uint32>)
    requires k <= |nodes|
    ensures var r := Pass1From(CountersAfter(nodes[..k]), symbols, nodes[k..]);
      r.Ok? ==> forall i :: k <= i < |nodes| ==> r.value.0[i - k] == Place(CountersAfter(nodes[..i]), nodes[i])
  {
    forall i | k <= i < |nodes|
      ensures var r := Pass1From(CountersAfter(nodes[..k]), symbols, nodes[k..]);
        r.Ok? ==> r.value.0[i - k] == Place(CountersAfter(nodes[..i]), nodes[i])
    {
      Pass1FromPlacesAt(nodes, k, symbols, i);
    }
  }

  /** The same for one node i, by induction on the number of nodes before it. */
  lemma {:induction false} Pass1FromPlacesAt(nodes: seq<Node>, k: nat, symbols: map<string, uint32>, i: nat)
    requires k <= i < |nodes|
    ensures var r := Pass1From(CountersAfter(nodes[..k]), symbols, nodes[k..]);
      r.Ok? ==> r.value.0[i - k] == Place(CountersAfter(nodes[..i]), nodes[i])
    decreases i - k
  {
    var r := Pass1From(CountersAfter(nodes[..k]), symbols, nodes[k..]);
    if r.Ok? {
      Pass1FromStep(nodes, k, symbols);
      var first := Place(CountersAfter(nodes[..k]), nodes[k]);
      var bound := BindLabel(symbols, first).value;
      var rest := Pass1From(CountersAfter(nodes[..k + 1]), bound, nodes[k + 1..]).value.0;
      assert r.value.0 == [first] + rest;
      if k < i {
        Pass1FromPlacesAt(nodes, k + 1, bound, i);
        assert rest[i - (k + 1)] == Place(CountersAfter(nodes[..i]), nodes[i]);
        ConsIndex(r.value.0, first, rest, i - k);
      }
    }
  }

  /** Element j > 0 of `[x] + rest` is element j - 1 of `rest`. */
  lemma ConsIndex<T>(s: seq<T>, x: T, rest: seq<T>, j: nat)
    requires s == [x] + rest && 0 < j < |s|
    ensures s[j] == rest[j - 1]
  {
  }

  /** On success, that pass binds node k's label (if any) and goes on from the counters after it. */
  lemma Pass1FromStep(nodes: seq<Node>, k: nat, symbols: map<string, uint32>)
    requires k < |nodes|
    ensures var r := Pass1From(CountersAfter(nodes[..k]), symbols, nodes[k..]);
      r.Ok? ==>
        var bound := BindLabel(symbols, Place(CountersAfter(nodes[..k]), nodes[k]));
        && bound.Ok?
        && var rest := Pass1From(CountersAfter(nodes[..k + 1]), bound.value, nodes[k + 1..]);
        && rest.Ok?
        && r.value.0 == [Place(CountersAfter(nodes[..k]), nodes[k])] + rest.value.0
        && r.value.1 == rest.value.1
  {
    var tail := nodes[k..];
    assert tail[0] == nodes[k] && tail[1..] == nodes[k + 1..];
    StepFollowsCounts(nodes, k);
  }

  /**
   * On success, that pass's table holds the names it started with and exactly the labels of
   * `nodes[k..]` besides.
   */
  lemma {:induction false} Pass1FromKeys(nodes: seq<Node>, k: nat, symbols: map<string, uint32>)
    requires k <= |nodes|
    ensures var r := Pass1From(CountersAfter(nodes[..k]), symbols, nodes[k..]);
      r.Ok? ==> forall name :: name in r.value.1 <==>
        name in symbols || exists i :: k <= i < |nodes| && nodes[i].Label? && nodes[i].name == name
    decreases |nodes| - k
  {
    if k == |nodes| {
      assert nodes[k..] == [];
    } else {
      Pass1FromStep(nodes, k, symbols);
      var bound := BindLabel(symbols, Place(CountersAfter(nodes[..k]), nodes[k]));
      if bound.Ok? {
        Pass1FromKeys(nodes, k + 1, bound.value);
      }
    }
  }

  /** On success, that pass's table keeps every binding it started with. */
  lemma {:induction false} Pass1FromKeeps(nodes: seq<Node>, k: nat, symbols: map<string, uint32>)
    requires k <= |nodes|
    ensures var r := Pass1From(CountersAfter(nodes[..k]), symbols, nodes[k..]);
      r.Ok? ==> forall name :: name in symbols ==> name in r.value.1 && r.value.1[name] == symbols[name]
    decreases |nodes| - k
  {
    if k == |nodes| {
      assert nodes[k..] == [];
    } else {
      Pass1FromStep(nodes, k, symbols);
      var bound := BindLabel(symbols, Place(CountersAfter(nodes[..k]), nodes[k]));
      if bound.Ok? {
        Pass1FromKeeps(nodes, k + 1, bound.value);
      }
    }
  }

  /** On success, that pass binds each label of `nodes[k..]` to the address its node is placed at. */
  lemma {:induction false} Pass1FromAddresses(nodes: seq<Node>, k: nat, symbols: map<string, uint32>)
    requires k <= |nodes|
    ensures var r := Pass1From(CountersAfter(nodes[..k]), symbols, nodes[k..]);
      r.Ok? ==> forall i :: k <= i < |nodes| && nodes[i].Label? ==>
        nodes[i].name in r.value.1 && r.value.1[nodes[i].name] == Place(CountersAfter(nodes[..i]), nodes[i]).address
    decreases |nodes| - k
  {
    if k < |nodes| {
      Pass1FromStep(nodes, k, symbols);
      var bound := BindLabel(symbols, Place(CountersAfter(nodes[..k]), nodes[k]));
      if bound.Ok? {
        Pass1FromAddresses(nodes, k + 1, bound.value);
        Pass1FromKeeps(nodes, k + 1, bound.value);
      }
    }
  }

  // ---------------------------------------------------------------------------
  // Pass 1, the theorems

  /**
   * `pass1` succeeds exactly when every instruction comes while the section is TEXT, every
   * `.word` while it is DATA, and no label name repeats.
   */
  lemma Pass1Succeeds(nodes: seq<Node>)
    ensures Pass1Of(nodes).Ok? <==>
      (forall i :: 0 <= i < |nodes| ==> PlacementOk(nodes, i)) && DistinctLabels(nodes, 0)
  {
    assert nodes[..0] == [] && nodes[0..] == nodes;
    Pass1FromSucceeds(nodes, 0, map[]);
  }

  /**
   * After `pass1`, node i keeps its content and is placed in the section of the last switch
   * before it, at 4 times the number of instructions before it (in TEXT) or of `.word` values
   * before it (in DATA), modulo 2^32.
   */
  lemma Pass1Places(nodes: seq<Node>, i: nat)
    requires Pass1Of(nodes).Ok? && i < |nodes|
    ensures var placed := Pass1Of(nodes).value.0;
      && placed[i].Unannotated() == nodes[i].Unannotated()
      && placed[i].section == SectionAfter(nodes[..i])
      && placed[i].address ==
           if placed[i].section == Text then ToUint32(4 * InstructionCount(nodes[..i]))
           else ToUint32(4 * WordValueCount(nodes[..i]))
  {
    assert nodes[..0] == [] && nodes[0..] == nodes;
    Pass1FromPlacesAt(nodes, 0, map[], i);
    PlaceFields(CountersAfter(nodes[..i]), nodes[i]);
  }

  /** A placed node keeps its other fields and takes the section and that section's counter. */
  lemma PlaceFields(c: Counters, n: Node)
    ensures Place(c, n).Unannotated() == n.Unannotated()
    ensures Place(c, n).section == c.section
    ensures Place(c, n).address == if c.section == Text then c.textAddr else c.dataAddr
  {
  }

  /** After `pass1` the table binds exactly the label names, each to the address of its label node. */
  lemma Pass1Binds(nodes: seq<Node>)
    requires Pass1Of(nodes).Ok?
    ensures var (placed, symbols) := Pass1Of(nodes).value;
      && (forall name :: name in symbols <==> exists i :: 0 <= i < |nodes| && nodes[i].Label? && nodes[i].name == name)
      && (forall i :: 0 <= i < |nodes| && nodes[i].Label? ==> nodes[i].name in symbols && symbols[nodes[i].name] == placed[i].address)
  {
    assert nodes[..0] == [] && nodes[0..] == nodes;
    Pass1FromPlaces(nodes, 0, map[]);
    Pass1FromKeys(nodes, 0, map[]);
    Pass1FromAddresses(nodes, 0, map[]);
  }

  /** Every address pass 1 assigns, and so every address in the table, is a multiple of 4. */
  lemma Pass1Aligned(nodes: seq<Node>)
    requires Pass1Of(nodes).Ok?
    ensures var (placed, symbols) := Pass1Of(nodes).value;
      && (forall i :: 0 <= i < |placed| ==> placed[i].address % 4 == 0)
      && (forall name :: name in symbols ==> symbols[name] % 4 == 0)
  {
    Pass1Binds(nodes);
    var (placed, symbols) := Pass1Of(nodes).value;
    forall i | 0 <= i < |placed|
      ensures placed[i].address % 4 == 0
    {
      Pass1Places(nodes, i);
      ToUint32OfMultipleOf4(InstructionCount(nodes[..i]));
      ToUint32OfMultipleOf4(WordValueCount(nodes[..i]));
    }
    forall name | name in symbols
      ensures symbols[name] % 4 == 0
    {
      var i :| 0 <= i < |nodes| && nodes[i].Label? && nodes[i].name == name;
      assert symbols[name] == placed[i].address;
    }
  }

  /** A label binds the address of the item after it: the next node gets the same section and address. */
  lemma LabelBindsNextAddress(nodes: seq<Node>, i: nat)
    requires Pass1Of(nodes).Ok? && i + 1 < |nodes| && nodes[i].Label?
    ensures var (placed, symbols) := Pass1Of(nodes).value;
      && placed[i + 1].section == placed[i].section
      && placed[i + 1].address == placed[i].address
      && nodes[i].name in symbols && symbols[nodes[i].name] == placed[i + 1].address
  {
    Pass1Places(nodes, i);
    Pass1Places(nodes, i + 1);
    Pass1Binds(nodes);
    var prefix := nodes[..i + 1];
    assert prefix[..i] == nodes[..i] && prefix[i] == nodes[i];
  }

  // ---------------------------------------------------------------------------
  // Pass 1, in place

  /** The outcome of the whole pass, given the nodes already placed and the outcome of the rest. */
  function AfterPlaced(placed: seq<Node>, rest: Result<(seq<Node>, map<string, uint32>), GenError>)
    : Result<(seq<Node>, map<string, uint32>), GenError>
  {
    match rest
    case Ok((nodes, symbols)) => Ok((placed + nodes, symbols))
    case Err(e) => Err(e)
  }

  lemma AfterNothing(rest: Result<(seq<Node>, map<string, uint32>), GenError>)
    ensures AfterPlaced([], rest) == rest
  {
    if rest.Ok? {
      assert [] + rest.value.0 == rest.value.0;
    }
  }

  /** Placing one node without error moves it from the outcome of the rest to the placed part. */
  lemma AfterPlacedOne(placed: seq<Node>, c: Counters, symbols: map<string, uint32>, nodes: seq<Node>)
    requires nodes != [] && BindLabel(symbols, Place(c, nodes[0])).Ok? && Step(c, nodes[0]).Ok?
    ensures AfterPlaced(placed, Pass1From(c, symbols, nodes)) ==
      AfterPlaced(placed + [Place(c, nodes[0])],
        Pass1From(Step(c, nodes[0]).value, BindLabel(symbols, Place(c, nodes[0])).value, nodes[1..]))
  {
    var rest := Pass1From(Step(c, nodes[0]).value, BindLabel(symbols, Place(c, nodes[0])).value, nodes[1..]);
    if rest.Ok? {
      assert placed + ([Place(c, nodes[0])] + rest.value.0) == placed + [Place(c, nodes[0])] + rest.value.0;
    }
  }

  /**
   * `pass1`: annotates the nodes of `ast` in place and returns the table, or stops at the first
   * node that raises an error.
   */
  method Pass1(ast: array<Node>) returns (r: Result<SymbolTable, GenError>)
    modifies ast
    ensures match Pass1Of(old(ast[..]))
      case Ok((placed, symbols)) => r.Ok? && fresh(r.value) && r.value.symbols == symbols && ast[..] == placed
      case Err(e) => r == Err(e)
  {
    ghost var nodes := ast[..];
    var table := new SymbolTable();
    var textAddr: uint32 := 0;
    var dataAddr: uint32 := 0;
    var currentSection := Text;
    assert nodes[0..] == nodes;
    AfterNothing(Pass1Of(nodes));
    for i := 0 to ast.Length
      invariant fresh(table)
      invariant ast[i..] == nodes[i..]
      invariant Pass1Of(nodes) ==
        AfterPlaced(ast[..i], Pass1From(Counters(textAddr, dataAddr, currentSection), table.symbols, nodes[i..]))
    {
      var c := Counters(textAddr, dataAddr, currentSection);
      var node := ast[i];
      assert nodes[i..][0] == node && nodes[i..][1..] == nodes[i + 1..];
      ghost var symbols := table.symbols;
      ghost var done := ast[..i];
      var placed := node.(section := currentSection, address := if currentSection == Data then dataAddr else textAddr);
      ast[i] := placed;
      assert ast[..i + 1] == done + [placed];
      StepCases(c, node);
      if node.Label? {
        var added := table.Add(node.name, placed.address);
        if added.Fail? {
          return Err(GenError.DuplicateLabel(node.name));
        }
      } else if node.IsInstruction() {
        if currentSection == Data {
          return Err(InstructionInData);
        }
        textAddr := ToUint32(textAddr + 4);
      } else if node.Directive? {
        if node.name == "text" {
          currentSection := Text;
        } else if node.name == "data" {
          currentSection := Data;
        } else if node.name == "word" {
          if currentSection == Text {
            return Err(WordInText);
          }
          dataAddr := ToUint32(dataAddr + 4 * |node.values|);
        }
      }
      assert BindLabel(symbols, placed) == Ok(table.symbols);
      assert Step(c, node) == Ok(Counters(textAddr, dataAddr, currentSection));
      AfterPlacedOne(done, c, symbols, nodes[i..]);
    }
    assert nodes[ast.Length..] == [] && ast[..ast.Length] == ast[..];
    return Ok(table);
  }

  // ---------------------------------------------------------------------------
  // Big-endian words

  /** `write_uint32`'s four bytes for `w`, most significant first. */
  function BigEndian(w: uint32): (bytes: seq<byte>)
    ensures |bytes| == 4
  {
    [w / 0x100_0000, w / 0x1_0000 % 0x100, w / 0x100 % 0x100, w % 0x100]
  }

  /** The word whose big-endian bytes start at `pos`, as `assemble` reads the images back. */
  function WordAt(bytes: seq<byte>, pos: nat): uint32
    requires pos + 4 <= |bytes|
  {
    bytes[pos] as int * 0x100_0000 + bytes[pos + 1] as int * 0x1_0000 + bytes[pos + 2] as int * 0x100 + bytes[pos + 3] as int
  }

  /** Reading back the bytes written for `w` gives `w`. */
  lemma BigEndianReadsBack(w: uint32)
    ensures WordAt(BigEndian(w), 0) == w
  {
    var b := BigEndian(w);
    assert w / 0x100 == (w / 0x1_0000) * 0x100 + b[2];
    assert w / 0x1_0000 == b[0] as int * 0x100 + b[1] as int;
  }

  /** Writing back the word read from four bytes gives those bytes. */
  lemma WordAtWritesBack(bytes: seq<byte>, pos: nat)
    requires pos + 4 <= |bytes|
    ensures BigEndian(WordAt(bytes, pos)) == bytes[pos..pos + 4]
  {
    var w := WordAt(bytes, pos);
    var hi: int := bytes[pos] as int * 0x100 + bytes[pos + 1] as int;
    var mid: int := hi * 0x100 + bytes[pos + 2] as int;
    assert w == mid * 0x100 + bytes[pos + 3] as int;
    assert w / 0x100 == mid && w % 0x100 == bytes[pos + 3];
    assert mid / 0x100 == hi && mid % 0x100 == bytes[pos + 2];
    assert w / 0x1_0000 == mid / 0x100 by {
      assert w == (mid / 0x100) * 0x1_0000 + (mid % 0x100) * 0x100 + bytes[pos + 3];
    }
    assert w / 0x100_0000 == hi / 0x100 by {
      assert w == (hi / 0x100) * 0x100_0000 + (hi % 0x100) * 0x1_0000 + bytes[pos + 2] as int * 0x100 + bytes[pos + 3] as int;
    }
  }

  /** The words written one after the other, as `pass2` lays them out in an image. */
  function Serialize(words: seq<uint32>): (bytes: seq<byte>)
    ensures |bytes| == 4 * |words| && |bytes| % 4 == 0
  {
    if words == [] then [] else Serialize(words[..|words| - 1]) + BigEndian(words[|words| - 1])
  }

  /** Word j of an image starts at byte 4 * j, and reading it back gives the word written. */
  lemma {:induction false} SerializeReadsBack(words: seq<uint32>, j: nat)
    requires j < |words|
    ensures WordAt(Serialize(words), 4 * j) == words[j]
    decreases |words|
  {
    var init := words[..|words| - 1];
    var bytes := Serialize(words);
    if j == |words| - 1 {
      assert bytes[4 * j..4 * j + 4] == BigEndian(words[j]);
      BigEndianReadsBack(words[j]);
    } else {
      SerializeReadsBack(init, j);
      assert bytes[..4 * |init|] == Serialize(init);
    }
  }

  /**
   * `write_uint32`: the four bytes of `value`, most significant first, at `pos`; nothing else
   * in the buffer changes.
   */
  method WriteUint32(buffer: array<byte>, pos: nat, value: uint32)
    requires pos + 4 <= buffer.Length
    modifies buffer
    ensures buffer[..] == old(buffer[..pos]) + BigEndian(value) + old(buffer[pos + 4..])
    ensures buffer[..pos + 4] == old(buffer[..pos]) + BigEndian(value)
  {
    buffer[pos] := value / 0x100_0000 % 0x100;
    buffer[pos + 1] := value / 0x1_0000 % 0x100;
    buffer[pos + 2] := value / 0x100 % 0x100;
    buffer[pos + 3] := value % 0x100;
  }

  // ---------------------------------------------------------------------------
  // Pass 2, as a function

  /** A node pass 2 encodes into the instruction image. */
  predicate InTextImage(n: Node) { n.IsInstruction() && n.section == Text }

  /** A node pass 2 encodes into the data image. */
  predicate InDataImage(n: Node) { IsWordDirective(n) && n.section == Data }

  /** `encode_r`, or `encode_i` at the instruction's own address. */
  function EncodeInstruction(n: Node, symbols: map<string, uint32>): Result<uint32, GenError>
    requires n.IsInstruction()
  {
    if n.RType? then EncodeR(n) else EncodeI(n, n.address, symbols)
  }

  /** `encode` on each value in turn, stopping at the first error. */
  function EncodeEach(values: seq<string>, encode: string -> Result<uint32, GenError>): (r: Result<seq<uint32>, GenError>)
    ensures r.Ok? ==> |r.value| == |values|
    decreases |values|
  {
    if values == [] then Ok([])
    else
      var w :- encode(values[0]);
      var rest :- EncodeEach(values[1..], encode);
      Ok([w] + rest)
  }

  /** `encode_word` on each value of a `.word` in turn, stopping at the first error. */
  function EncodeValues(values: seq<string>, symbols: map<string, uint32>): (r: Result<seq<uint32>, GenError>)
    ensures r.Ok? ==> |r.value| == |values|
  {
    EncodeEach(values, v => EncodeWord(v, symbols))
  }

  /** Once the values encode together, value j's word is word j of the result. */
  lemma {:induction false} EncodeEachAt(values: seq<string>, encode: string -> Result<uint32, GenError>, j: nat)
    requires j < |values| && EncodeEach(values, encode).Ok?
    ensures encode(values[j]) == Ok(EncodeEach(values, encode).value[j])
    decreases j
  {
    if j > 0 {
      EncodeEachAt(values[1..], encode, j - 1);
      assert values[1..][j - 1] == values[j];
    }
  }

  /** Values that each encode also encode together. */
  lemma {:induction false} EncodeEachSucceeds(values: seq<string>, encode: string -> Result<uint32, GenError>)
    requires forall j :: 0 <= j < |values| ==> encode(values[j]).Ok?
    ensures EncodeEach(values, encode).Ok?
    decreases |values|
  {
    if values != [] {
      var tail := values[1..];
      forall j | 0 <= j < |tail|
        ensures encode(tail[j]).Ok?
      {
        assert tail[j] == values[j + 1];
      }
      EncodeEachSucceeds(tail, encode);
    }
  }

  /** The values encode together exactly when each one does, and then into one word each, in order. */
  lemma EncodeValuesEach(values: seq<string>, symbols: map<string, uint32>)
    ensures EncodeValues(values, symbols).Ok? <==> forall j :: 0 <= j < |values| ==> EncodeWord(values[j], symbols).Ok?
    ensures EncodeValues(values, symbols).Ok? ==>
      forall j :: 0 <= j < |values| ==> EncodeWord(values[j], symbols) == Ok(EncodeValues(values, symbols).value[j])
  {
    var encode := v => EncodeWord(v, symbols);
    if EncodeValues(values, symbols).Ok? {
      forall j | 0 <= j < |values|
        ensures EncodeWord(values[j], symbols) == Ok(EncodeValues(values, symbols).value[j])
      {
        EncodeEachAt(values, encode, j);
      }
    } else if forall j :: 0 <= j < |values| ==> EncodeWord(values[j], symbols).Ok? {
      EncodeEachSucceeds(values, encode);
    }
  }

  /** Value j is encoded into word j. */
  lemma EncodeValueAt(values: seq<string>, symbols: map<string, uint32>, j: nat)
    requires j < |values| && EncodeValues(values, symbols).Ok?
    ensures EncodeWord(values[j], symbols) == Ok(EncodeValues(values, symbols).value[j])
  {
    EncodeEachAt(values, v => EncodeWord(v, symbols), j);
  }

  /** The number of nodes among `nodes` that pass 2 encodes into the instruction image. */
  function TextCount(nodes: seq<Node>): nat
    decreases |nodes|
  {
    if nodes == [] then 0 else (if InTextImage(nodes[0]) then 1 else 0) + TextCount(nodes[1..])
  }

  /** The number of `.word` values among `nodes` that pass 2 encodes into the data image. */
  function DataCount(nodes: seq<Node>): nat
    decreases |nodes|
  {
    if nodes == [] then 0 else (if InDataImage(nodes[0]) then |nodes[0].values| else 0) + DataCount(nodes[1..])
  }

  /** The words one node contributes to the instruction and data images. */
  function NodeWords(n: Node, symbols: map<string, uint32>): (r: Result<(seq<uint32>, seq<uint32>), GenError>)
    ensures r.Err? ==> InTextImage(n) || InDataImage(n)
    ensures r.Ok? && !InTextImage(n) ==> r.value.0 == []
    ensures r.Ok? && !InDataImage(n) ==> r.value.1 == []
  {
    if InTextImage(n) then
      var w :- EncodeInstruction(n, symbols);
      Ok(([w], []))
    else if InDataImage(n) then
      var ws :- EncodeValues(n.values, symbols);
      Ok(([], ws))
    else
      Ok(([], []))
  }

  lemma TextNodeWords(n: Node, symbols: map<string, uint32>)
    requires InTextImage(n) && NodeWords(n, symbols).Ok?
    ensures EncodeInstruction(n, symbols).Ok? && NodeWords(n, symbols).value == ([EncodeInstruction(n, symbols).value], [])
  {
  }

  lemma DataNodeWords(n: Node, symbols: map<string, uint32>)
    requires InDataImage(n) && NodeWords(n, symbols).Ok?
    ensures EncodeValues(n.values, symbols).Ok? && NodeWords(n, symbols).value == ([], EncodeValues(n.values, symbols).value)
  {
  }

  /** The words of a stretch of nodes, for the instruction image and for the data image. */
  type ImageWords = (seq<uint32>, seq<uint32>)

  /** The words of `nodes`, one node after the other, each node's given by `words`; or the first error. */
  function Layout(nodes: seq<Node>, words: Node -> Result<ImageWords, GenError>): Result<ImageWords, GenError>
    decreases |nodes|
  {
    if nodes == [] then Ok(([], []))
    else
      var head :- words(nodes[0]);
      var rest :- Layout(nodes[1..], words);
      Ok((head.0 + rest.0, head.1 + rest.1))
  }

  /** The words `pass2` writes to the instruction and data images, or the first error. */
  function Pass2Words(nodes: seq<Node>, symbols: map<string, uint32>): (r: Result<ImageWords, GenError>)
    ensures r.Ok? <==> forall i :: 0 <= i < |nodes| ==> NodeWords(nodes[i], symbols).Ok?
  {
    LayoutSucceeds(nodes, n => NodeWords(n, symbols));
    Layout(nodes, n => NodeWords(n, symbols))
  }

  /** Laying out two stretches of nodes one after the other concatenates their words. */
  lemma {:induction false} LayoutSplit(a: seq<Node>, b: seq<Node>, words: Node -> Result<ImageWords, GenError>)
    ensures Layout(a + b, words).Ok? <==> Layout(a, words).Ok? && Layout(b, words).Ok?
    ensures Layout(a + b, words).Ok? ==>
      Layout(a + b, words).value ==
        (Layout(a, words).value.0 + Layout(b, words).value.0, Layout(a, words).value.1 + Layout(b, words).value.1)
    decreases |a|
  {
    if a == [] {
      assert a + b == b;
      if Layout(b, words).Ok? {
        assert [] + Layout(b, words).value.0 == Layout(b, words).value.0;
        assert [] + Layout(b, words).value.1 == Layout(b, words).value.1;
      }
    } else {
      assert (a + b)[0] == a[0] && (a + b)[1..] == a[1..] + b;
      LayoutSplit(a[1..], b, words);
      var head := words(a[0]);
      if head.Ok? && Layout(a[1..], words).Ok? && Layout(b, words).Ok? {
        var (t, d) := head.value;
        var (t1, d1) := Layout(a[1..], words).value;
        var (t2, d2) := Layout(b, words).value;
        assert t + (t1 + t2) == (t + t1) + t2;
        assert d + (d1 + d2) == (d + d1) + d2;
      }
    }
  }

  /** The words of one node have the shape pass 2 sized them by. */
  predicate Shaped(n: Node, w: Result<ImageWords, GenError>) {
    w.Ok? ==>
      && |w.value.0| == (if InTextImage(n) then 1 else 0)
      && |w.value.1| == (if InDataImage(n) then |n.values| else 0)
  }

  /** When every node's words have that shape, the laid-out images have the sizes the scan counts. */
  lemma {:induction false} LayoutSizes(nodes: seq<Node>, words: Node -> Result<ImageWords, GenError>)
    requires Layout(nodes, words).Ok?
    requires forall k :: 0 <= k < |nodes| ==> Shaped(nodes[k], words(nodes[k]))
    ensures |Layout(nodes, words).value.0| == TextCount(nodes)
    ensures |Layout(nodes, words).value.1| == DataCount(nodes)
    decreases |nodes|
  {
    if nodes != [] {
      var tail := nodes[1..];
      forall k | 0 <= k < |tail|
        ensures Shaped(tail[k], words(tail[k]))
      {
        assert tail[k] == nodes[k + 1];
      }
      LayoutSizes(tail, words);
    }
  }

  /** The layout succeeds exactly when every node's words do. */
  lemma {:induction false} LayoutSucceeds(nodes: seq<Node>, words: Node -> Result<ImageWords, GenError>)
    ensures Layout(nodes, words).Ok? <==> forall k :: 0 <= k < |nodes| ==> words(nodes[k]).Ok?
    decreases |nodes|
  {
    if nodes != [] {
      var tail := nodes[1..];
      LayoutSucceeds(tail, words);
      assert forall k :: 0 <= k < |tail| ==> tail[k] == nodes[k + 1];
    }
  }

  /** Node i's words follow the words of the nodes before it, in both images. */
  lemma LayoutAt(nodes: seq<Node>, words: Node -> Result<ImageWords, GenError>, i: nat)
    requires Layout(nodes, words).Ok? && i < |nodes|
    ensures Layout(nodes[..i], words).Ok? && words(nodes[i]).Ok?
    ensures Slot(Layout(nodes, words).value.0, |Layout(nodes[..i], words).value.0|, words(nodes[i]).value.0)
    ensures Slot(Layout(nodes, words).value.1, |Layout(nodes[..i], words).value.1|, words(nodes[i]).value.1)
  {
    var before := nodes[..i];
    var after := nodes[i..];
    assert nodes == before + after;
    LayoutSplit(before, after, words);
    assert after[0] == nodes[i];
    LayoutCons(after, words);
    SlotOfConcat(Layout(before, words).value.0, words(nodes[i]).value.0, Layout(after[1..], words).value.0);
    SlotOfConcat(Layout(before, words).value.1, words(nodes[i]).value.1, Layout(after[1..], words).value.1);
  }

  /** The layout of a non-empty stretch: the first node's words, then the rest's. */
  lemma LayoutCons(nodes: seq<Node>, words: Node -> Result<ImageWords, GenError>)
    requires nodes != [] && Layout(nodes, words).Ok?
    ensures words(nodes[0]).Ok? && Layout(nodes[1..], words).Ok?
    ensures Layout(nodes, words).value.0 == words(nodes[0]).value.0 + Layout(nodes[1..], words).value.0
    ensures Layout(nodes, words).value.1 == words(nodes[0]).value.1 + Layout(nodes[1..], words).value.1
  {
  }

  /** `s` holds `part` from position `at` on. */
  predicate Slot<T(==)>(s: seq<T>, at: nat, part: seq<T>) {
    at + |part| <= |s| && s[at..at + |part|] == part
  }

  lemma SlotAt<T>(s: seq<T>, at: nat, part: seq<T>, j: nat)
    requires Slot(s, at, part) && j < |part|
    ensures at + j < |s| && s[at + j] == part[j]
  {
    assert s[at..at + |part|][j] == s[at + j];
  }

  lemma SlotOfConcat<T>(a: seq<T>, part: seq<T>, b: seq<T>)
    ensures Slot(a + (part + b), |a|, part)
  {
    assert (a + (part + b))[|a|..|a| + |part|] == part;
  }

  /** The words of a node have the shape the size scan counts. */
  lemma NodeWordsShaped(n: Node, symbols: map<string, uint32>)
    ensures Shaped(n, NodeWords(n, symbols))
  {
  }

  /** A node's words exist exactly when its instruction, or each of its `.word` values, encodes. */
  lemma NodeWordsSucceed(n: Node, symbols: map<string, uint32>)
    ensures NodeWords(n, symbols).Ok? <==>
      && (InTextImage(n) ==> EncodeInstruction(n, symbols).Ok?)
      && (InDataImage(n) ==> forall j :: 0 <= j < |n.values| ==> EncodeWord(n.values[j], symbols).Ok?)
  {
    if InDataImage(n) {
      EncodeValuesEach(n.values, symbols);
    }
  }

  /** The sizes the scan of `pass2` counts for the nodes before node i, laid out. */
  lemma Pass2Before(nodes: seq<Node>, symbols: map<string, uint32>, i: nat)
    requires Pass2Words(nodes, symbols).Ok? && i < |nodes|
    ensures Pass2Words(nodes[..i], symbols).Ok?
    ensures |Pass2Words(nodes[..i], symbols).value.0| == TextCount(nodes[..i])
    ensures |Pass2Words(nodes[..i], symbols).value.1| == DataCount(nodes[..i])
  {
    var words := n => NodeWords(n, symbols);
    LayoutAt(nodes, words, i);
    forall k | 0 <= k < i
      ensures Shaped(nodes[..i][k], words(nodes[..i][k]))
    {
      NodeWordsShaped(nodes[..i][k], symbols);
    }
    LayoutSizes(nodes[..i], words);
  }

  /**
   * Pass 2 fills the images exactly as the size scan measured them: the instruction image holds
   * one word per instruction placed in TEXT, the data image one word per value of each `.word`
   * placed in DATA.
   */
  lemma Pass2Fills(nodes: seq<Node>, symbols: map<string, uint32>)
    requires Pass2Words(nodes, symbols).Ok?
    ensures |Pass2Words(nodes, symbols).value.0| == TextCount(nodes)
    ensures |Pass2Words(nodes, symbols).value.1| == DataCount(nodes)
  {
    var words := n => NodeWords(n, symbols);
    forall k | 0 <= k < |nodes|
      ensures Shaped(nodes[k], words(nodes[k]))
    {
      NodeWordsShaped(nodes[k], symbols);
    }
    LayoutSizes(nodes, words);
  }

  /**
   * The word of instruction node i is the instruction image's word number `TextCount(nodes[..i])`,
   * and it is the instruction's encoding.
   */
  lemma Pass2TextOrder(nodes: seq<Node>, symbols: map<string, uint32>, i: nat)
    requires Pass2Words(nodes, symbols).Ok? && i < |nodes| && InTextImage(nodes[i])
    ensures TextCount(nodes[..i]) < |Pass2Words(nodes, symbols).value.0|
    ensures EncodeInstruction(nodes[i], symbols) == Ok(Pass2Words(nodes, symbols).value.0[TextCount(nodes[..i])])
  {
    var words := n => NodeWords(n, symbols);
    LayoutAt(nodes, words, i);
    Pass2Before(nodes, symbols, i);
    TextNodeWords(nodes[i], symbols);
    var text := Pass2Words(nodes, symbols).value.0;
    var k := TextCount(nodes[..i]);
    assert text[k..k + 1] == [EncodeInstruction(nodes[i], symbols).value];
    assert text[k] == text[k..k + 1][0];
  }

  /**
   * The values of `.word` node i are the data image's words from number `DataCount(nodes[..i])`
   * on, encoded in order.
   */
  lemma Pass2DataOrder(nodes: seq<Node>, symbols: map<string, uint32>, i: nat)
    requires Pass2Words(nodes, symbols).Ok? && i < |nodes| && InDataImage(nodes[i])
    ensures EncodeValues(nodes[i].values, symbols).Ok?
    ensures Slot(Pass2Words(nodes, symbols).value.1, DataCount(nodes[..i]), EncodeValues(nodes[i].values, symbols).value)
  {
    var words := n => NodeWords(n, symbols);
    LayoutAt(nodes, words, i);
    Pass2Before(nodes, symbols, i);
    assert words(nodes[i]) == NodeWords(nodes[i], symbols);
    DataNodeWords(nodes[i], symbols);
  }

  /**
   * Value j of `.word` node i is the data image's word number `at + j`, where `at` is
   * `DataCount(nodes[..i])`: its encoding.
   */
  lemma Pass2DataValue(nodes: seq<Node>, symbols: map<string, uint32>, i: nat, j: nat, at: nat)
    requires Pass2Words(nodes, symbols).Ok?
    requires i < |nodes| && InDataImage(nodes[i]) && j < |nodes[i].values| && at == DataCount(nodes[..i])
    ensures at + j < |Pass2Words(nodes, symbols).value.1|
    ensures EncodeWord(nodes[i].values[j], symbols) == Ok(Pass2Words(nodes, symbols).value.1[at + j])
  {
    Pass2DataOrder(nodes, symbols, i);
    EncodeValueAt(nodes[i].values, symbols, j);
    SlotAt(Pass2Words(nodes, symbols).value.1, at, EncodeValues(nodes[i].values, symbols).value, j);
  }

  /**
   * Pass 2 succeeds exactly when every instruction placed in TEXT encodes and every value of
   * every `.word` placed in DATA encodes.
   */
  lemma Pass2Succeeds(nodes: seq<Node>, symbols: map<string, uint32>)
    ensures Pass2Words(nodes, symbols).Ok? <==>
      && (forall i :: 0 <= i < |nodes| && InTextImage(nodes[i]) ==> EncodeInstruction(nodes[i], symbols).Ok?)
      && (forall i, j :: 0 <= i < |nodes| && InDataImage(nodes[i]) && 0 <= j < |nodes[i].values| ==>
            EncodeWord(nodes[i].values[j], symbols).Ok?)
  {
    var words := n => NodeWords(n, symbols);
    LayoutSucceeds(nodes, words);
    forall k | 0 <= k < |nodes| {
      NodeWordsSucceed(nodes[k], symbols);
    }
  }

  /** The whole outcome, given the words already written and the outcome of the remaining nodes. */
  function AfterWritten(text: seq<uint32>, data: seq<uint32>, rest: Result<(seq<uint32>, seq<uint32>), GenError>)
    : Result<(seq<uint32>, seq<uint32>), GenError>
  {
    match rest
    case Ok((t, d)) => Ok((text + t, data + d))
    case Err(e) => Err(e)
  }

  /** `pass2`'s two images. */
  datatype BinaryOutput = BinaryOutput(instructions: array<byte>, data: array<byte>)

  // ---------------------------------------------------------------------------
  // Pass 2, filling the buffers

  lemma AfterNothingWritten(rest: Result<(seq<uint32>, seq<uint32>), GenError>)
    ensures AfterWritten([], [], rest) == rest
  {
    if rest.Ok? {
      assert [] + rest.value.0 == rest.value.0 && [] + rest.value.1 == rest.value.1;
    }
  }

  /** Writing the words of one node moves them, or its error, from the outcome of the rest to the whole. */
  lemma AfterWrittenNode(text: seq<uint32>, data: seq<uint32>, nodes: seq<Node>, symbols: map<string, uint32>)
    requires nodes != []
    ensures var h := NodeWords(nodes[0], symbols);
      AfterWritten(text, data, Pass2Words(nodes, symbols)) ==
        if h.Ok? then AfterWritten(text + h.value.0, data + h.value.1, Pass2Words(nodes[1..], symbols)) else Err(h.error)
  {
    if NodeWords(nodes[0], symbols).Ok? {
      AfterWrittenOne(text, data, nodes, symbols);
    }
  }

  /** Writing the words of one node moves them from the outcome of the rest to the words written. */
  lemma AfterWrittenOne(text: seq<uint32>, data: seq<uint32>, nodes: seq<Node>, symbols: map<string, uint32>)
    requires nodes != [] && NodeWords(nodes[0], symbols).Ok?
    ensures var (t, d) := NodeWords(nodes[0], symbols).value;
      AfterWritten(text, data, Pass2Words(nodes, symbols)) == AfterWritten(text + t, data + d, Pass2Words(nodes[1..], symbols))
  {
    var (t, d) := NodeWords(nodes[0], symbols).value;
    var rest := Pass2Words(nodes[1..], symbols);
    if rest.Ok? {
      assert text + (t + rest.value.0) == text + t + rest.value.0;
      assert data + (d + rest.value.1) == data + d + rest.value.1;
    }
  }

  /** Appending a word to an image appends its four bytes. */
  lemma SerializeAppend(words: seq<uint32>, w: uint32)
    ensures Serialize(words + [w]) == Serialize(words) + BigEndian(w)
  {
    assert (words + [w])[..|words|] == words;
  }

  /** The whole outcome of `EncodeValues`, given the words already encoded and the outcome for the rest. */
  function AfterEncoded(done: seq<uint32>, rest: Result<seq<uint32>, GenError>): Result<seq<uint32>, GenError> {
    match rest
    case Ok(ws) => Ok(done + ws)
    case Err(e) => Err(e)
  }

  lemma AfterNothingEncoded(rest: Result<seq<uint32>, GenError>)
    ensures AfterEncoded([], rest) == rest
  {
    if rest.Ok? {
      assert [] + rest.value == rest.value;
    }
  }

  /** Encoding one more value moves it, or its error, from the outcome for the rest to the whole. */
  lemma AfterEncodedOne(done: seq<uint32>, values: seq<string>, encode: string -> Result<uint32, GenError>)
    requires values != []
    ensures var w := encode(values[0]);
      AfterEncoded(done, EncodeEach(values, encode)) ==
        if w.Ok? then AfterEncoded(done + [w.value], EncodeEach(values[1..], encode)) else Err(w.error)
  {
    var w := encode(values[0]);
    var rest := EncodeEach(values[1..], encode);
    if w.Ok? && rest.Ok? {
      assert done + ([w.value] + rest.value) == done + [w.value] + rest.value;
    }
  }

  /** The size scan of `pass2`: the byte sizes of the instruction and data images. */
  method ImageSizes(ast: array<Node>) returns (textSize: uint32, dataSize: uint32)
    requires 4 * TextCount(ast[..]) < TWO_32 && 4 * DataCount(ast[..]) < TWO_32
    ensures textSize as int == 4 * TextCount(ast[..]) && dataSize as int == 4 * DataCount(ast[..])
  {
    textSize := 0;
    dataSize := 0;
    assert ast[0..] == ast[..];
    for i := 0 to ast.Length
      invariant textSize + 4 * TextCount(ast[i..]) == 4 * TextCount(ast[..])
      invariant dataSize + 4 * DataCount(ast[i..]) == 4 * DataCount(ast[..])
    {
      var node := ast[i];
      assert ast[i..][0] == node && ast[i..][1..] == ast[i + 1..];
      if node.IsInstruction() {
        if node.section == Text {
          textSize := textSize + 4;
        }
      } else if node.Directive? {
        if node.name == "word" && node.section == Data {
          dataSize := dataSize + 4 * |node.values|;
        }
      }
    }
    assert ast[ast.Length..] == [];
  }

  /**
   * The inner loop of `pass2` over one `.word`: encodes each value with `encode` (which `pass2`
   * gives as `encode_word` with its symbol table) and writes it at `pos` onwards, returning the
   * position after them, or stops at the first value that fails to encode. `written` is the
   * words already in the image before `pos`.
   */
  method WriteValues(data: array<byte>, pos: uint32, values: seq<string>, encode: string -> Result<uint32, GenError>,
                     ghost written: seq<uint32>)
    returns (r: Result<uint32, GenError>)
    requires pos as int == 4 * |written| && pos as int + 4 * |values| <= data.Length < TWO_32
    requires data[..pos] == Serialize(written)
    modifies data
    ensures match EncodeEach(values, encode)
      case Ok(ws) => r.Ok? && r.value as int == pos as int + 4 * |values| && data[..r.value] == Serialize(written + ws)
      case Err(e) => r == Err(e)
  {
    var p := pos;
    ghost var acc := written;
    assert values[0..] == values;
    for j := 0 to |values|
      invariant p as int == pos as int + 4 * j && |acc| == |written| + j
      invariant data[..p] == Serialize(acc)
      invariant AfterEncoded(written, EncodeEach(values, encode)) == AfterEncoded(acc, EncodeEach(values[j..], encode))
    {
      assert values[j..][0] == values[j] && values[j..][1..] == values[j + 1..];
      AfterEncodedOne(acc, values[j..], encode);
      var wordVal := encode(values[j]);
      if wordVal.Err? {
        return Err(wordVal.error);
      }
      WriteUint32(data, p, wordVal.value);
      SerializeAppend(acc, wordVal.value);
      acc := acc + [wordVal.value];
      p := p + 4;
    }
    assert values[|values|..] == [];
    assert acc + [] == acc;
    return Ok(p);
  }

  /**
   * The body of `pass2`'s second loop for one node: writes its words after those already in
   * each image and returns the two new positions, or stops at its first error.
   */
  method WriteNode(node: Node, symbols: map<string, uint32>, instructions: array<byte>, data: array<byte>,
                   textPos: uint32, dataPos: uint32, ghost textWords: seq<uint32>, ghost dataWords: seq<uint32>)
    returns (r: Result<(uint32, uint32), GenError>)
    requires instructions != data
    requires textPos as int == 4 * |textWords| && dataPos as int == 4 * |dataWords|
    requires textPos as int + (if InTextImage(node) then 4 else 0) <= instructions.Length < TWO_32
    requires dataPos as int + (if InDataImage(node) then 4 * |node.values| else 0) <= data.Length < TWO_32
    requires instructions[..textPos] == Serialize(textWords) && data[..dataPos] == Serialize(dataWords)
    modifies instructions, data
    ensures match NodeWords(node, symbols)
      case Ok((t, d)) =>
        && r.Ok? && r.value.0 as int == textPos as int + 4 * |t| && r.value.1 as int == dataPos as int + 4 * |d|
        && instructions[..r.value.0] == Serialize(textWords + t) && data[..r.value.1] == Serialize(dataWords + d)
      case Err(e) => r == Err(e)
  {
    if node.IsInstruction() {
      if node.section == Text {
        var encoded := if node.RType? then EncodeR(node) else EncodeI(node, node.address, symbols);
        if encoded.Err? {
          return Err(encoded.error);
        }
        WriteUint32(instructions, textPos, encoded.value);
        SerializeAppend(textWords, encoded.value);
        assert dataWords + [] == dataWords;
        return Ok((textPos + 4, dataPos));
      }
    } else if node.Directive? {
      if node.name == "word" && node.section == Data {
        var written := WriteValues(data, dataPos, node.values, v => EncodeWord(v, symbols), dataWords);
        if written.Err? {
          return Err(written.error);
        }
        assert textWords + [] == textWords;
        return Ok((textPos, written.value));
      }
    }
    assert textWords + [] == textWords && dataWords + [] == dataWords;
    return Ok((textPos, dataPos));
  }

  /**
   * `pass2`: sizes the images by a first scan, then encodes each instruction placed in TEXT into
   * the instruction image and each value of each `.word` placed in DATA into the data image, in
   * order. The size scan counts in `uint32_t` and writes beyond a buffer are undefined, so the
   * images must stay under 4 GiB.
   */
  method Pass2(ast: array<Node>, table: SymbolTable) returns (r: Result<BinaryOutput, GenError>)
    requires 4 * TextCount(ast[..]) < TWO_32 && 4 * DataCount(ast[..]) < TWO_32
    ensures match Pass2Words(ast[..], table.symbols)
      case Ok((text, data)) =>
        && r.Ok? && fresh(r.value.instructions) && fresh(r.value.data)
        && r.value.instructions[..] == Serialize(text) && r.value.data[..] == Serialize(data)
      case Err(e) => r == Err(e)
  {
    var textSize, dataSize := ImageSizes(ast);
    var instructions := new byte[textSize];
    var data := new byte[dataSize];
    var textPos: uint32 := 0;
    var dataPos: uint32 := 0;
    ghost var textWords: seq<uint32> := [];
    ghost var dataWords: seq<uint32> := [];
    ghost var symbols := table.symbols;
    AfterNothingWritten(Pass2Words(ast[..], symbols));
    assert ast[0..] == ast[..];
    for i := 0 to ast.Length
      invariant textPos as int == 4 * |textWords| && dataPos as int == 4 * |dataWords|
      invariant textPos + 4 * TextCount(ast[i..]) == instructions.Length
      invariant dataPos + 4 * DataCount(ast[i..]) == data.Length
      invariant instructions[..textPos] == Serialize(textWords)
      invariant data[..dataPos] == Serialize(dataWords)
      invariant Pass2Words(ast[..], symbols) == AfterWritten(textWords, dataWords, Pass2Words(ast[i..], symbols))
    {
      var node := ast[i];
      assert ast[i..][0] == node && ast[i..][1..] == ast[i + 1..];
      AfterWrittenNode(textWords, dataWords, ast[i..], symbols);
      var positions := WriteNode(node, table.symbols, instructions, data, textPos, dataPos, textWords, dataWords);
      if positions.Err? {
        return Err(positions.error);
      }
      ghost var (t, d) := NodeWords(node, symbols).value;
      NodeWordsShaped(node, symbols);
      assert TextCount(ast[i..]) == |t| + TextCount(ast[i + 1..]);
      assert DataCount(ast[i..]) == |d| + DataCount(ast[i + 1..]);
      textWords := textWords + t;
      dataWords := dataWords + d;
      textPos, dataPos := positions.value.0, positions.value.1;
    }
    assert ast[ast.Length..] == [];
    assert textWords + [] == textWords && dataWords + [] == dataWords;
    assert instructions[..] == instructions[..textPos] && data[..] == data[..dataPos];
    return Ok(BinaryOutput(instructions, data));
  }

  // ---------------------------------------------------------------------------
  // The two passes together

  /** Appending one node to a stretch adds that node's share to each image count. */
  lemma {:induction false} CountsSnoc(s: seq<Node>, n: Node)
    ensures TextCount(s + [n]) == TextCount(s) + if InTextImage(n) then 1 else 0
    ensures DataCount(s + [n]) == DataCount(s) + if InDataImage(n) then |n.values| else 0
    decreases |s|
  {
    if s == [] {
      assert [] + [n] == [n] && [n][1..] == [];
    } else {
      assert (s + [n])[0] == s[0] && (s + [n])[1..] == s[1..] + [n];
      CountsSnoc(s[1..], n);
    }
  }

  /**
   * Once pass 1 has succeeded, pass 2 keeps exactly the nodes pass 1 gave room to: a placed node
   * goes to the instruction image exactly when it is an instruction and to the data image
   * exactly when it is a `.word`.
   */
  lemma PlacedKinds(nodes: seq<Node>, i: nat)
    requires Pass1Of(nodes).Ok? && i < |nodes|
    ensures var placed := Pass1Of(nodes).value.0;
      && (InTextImage(placed[i]) <==> nodes[i].IsInstruction())
      && (InDataImage(placed[i]) <==> IsWordDirective(nodes[i]))
      && (IsWordDirective(nodes[i]) ==> placed[i].values == nodes[i].values)
  {
    var placed := Pass1Of(nodes).value.0;
    Pass1Places(nodes, i);
    Pass1Succeeds(nodes);
    assert PlacementOk(nodes, i);
    assert placed[i].Unannotated() == nodes[i].Unannotated();
  }

  /**
   * The image counts of pass 2 over the placed nodes before node i equal the counts pass 1
   * advanced its location counters by.
   */
  lemma {:induction false} CountsAgree(nodes: seq<Node>, i: nat)
    requires Pass1Of(nodes).Ok? && i <= |nodes|
    ensures var placed := Pass1Of(nodes).value.0;
      && TextCount(placed[..i]) == InstructionCount(nodes[..i])
      && DataCount(placed[..i]) == WordValueCount(nodes[..i])
    decreases i
  {
    var placed := Pass1Of(nodes).value.0;
    if i > 0 {
      CountsAgree(nodes, i - 1);
      assert placed[..i] == placed[..i - 1] + [placed[i - 1]];
      CountsSnoc(placed[..i - 1], placed[i - 1]);
      assert nodes[..i][..i - 1] == nodes[..i - 1] && nodes[..i][i - 1] == nodes[i - 1];
      PlacedKinds(nodes, i - 1);
    }
  }

  /**
   * The address pass 1 gives an instruction is the byte offset (modulo 2^32) at which pass 2
   * writes its word into the instruction image, and likewise for a `.word` in the data image.
   */
  lemma AddressIsImageOffset(nodes: seq<Node>, i: nat)
    requires Pass1Of(nodes).Ok? && i < |nodes|
    ensures var placed := Pass1Of(nodes).value.0;
      && (nodes[i].IsInstruction() ==> placed[i].address == ToUint32(4 * TextCount(placed[..i])))
      && (IsWordDirective(nodes[i]) ==> placed[i].address == ToUint32(4 * DataCount(placed[..i])))
  {
    var placed := Pass1Of(nodes).value.0;
    Pass1Places(nodes, i);
    PlacedKinds(nodes, i);
    CountsAgree(nodes, i);
  }

  /** Every instruction ends up in the instruction image and every `.word` value in the data image. */
  lemma ImagesHoldEverything(nodes: seq<Node>)
    requires Pass1Of(nodes).Ok?
    ensures var (placed, symbols) := Pass1Of(nodes).value;
      && TextCount(placed) == InstructionCount(nodes)
      && DataCount(placed) == WordValueCount(nodes)
  {
    var placed := Pass1Of(nodes).value.0;
    CountsAgree(nodes, |nodes|);
    assert placed[..|nodes|] == placed && nodes[..|nodes|] == nodes;
  }

  /** A `beq` that encodes names a bound label. */
  lemma EncodedBranchResolves(inst: Node, currentAddr: uint32, symbols: map<string, uint32>)
    requires inst.IType? && inst.isLabelRef && EncodeI(inst, currentAddr, symbols).Ok?
    ensures inst.immOrLabel in symbols
  {
    ImmediateSources(inst, currentAddr, symbols);
  }

  /**
   * A `beq` to a label, once both passes succeed, is written at the byte offset of its own
   * address, and the branch target the hardware computes from its word (the next instruction's
   * address plus four times the sign-extended offset, modulo 2^32) is the label's address.
   */
  lemma BranchesReachLabels(nodes: seq<Node>, placed: seq<Node>, symbols: map<string, uint32>, text: seq<uint32>,
                             data: seq<uint32>, i: nat)
    requires Pass1Of(nodes) == Ok((placed, symbols)) && Pass2Words(placed, symbols) == Ok((text, data))
    requires i < |nodes| && nodes[i].IType? && nodes[i].mnemonic == "beq" && nodes[i].isLabelRef
    ensures var k := TextCount(placed[..i]);
      && k < |text| && placed[i].address == ToUint32(4 * k)
      && nodes[i].immOrLabel in symbols
      && BranchTarget(placed[i].address, text[k]) == symbols[nodes[i].immOrLabel]
  {
    BranchPlaced(nodes, placed, symbols, i);
    BranchWordInImage(placed, symbols, text, data, i);
  }

  /** Pass 1 places a `beq` at a multiple of 4 given by its instruction count, as it does every label. */
  lemma BranchPlaced(nodes: seq<Node>, placed: seq<Node>, symbols: map<string, uint32>, i: nat)
    requires Pass1Of(nodes) == Ok((placed, symbols))
    requires i < |nodes| && nodes[i].IType? && nodes[i].mnemonic == "beq" && nodes[i].isLabelRef
    ensures i < |placed| && placed[i].IType? && placed[i].mnemonic == "beq" && placed[i].isLabelRef
    ensures placed[i].immOrLabel == nodes[i].immOrLabel && placed[i].section == Text
    ensures placed[i].address == ToUint32(4 * TextCount(placed[..i]))
    ensures placed[i].address % 4 == 0 && forall name :: name in symbols ==> symbols[name] % 4 == 0
  {
    Pass1Places(nodes, i);
    assert placed[i].Unannotated() == nodes[i].Unannotated();
    PlacedKinds(nodes, i);
    AddressIsImageOffset(nodes, i);
    Pass1Aligned(nodes);
  }

  /** The text word pass 2 writes for an aligned `beq` branches to its label. */
  lemma BranchWordInImage(placed: seq<Node>, symbols: map<string, uint32>, text: seq<uint32>,
                          data: seq<uint32>, i: nat)
    requires Pass2Words(placed, symbols) == Ok((text, data))
    requires i < |placed| && placed[i].IType? && placed[i].mnemonic == "beq" && placed[i].isLabelRef
    requires placed[i].section == Text && placed[i].address % 4 == 0 && forall name :: name in symbols ==> symbols[name] % 4 == 0
    ensures TextCount(placed[..i]) < |text|
    ensures placed[i].immOrLabel in symbols
    ensures BranchTarget(placed[i].address, text[TextCount(placed[..i])]) == symbols[placed[i].immOrLabel]
  {
    Pass2TextOrder(placed, symbols, i);
    BranchWordTarget(placed[i], symbols, text[TextCount(placed[..i])]);
  }

  /**
   * A `beq` to a label, placed at a multiple of 4 with every label at a multiple of 4, whose
   * encoding is `w`: the target computed from `w` is the label's address.
   */
  lemma BranchWordTarget(inst: Node, symbols: map<string, uint32>, w: uint32)
    requires inst.IType? && inst.mnemonic == "beq" && inst.isLabelRef
    requires EncodeInstruction(inst, symbols) == Ok(w)
    requires inst.address % 4 == 0 && forall name :: name in symbols ==> symbols[name] % 4 == 0
    ensures inst.immOrLabel in symbols
    ensures BranchTarget(inst.address, w) == symbols[inst.immOrLabel]
  {
    EncodedBranchResolves(inst, inst.address, symbols);
    BeqEncodesTarget(inst, inst.address, symbols);
  }

  /**
   * A `.word` value that does not read as a number is a label reference: once both passes
   * succeed, its word in the data image is the address of a label node of that name.
   */
  lemma WordLabelsResolve(nodes: seq<Node>, placed: seq<Node>, symbols: map<string, uint32>, text: seq<uint32>,
                           data: seq<uint32>, i: nat, j: nat, at: nat)
    requires Pass1Of(nodes) == Ok((placed, symbols)) && Pass2Words(placed, symbols) == Ok((text, data))
    requires i < |nodes| && IsWordDirective(nodes[i]) && j < |nodes[i].values|
    requires !StrToLL(nodes[i].values[j]).Converted?
    requires at == DataCount(placed[..i])
    ensures at + j < |data|
    ensures exists m ::
      && 0 <= m < |nodes| && nodes[m].Label? && nodes[m].name == nodes[i].values[j]
      && data[at + j] == placed[m].address
  {
    var v := nodes[i].values[j];
    PlacedKinds(nodes, i);
    Pass2DataValue(placed, symbols, i, j, at);
    EncodeWordSources(v, symbols);
    Pass1Binds(nodes);
    var m :| 0 <= m < |nodes| && nodes[m].Label? && nodes[m].name == v;
    assert data[at + j] == placed[m].address;
  }

}
