/**
 * The symbol table of symbol_table.cpp: a write-once map from label names to addresses.
 *
 * `Bind` states what `add` does to the map as a function; the class `SymbolTable` keeps the
 * map in a field that `Add` updates in place and is proved to follow `Bind`.
 */
module Symbols {
  import opened Wrappers
  import opened Common

  /** `add` of a name that is already bound. */
  datatype SymbolError = DuplicateLabel(name: string)

  /** `add` on a map: a fresh name is bound to the address; a bound name is an error. */
  function Bind(symbols: map<string, uint32>, name: string, addr: uint32): (r: Result<map<string, uint32>, SymbolError>)
    ensures r.Err? <==> name in symbols
    ensures r.Err? ==> r.error == DuplicateLabel(name)
    ensures r.Ok? ==> name in r.value && r.value[name] == addr
  {
    if name in symbols then Err(DuplicateLabel(name)) else Ok(symbols[name := addr])
  }

  /**
   * `add` fails exactly on an already-bound name; otherwise the name gets the address and
   * every other binding stays as it was.
   */
  lemma BindIsWriteOnce(symbols: map<string, uint32>, name: string, addr: uint32)
    ensures Bind(symbols, name, addr).Err? <==> name in symbols
    ensures Bind(symbols, name, addr).Ok? ==>
      var after := Bind(symbols, name, addr).value;
      && after.Keys == symbols.Keys + {name}
      && after[name] == addr
      && forall n :: n in symbols ==> after[n] == symbols[n]
  {
  }

  /** `get` on a map: the bound address, or none. */
  function Lookup(symbols: map<string, uint32>, name: string): (r: Option<uint32>)
    ensures r.Some? <==> name in symbols
    ensures r.Some? ==> r.value == symbols[name]
  {
    if name in symbols then Some(symbols[name]) else None
  }

  /** After a successful `add`, `get` finds the new name at its address and every other name as before. */
  lemma LookupAfterBind(symbols: map<string, uint32>, name: string, addr: uint32, other: string)
    requires Bind(symbols, name, addr).Ok?
    ensures Lookup(Bind(symbols, name, addr).value, other) == if other == name then Some(addr) else Lookup(symbols, other)
  {
  }

  /** A run of `add` calls, stopping at the first duplicate. */
  function BindAll(symbols: map<string, uint32>, adds: seq<(string, uint32)>): Result<map<string, uint32>, SymbolError>
    decreases |adds|
  {
    if adds == [] then Ok(symbols)
    else
      var next :- Bind(symbols, adds[0].0, adds[0].1);
      BindAll(next, adds[1..])
  }

  /** Once bound, a name keeps its address through any run of further `add` calls. */
  lemma {:induction false} BindingsAreStable(symbols: map<string, uint32>, adds: seq<(string, uint32)>)
    ensures BindAll(symbols, adds).Ok? ==>
      forall n :: n in symbols ==> n in BindAll(symbols, adds).value && BindAll(symbols, adds).value[n] == symbols[n]
    decreases |adds|
  {
    if adds != [] {
      var step := Bind(symbols, adds[0].0, adds[0].1);
      if step.Ok? {
        BindingsAreStable(step.value, adds[1..]);
      }
    }
  }

  /** `SymbolTable` */
  class SymbolTable {
    var symbols: map<string, uint32>

    constructor()
      ensures symbols == map[]
    {
      symbols := map[];
    }

    /** `add`: the DuplicateLabel error stands for the exception it throws. */
    method Add(name: string, addr: uint32) returns (r: Outcome<SymbolError>)
      modifies this
      ensures Bind(old(symbols), name, addr) == if r.Pass? then Ok(symbols) else Err(r.error)
      ensures r.Fail? ==> symbols == old(symbols)
    {
      if name in symbols {
        return Fail(DuplicateLabel(name));
      }
      symbols := symbols[name := addr];
      return Pass;
    }

    /** `get`: the bound address, or none. */
    function Get(name: string): (r: Option<uint32>)
      reads this
      ensures r.Some? <==> name in symbols
      ensures r.Some? ==> r.value == symbols[name]
    {
      Lookup(symbols, name)
    }

    /** `exists` */
    predicate Exists(name: string)
      reads this
      ensures Exists(name) <==> Get(name).Some?
    {
      name in symbols
    }
  }
}
