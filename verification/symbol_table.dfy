/** The symbol table: label names and their addresses, in the order the
    labels were defined, in a growable array.

    The pure functions say what the table means (the first entry with a name
    is the one a lookup finds; adding a name that is already there fails);
    the class is the array with its `count` and `capacity` that the C code
    updates in place. */
module SymbolTable {
  import opened Wrappers
  import opened Types

  const INITIAL_CAPACITY: nat := 8

  /** No two entries share a name. */
  predicate Unique(syms: seq<Symbol>)
  {
    forall i, j | 0 <= i < j < |syms| :: syms[i].name != syms[j].name
  }

  /** The address of the first entry named `name`. */
  function Find(syms: seq<Symbol>, name: string): (r: Option<nat>)
    ensures r.None? <==> forall i | 0 <= i < |syms| :: syms[i].name != name
    ensures r.Some? ==>
      exists i | 0 <= i < |syms| ::
        syms[i] == Symbol(name, r.value) && forall k | 0 <= k < i :: syms[k].name != name
  {
    if |syms| == 0 then None
    else if syms[0].name == name then Some(syms[0].address)
    else
      var r := Find(syms[1..], name);
      if r.Some? then
        var i :| 0 <= i < |syms[1..]| && syms[1..][i] == Symbol(name, r.value)
                 && forall k | 0 <= k < i :: syms[1..][k].name != name;
        assert syms[i + 1] == Symbol(name, r.value);
        r
      else r
  }

  /** What `symbol_table_lookup` answers: the address of the label, or -1
      when there is none. */
  function AddressOf(syms: seq<Symbol>, name: string): (r: int)
    ensures r == -1 <==> Find(syms, name).None?
    ensures r != -1 ==> Find(syms, name) == Some(r)
  {
    match Find(syms, name)
    case Some(a) => a
    case None => -1
  }

  /** `symbol_table_add` on the contents: a name that is already defined is
      an error (the C code reports it and exits), otherwise the new entry
      goes at the end. */
  function AddSymbol(syms: seq<Symbol>, name: string, address: nat): (r: Option<seq<Symbol>>)
    ensures r.None? <==> exists i | 0 <= i < |syms| :: syms[i].name == name
    ensures r.Some? ==> r.value == syms + [Symbol(name, address)]
  {
    if Find(syms, name).Some? then None else Some(syms + [Symbol(name, address)])
  }

  /** Looking a name up in a table with one more entry at the end. */
  lemma {:induction false} FindAppend(syms: seq<Symbol>, s: Symbol, name: string)
    ensures Find(syms + [s], name) ==
      if Find(syms, name).Some? then Find(syms, name)
      else if s.name == name then Some(s.address)
      else None
  {
    if |syms| > 0 {
      assert (syms + [s])[1..] == syms[1..] + [s];
      FindAppend(syms[1..], s, name);
    }
  }

  /** Adding keeps the names unique, the new label is then found at its
      address, and every other lookup is unchanged. */
  lemma AddSymbolFound(syms: seq<Symbol>, name: string, address: nat, other: string)
    requires AddSymbol(syms, name, address).Some?
    ensures Unique(syms) ==> Unique(AddSymbol(syms, name, address).value)
    ensures Find(AddSymbol(syms, name, address).value, other) ==
      if other == name then Some(address) else Find(syms, other)
  {
    FindAppend(syms, Symbol(name, address), other);
  }

  class SymbolTable {
    var entries: array<Symbol>
    var count: nat
    var capacity: nat

    ghost predicate Valid()
      reads this, entries
    {
      entries.Length == capacity && count <= capacity && capacity >= INITIAL_CAPACITY &&
      Unique(entries[..count])
    }

    /** The defined labels, in definition order. */
    function Symbols(): seq<Symbol>
      reads this, entries
      requires count <= entries.Length
    {
      entries[..count]
    }

    /** `symbol_table_init`. */
    constructor ()
      ensures Valid() && fresh(entries)
      ensures Symbols() == [] && capacity == INITIAL_CAPACITY
    {
      entries := new Symbol[INITIAL_CAPACITY];
      count := 0;
      capacity := INITIAL_CAPACITY;
    }

    /** `symbol_table_add`: false where the C code exits on a duplicate name.
        A full array is replaced by one of twice the capacity. */
    method Add(name: string, address: nat) returns (ok: bool)
      requires Valid()
      modifies this, entries
      ensures Valid()
      ensures AddSymbol(old(Symbols()), name, address) == if ok then Some(Symbols()) else None
      ensures !ok ==> Symbols() == old(Symbols()) && capacity == old(capacity)
      ensures ok ==> capacity == if old(count) == old(capacity) then 2 * old(capacity) else old(capacity)
      ensures entries == old(entries) || fresh(entries)
    {
      var i := 0;
      while i < count
        invariant 0 <= i <= count
        invariant forall k | 0 <= k < i :: entries[k].name != name
      {
        if entries[i].name == name {
          assert Symbols()[i].name == name;
          return false;
        }
        i := i + 1;
      }
      assert Find(Symbols(), name).None?;
      if count >= capacity {
        Grow();
      }
      Append(name, address);
      ok := true;
    }

    /** Storing a new name at index `count` of an array with room for it. */
    method Append(name: string, address: nat)
      requires Valid() && count < entries.Length && Find(Symbols(), name).None?
      modifies this, entries
      ensures Valid() && entries == old(entries) && capacity == old(capacity)
      ensures Symbols() == old(Symbols()) + [Symbol(name, address)]
    {
      ghost var before := Symbols();
      entries[count] := Symbol(name, address);
      count := count + 1;
      assert Symbols() == before + [Symbol(name, address)];
      AddSymbolFound(before, name, address, name);
    }

    /** The `realloc` of a full table: the same entries in an array of
        twice the capacity. */
    method Grow()
      requires Valid() && count == capacity
      modifies this
      ensures Valid() && fresh(entries) && count < entries.Length
      ensures Symbols() == old(Symbols()) && capacity == 2 * old(capacity)
    {
      var bigger := new Symbol[2 * capacity];
      var j := 0;
      while j < count
        modifies bigger
        invariant 0 <= j <= count <= entries.Length < bigger.Length
        invariant bigger[..j] == entries[..j]
      {
        bigger[j] := entries[j];
        j := j + 1;
      }
      assert bigger[..count] == entries[..count];
      entries := bigger;
      capacity := 2 * capacity;
    }

    /** `symbol_table_lookup`: the address of the label, or -1. */
    method Lookup(name: string) returns (address: int)
      requires count <= entries.Length
      ensures address == AddressOf(Symbols(), name)
    {
      var i := 0;
      while i < count
        invariant 0 <= i <= count
        invariant forall k | 0 <= k < i :: entries[k].name != name
      {
        if entries[i].name == name {
          assert Symbols()[i].name == name;
          FindFirst(Symbols(), i);
          return entries[i].address;
        }
        i := i + 1;
      }
      assert forall k | 0 <= k < count :: Symbols()[k].name != name;
      return -1;
    }
  }

  /** The first entry with a name is the one Find answers with. */
  lemma FindFirst(syms: seq<Symbol>, i: nat)
    requires i < |syms| && forall k | 0 <= k < i :: syms[k].name != syms[i].name
    ensures Find(syms, syms[i].name) == Some(syms[i].address)
  {
  }
}
