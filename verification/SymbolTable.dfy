/** The symbol table: names in the order in which they were added. */
module SymbolTable {
  import opened Wrappers
  import opened Pools

  const NSYMBOLS: nat := 1024

  /** The slot of `name`, if it was added. */
  function FindGlob(gsym: seq<string>, name: string): (r: Option<nat>)
    ensures r.Some? ==> r.value < |gsym| && gsym[r.value] == name
    ensures r.None? <==> name !in gsym
  {
    IndexOf(gsym, name)
  }

  /** Add `name` unless it is there; None if it is not and the table is full. */
  function AddGlob(gsym: seq<string>, name: string): (r: Option<seq<string>>)
    ensures r.Some? ==> gsym <= r.value && name in r.value
  {
    Add(gsym, name, NSYMBOLS)
  }

  /** The table after declaring `names` in turn, from an empty one. */
  function Declare(names: seq<string>): Option<seq<string>> {
    AddAll([], names, NSYMBOLS)
  }

  /** Over any sequence of additions: it fails exactly if there are more than 1024 names, and
      otherwise slots and names are in bijection, and the slot of a name is found exactly if
      the name was added. */
  lemma SlotsAreNames(names: seq<string>)
    ensures Declare(names).Some? <==> |Elements(names)| <= 1024
    ensures Declare(names).Some? ==>
              var g := Declare(names).value;
              && Distinct(g) && (forall x :: FindGlob(g, x).Some? <==> x in names)
              && (forall i :: 0 <= i < |g| ==> FindGlob(g, g[i]) == Some(i))
  {
    RunOfAdds([], names, NSYMBOLS);
    assert Elements([]) + Elements(names) == Elements(names);
    if Declare(names).Some? {
      var g := Declare(names).value;
      forall x
        ensures FindGlob(g, x).Some? <==> x in names
      {
        assert x in Elements(g) <==> x in Elements(names);
      }
      forall i | 0 <= i < |g|
        ensures FindGlob(g, g[i]) == Some(i)
      {
        FirstIndex(g, g[i], i);
      }
    }
  }

  // ---------- The table as it runs ----------

  class Table {
    const names: array<string>
    var globs: nat

    constructor ()
      ensures Valid() && fresh(names) && Contents() == []
    {
      names := new string[NSYMBOLS](i => "");
      globs := 0;
    }

    ghost predicate Valid()
      reads this
    {
      names.Length == NSYMBOLS && globs <= NSYMBOLS
    }

    ghost function Contents(): seq<string>
      requires Valid()
      reads this, names
    {
      names[..globs]
    }

    /** `findglob`. */
    method Find(s: string) returns (slot: Option<nat>)
      requires Valid()
      ensures slot == FindGlob(Contents(), s)
    {
      var i := 0;
      while i < globs
        invariant 0 <= i <= globs && s !in Contents()[..i]
      {
        if names[i] == s {
          FirstIndex(Contents(), s, i);
          return Some(i);
        }
        assert Contents()[..i + 1] == Contents()[..i] + [names[i]];
        i := i + 1;
      }
      assert Contents()[..globs] == Contents();
      return None;
    }

    /** `addglob` with `newglob`: the slot of the name, which is the next one if it is new. */
    method Add(name: string) returns (slot: Option<nat>)
      requires Valid()
      modifies this, names
      ensures Valid()
      ensures slot.Some? <==> AddGlob(old(Contents()), name).Some?
      ensures slot.Some? ==>
                Contents() == AddGlob(old(Contents()), name).value && slot == FindGlob(Contents(), name)
    {
      slot := Find(name);
      if slot.Some? {
        return;
      }
      if globs >= NSYMBOLS {
        return None;
      }
      ghost var before := Contents();
      slot := Some(globs);
      names[globs] := name;
      globs := globs + 1;
      assert Contents() == before + [name];
      assert Contents()[..globs - 1] == before;
      FirstIndex(Contents(), name, slot.value);
    }
  }
}
