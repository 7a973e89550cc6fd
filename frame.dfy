/** The column header of a pandas `DataFrame`, which the merge code changes in
    place: `rename(columns=..., inplace=True)`, `insert` and `del`. Only the
    column names are modelled; the cells follow their column. */
module Frames {
  import opened Common

  /** `columns` with every occurrence of `name` removed. */
  function Without(columns: seq<string>, name: string): (r: seq<string>)
    ensures forall x :: x in r <==> x in columns && x != name
    ensures |r| <= |columns|
  {
    if columns == [] then []
    else
      var last := columns[|columns| - 1];
      assert columns == columns[..|columns| - 1] + [last];
      Without(columns[..|columns| - 1], name) + (if last != name then [last] else [])
  }

  /** Each column that `mapping` names takes its new name, in place. */
  function Renamed(columns: seq<string>, mapping: map<string, string>): (r: seq<string>)
    ensures |r| == |columns|
    ensures forall i :: 0 <= i < |columns| ==>
              r[i] == if columns[i] in mapping then mapping[columns[i]] else columns[i]
  {
    if columns == [] then []
    else
      var c := columns[0];
      [if c in mapping then mapping[c] else c] + Renamed(columns[1..], mapping)
  }

  /** Renaming with a mapping that names no column changes nothing. */
  lemma RenamedNothing(columns: seq<string>, mapping: map<string, string>)
    requires forall c :: c in columns ==> c !in mapping
    ensures Renamed(columns, mapping) == columns
  {
    var r := Renamed(columns, mapping);
    forall i | 0 <= i < |columns| ensures r[i] == columns[i] {
      assert columns[i] in columns;
    }
  }

  /** `name` placed at position `loc`, the columns from there on shifted right. */
  function Inserted(columns: seq<string>, loc: nat, name: string): (r: seq<string>)
    requires loc <= |columns|
    ensures |r| == |columns| + 1 && r[loc] == name
    ensures r[..loc] == columns[..loc] && r[loc + 1..] == columns[loc..]
    ensures forall x :: x in r <==> x == name || x in columns
  {
    assert columns == columns[..loc] + columns[loc..];
    columns[..loc] + [name] + columns[loc..]
  }

  class Frame {
    var columns: seq<string>

    constructor(columns: seq<string>)
      ensures this.columns == columns
    {
      this.columns := columns;
    }

    /** `DataFrame.insert(loc, name, value)`: a name already present is refused
        with a `ValueError` and nothing changes. */
    method Insert(loc: nat, name: string) returns (err: Option<Error>)
      requires loc <= |columns|
      modifies this
      ensures err == if name in old(columns) then Some(DuplicateColumn(name)) else None
      ensures columns == if name in old(columns) then old(columns) else Inserted(old(columns), loc, name)
    {
      if name in columns {
        return Some(DuplicateColumn(name));
      }
      columns := Inserted(columns, loc, name);
      err := None;
    }

    /** `del df[name]`: a missing column raises `KeyError`. */
    method Delete(name: string) returns (err: Option<Error>)
      modifies this
      ensures err == if name in old(columns) then None else Some(MissingKey(name))
      ensures columns == Without(old(columns), name)
    {
      err := if name in columns then None else Some(MissingKey(name));
      columns := Without(columns, name);
    }

    /** `rename(columns=mapping, inplace=True)`. */
    method Rename(mapping: map<string, string>)
      modifies this
      ensures columns == Renamed(old(columns), mapping)
    {
      columns := Renamed(columns, mapping);
    }
  }
}
