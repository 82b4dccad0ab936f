/** The association list of cf-agent/comparray.c: keys to strings, first write wins. */
module CompressedArray {
  import opened Common

  type Cell = (int, string)

  function Lookup(cells: seq<Cell>, key: int): Option<string> {
    if cells == [] then None
    else if cells[0].0 == key then Some(cells[0].1)
    else Lookup(cells[1..], key)
  }

  /** What fixing a value does to the list: prepends a new cell unless the key is there. */
  function Fixed(cells: seq<Cell>, key: int, value: string): seq<Cell> {
    if Lookup(cells, key).Some? then cells else [(key, value)] + cells
  }

  class Cache {
    var cells: seq<Cell>

    constructor ()
      ensures cells == []
    {
      cells := [];
    }

    /** FixCompressedArrayValue: false when the value was already fixed. */
    method Fix(key: int, value: string) returns (fixed: bool)
      modifies this
      ensures fixed == Lookup(old(cells), key).None?
      ensures cells == Fixed(old(cells), key, value)
    {
      var exists' := ElementExists(key);
      if exists' {
        return false;
      }
      cells := [(key, value)] + cells;
      return true;
    }

    /** CompressedArrayElementExists. */
    method ElementExists(key: int) returns (found: bool)
      ensures found == Lookup(cells, key).Some?
    {
      var ap := cells;
      while ap != []
        invariant Lookup(cells, key) == Lookup(ap, key)
        decreases |ap|
      {
        if ap[0].0 == key {
          return true;
        }
        ap := ap[1..];
      }
      return false;
    }

    /** CompressedArrayValue: nothing when the key is missing. */
    method Value(key: int) returns (value: Option<string>)
      ensures value == Lookup(cells, key)
    {
      var ap := cells;
      while ap != []
        invariant Lookup(cells, key) == Lookup(ap, key)
        decreases |ap|
      {
        if ap[0].0 == key {
          return Some(ap[0].1);
        }
        ap := ap[1..];
      }
      return None;
    }
  }

  // ---------------------------------------------------------------- first write wins

  lemma {:induction false} FixedLookup(cells: seq<Cell>, key: int, value: string, k: int)
    ensures Lookup(Fixed(cells, key, value), k)
            == if k == key && Lookup(cells, k).None? then Some(value) else Lookup(cells, k)
  {
    assert ([(key, value)] + cells)[1..] == cells;
  }

  /** The list after a history of writes. */
  function FixAll(cells: seq<Cell>, writes: seq<Cell>): seq<Cell>
    decreases |writes|
  {
    if writes == [] then cells else FixAll(Fixed(cells, writes[0].0, writes[0].1), writes[1..])
  }

  /** After any history a key has the value of its first write and keeps it for ever; the first
      write is what a forward search of the history finds. */
  lemma {:induction false} FirstWriteWins(cells: seq<Cell>, writes: seq<Cell>, k: int)
    ensures Lookup(FixAll(cells, writes), k)
            == if Lookup(cells, k).Some? then Lookup(cells, k) else Lookup(writes, k)
    decreases |writes|
  {
    if writes != [] {
      FixedLookup(cells, writes[0].0, writes[0].1, k);
      FirstWriteWins(Fixed(cells, writes[0].0, writes[0].1), writes[1..], k);
    }
  }

  lemma {:induction false} NotFound(cells: seq<Cell>, key: int)
    ensures Lookup(cells, key).None? <==> forall i | 0 <= i < |cells| :: cells[i].0 != key
  {
    if cells != [] {
      NotFound(cells[1..], key);
      assert forall i | 1 <= i < |cells| :: cells[i] == cells[1..][i - 1];
      if forall i | 0 <= i < |cells| :: cells[i].0 != key {
        assert forall i | 0 <= i < |cells[1..]| :: cells[1..][i] == cells[i + 1];
      }
    }
  }

  predicate Distinct(cells: seq<Cell>) {
    forall i, j | 0 <= i < j < |cells| :: cells[i].0 != cells[j].0
  }

  lemma {:induction false} FixedDistinct(cells: seq<Cell>, key: int, value: string)
    requires Distinct(cells)
    ensures Distinct(Fixed(cells, key, value))
  {
    NotFound(cells, key);
    var next := [(key, value)] + cells;
    assert forall j | 1 <= j < |next| :: next[j] == cells[j - 1];
  }

  /** No key is ever held twice. */
  lemma {:induction false} KeysDistinct(cells: seq<Cell>, writes: seq<Cell>)
    requires Distinct(cells)
    ensures Distinct(FixAll(cells, writes))
    decreases |writes|
  {
    if writes != [] {
      FixedDistinct(cells, writes[0].0, writes[0].1);
      KeysDistinct(Fixed(cells, writes[0].0, writes[0].1), writes[1..]);
    }
  }
}
