/**
 * The make dictionary built by `load_car_makes` (identical in both scrapers):
 * a Python dict from the normalised first cell of every non-empty data row
 * to the row's 0-based index after the header. Its key order is the order in
 * which the title parser tries makes; its values are the sort ranks.
 */
module MakeDictionary {
  import opened Wrappers
  import opened Collections
  import opened Text

  /** One CSV row: its cells. */
  type Row = seq<string>

  /** A Python dict from make to rank: the keys in insertion order, and the mapping. */
  datatype MakeDict = MakeDict(keys: seq<string>, rank: map<string, nat>)

  /** What every Python dict satisfies: each key listed once, and the listed keys are the mapped ones. */
  predicate Valid(d: MakeDict) {
    && Distinct(d.keys)
    && (forall k :: k in d.keys ==> k in d.rank)
    && (forall k :: k in d.rank ==> k in d.keys)
  }

  /** `row[0].strip().lower()`: no whitespace at either end and no upper-case letter. */
  function CellKey(cell: string): (k: string)
    ensures |k| <= |cell|
    ensures k == [] || (!IsSpace(k[0]) && !IsSpace(k[|k| - 1]))
    ensures forall j :: 0 <= j < |k| ==> !IsUpper(k[j])
  {
    var t := Strip(cell);
    var l := Lower(t);
    assert l == [] || (!IsSpace(l[0]) && !IsSpace(l[|l| - 1])) by {
      if l != [] {
        assert l[0] == LowerChar(t[0]) && l[|l| - 1] == LowerChar(t[|t| - 1]);
      }
    }
    l
  }

  /** Every key is already in normal form: normalising it again gives the key back. */
  predicate Normalised(d: MakeDict) {
    forall k :: k in d.rank ==> CellKey(k) == k
  }

  /** The key a row stores: its normalised first cell; None for an empty row, which `if row:` skips. */
  function RowKey(row: Row): Option<string> {
    if |row| > 0 then Some(CellKey(row[0])) else None
  }

  /** The key of every data row, in file order. */
  function RowKeys(rows: seq<Row>): (names: seq<Option<string>>)
    ensures |names| == |rows|
    ensures forall j :: 0 <= j < |rows| ==> names[j] == RowKey(rows[j])
  {
    seq(|rows|, j requires 0 <= j < |rows| => RowKey(rows[j]))
  }

  /** The index of the first row whose key is k; |names| when there is none. */
  function FirstIndex(names: seq<Option<string>>, k: string): (r: nat)
    ensures r <= |names|
    ensures r < |names| ==> names[r] == Some(k)
    ensures forall j :: 0 <= j < r ==> names[j] != Some(k)
  {
    if names == [] then 0
    else if names[0] == Some(k) then 0
    else 1 + FirstIndex(names[1..], k)
  }

  /** The mapped keys are those some of the first n rows store. */
  ghost predicate Membership(d: MakeDict, names: seq<Option<string>>, n: nat) {
    forall k :: k in d.rank <==> FirstIndex(names, k) < n
  }

  /** Each key is mapped to the last of the first n rows storing it. */
  ghost predicate RanksLast(d: MakeDict, names: seq<Option<string>>, n: nat)
    requires n <= |names|
  {
    forall k :: k in d.rank ==>
      && d.rank[k] < n
      && names[d.rank[k]] == Some(k)
      && forall j :: d.rank[k] < j < n ==> names[j] != Some(k)
  }

  /** The keys are listed in the order of the first row storing each. */
  ghost predicate FirstOrder(d: MakeDict, names: seq<Option<string>>) {
    forall p :: 0 <= p < |d.keys| - 1 ==> FirstIndex(names, d.keys[p]) < FirstIndex(names, d.keys[p + 1])
  }

  /** A dictionary holding what the first n rows give. */
  ghost predicate Loaded(d: MakeDict, names: seq<Option<string>>, n: nat)
    requires n <= |names|
  {
    Valid(d) && Membership(d, names, n) && RanksLast(d, names, n) && FirstOrder(d, names)
  }

  /** Keys ordered by first occurrence pair by pair are ordered by it throughout. */
  lemma {:induction false} OrderedThroughout(keys: seq<string>, names: seq<Option<string>>, p: nat, q: nat)
    requires forall i :: 0 <= i < |keys| - 1 ==> FirstIndex(names, keys[i]) < FirstIndex(names, keys[i + 1])
    requires p < q < |keys|
    ensures FirstIndex(names, keys[p]) < FirstIndex(names, keys[q])
    decreases q - p
  {
    if p + 1 < q {
      OrderedThroughout(keys, names, p + 1, q);
    }
  }

  /** An empty row changes nothing; it only uses up its index. */
  lemma LoadedSkip(d: MakeDict, names: seq<Option<string>>, n: nat)
    requires n < |names| && Loaded(d, names, n) && names[n] == None
    ensures Loaded(d, names, n + 1)
  {
    forall k ensures FirstIndex(names, k) != n {
    }
  }

  /** Storing `make` at row n: it is now mapped, and so are exactly the keys of the first n + 1 rows. */
  lemma StoredMembership(d: MakeDict, names: seq<Option<string>>, n: nat, make: string)
    requires n < |names| && Membership(d, names, n) && names[n] == Some(make)
    ensures Membership(MakeDict(d.keys, d.rank[make := n]), names, n + 1)
  {
    forall k | k != make ensures FirstIndex(names, k) != n {
    }
  }

  /** Storing `make` at row n: it is mapped to n, and every other key keeps its last row. */
  lemma StoredRanks(keys: seq<string>, d: MakeDict, names: seq<Option<string>>, n: nat, make: string)
    requires n < |names| && RanksLast(d, names, n) && names[n] == Some(make)
    ensures RanksLast(MakeDict(keys, d.rank[make := n]), names, n + 1)
  {
    var rank' := d.rank[make := n];
    forall k | k in rank' && k != make
      ensures rank'[k] < n + 1 && names[rank'[k]] == Some(k)
      ensures forall j :: rank'[k] < j < n + 1 ==> names[j] != Some(k)
    {
      assert rank'[k] == d.rank[k];
    }
  }

  /** A row storing a known make moves its rank to this row and keeps its place in the order. */
  lemma LoadedUpdate(d: MakeDict, names: seq<Option<string>>, n: nat, make: string)
    requires n < |names| && Loaded(d, names, n) && names[n] == Some(make) && make in d.rank
    ensures Loaded(MakeDict(d.keys, d.rank[make := n]), names, n + 1)
  {
    StoredMembership(d, names, n, make);
    StoredRanks(d.keys, d, names, n, make);
  }

  /** A row storing a new make appends it to the order, with this row as its rank. */
  lemma LoadedAdd(d: MakeDict, names: seq<Option<string>>, n: nat, make: string)
    requires n < |names| && Loaded(d, names, n) && names[n] == Some(make) && make !in d.rank
    ensures Loaded(MakeDict(d.keys + [make], d.rank[make := n]), names, n + 1)
  {
    var d' := MakeDict(d.keys + [make], d.rank[make := n]);
    StoredMembership(d, names, n, make);
    StoredRanks(d'.keys, d, names, n, make);
    AppendedInOrder(d, names, n, make);
    AppendedValid(d, make, n);
  }

  /** A make first stored at row n comes after every key already listed. */
  lemma AppendedInOrder(d: MakeDict, names: seq<Option<string>>, n: nat, make: string)
    requires n < |names| && Membership(d, names, n) && FirstOrder(d, names) && names[n] == Some(make) && make !in d.rank
    requires forall k :: k in d.keys ==> k in d.rank
    ensures FirstOrder(MakeDict(d.keys + [make], d.rank[make := n]), names)
  {
    assert FirstIndex(names, make) == n;
    if |d.keys| > 0 {
      assert d.keys[|d.keys| - 1] in d.keys;
      assert FirstIndex(names, d.keys[|d.keys| - 1]) < n;
    }
  }

  /** Appending a key the dictionary lacks keeps it a valid dict. */
  lemma AppendedValid(d: MakeDict, make: string, n: nat)
    requires Valid(d) && make !in d.rank
    ensures Valid(MakeDict(d.keys + [make], d.rank[make := n]))
  {
    assert make !in d.keys;
  }

  /**
   * `load_car_makes` over the rows of the file. An empty file has no header
   * for `next(reader)` to skip, which raises: None. Otherwise, with `names`
   * the key of each data row, the dictionary holds exactly the keys some data
   * row stores, each mapped to the LAST row storing it, and ordered by the
   * FIRST row storing it.
   */
  method LoadCarMakes(csvRows: seq<Row>) returns (d: Option<MakeDict>)
    ensures d.None? <==> csvRows == []
    ensures d.Some? ==> Valid(d.value) && Normalised(d.value)
    ensures d.Some? ==> var names := RowKeys(csvRows[1..]);
      forall k :: k in d.value.rank <==> FirstIndex(names, k) < |names|
    ensures d.Some? ==> var names := RowKeys(csvRows[1..]);
      forall k :: k in d.value.rank ==>
        && d.value.rank[k] < |names|
        && names[d.value.rank[k]] == Some(k)
        && forall j :: d.value.rank[k] < j < |names| ==> names[j] != Some(k)
    ensures d.Some? ==> var names := RowKeys(csvRows[1..]);
      forall p, q :: 0 <= p < q < |d.value.keys| ==>
        FirstIndex(names, d.value.keys[p]) < FirstIndex(names, d.value.keys[q])
  {
    if csvRows == [] {
      return None;
    }
    var data := csvRows[1..];
    ghost var names := RowKeys(data);
    var keys: seq<string> := [];
    var rank: map<string, nat> := map[];
    for index := 0 to |data|
      invariant Loaded(MakeDict(keys, rank), names, index)
      invariant Normalised(MakeDict(keys, rank))
    {
      var row := data[index];
      if |row| > 0 {
        var make := CellKey(row[0]);
        CellKeyIdempotent(row[0]);
        if make !in rank {
          LoadedAdd(MakeDict(keys, rank), names, index, make);
          keys := keys + [make];
        } else {
          LoadedUpdate(MakeDict(keys, rank), names, index, make);
        }
        rank := rank[make := index];
      } else {
        LoadedSkip(MakeDict(keys, rank), names, index);
      }
    }
    forall p, q | 0 <= p < q < |keys| ensures FirstIndex(names, keys[p]) < FirstIndex(names, keys[q]) {
      OrderedThroughout(keys, names, p, q);
    }
    d := Some(MakeDict(keys, rank));
  }

  /** Normalising a stored key again changes nothing, so a make taken from the dictionary finds its own rank. */
  lemma CellKeyIdempotent(cell: string)
    ensures CellKey(CellKey(cell)) == CellKey(cell)
  {
    var l := CellKey(cell);
    StripTrimmed(l);
    LowerIdempotent(Strip(cell));
  }
}
