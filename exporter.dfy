/** `CSVExporter` (exporter.py): the schema-uniformity check run before an
    export, and the export itself as the table it writes: a header row and
    one row per record. How `csv.DictWriter` lays that table out as text is
    not modelled; how it turns a dict into a row is (see `RowOf`). */
module Exporter {
  import opened Wrappers
  import opened Records

  /** An element of the list handed to `validate_data`: a dict, or any other
      Python object (which `isinstance(item, dict)` rejects). */
  datatype Item = Mapping(entries: Dict) | Scalar(v: Value)

  /** The list of dicts the controller holds, as `validate_data` sees it. */
  function AsItems(data: seq<Dict>): (items: seq<Item>)
    ensures |items| == |data|
    ensures forall i :: 0 <= i < |data| ==> items[i] == Mapping(data[i])
  {
    seq(|data|, i requires 0 <= i < |data| => Mapping(data[i]))
  }

  /** `all(isinstance(item, dict) for item in data)`. */
  predicate AllMappings(data: seq<Item>)
    ensures AllMappings(data) <==> forall i :: 0 <= i < |data| ==> data[i].Mapping?
  {
    if |data| == 0 then true
    else data[0].Mapping? && AllMappings(data[1..])
  }

  /** `all(set(item.keys()) == first_keys for item in rest)`. */
  predicate AllKeysAre(rest: seq<Item>, firstKeys: set<string>)
    requires AllMappings(rest)
    ensures AllKeysAre(rest, firstKeys) <==>
      forall i :: 0 <= i < |rest| ==> KeySet(rest[i].entries) == firstKeys
  {
    if |rest| == 0 then true
    else KeySet(rest[0].entries) == firstKeys && AllKeysAre(rest[1..], firstKeys)
  }

  /** `validate_data`: the list is non-empty, holds only dicts, and every
      dict has the key set of the first one (in any order). The
      `isinstance(data, list)` test always passes on a sequence. */
  function ValidateData(data: seq<Item>): (ok: bool)
    ensures ok <==>
      && |data| > 0
      && (forall i :: 0 <= i < |data| ==> data[i].Mapping?)
      && (forall i :: 0 <= i < |data| ==> KeySet(data[i].entries) == KeySet(data[0].entries))
  {
    if |data| == 0 then false
    else if !AllMappings(data) then false
    else if |data| > 1 && !AllKeysAre(data[1..], KeySet(data[0].entries)) then false
    else
      assert forall i :: 1 <= i < |data| ==> data[i] == data[1..][i - 1];
      true
  }

  /** Uniformity does not single out the first record: valid data is data
      whose dicts pairwise share their key sets. */
  lemma ValidateDataPairwise(data: seq<Item>)
    ensures ValidateData(data) <==>
      && |data| > 0
      && (forall i :: 0 <= i < |data| ==> data[i].Mapping?)
      && (forall i, j :: 0 <= i < |data| && 0 <= j < |data| ==>
            KeySet(data[i].entries) == KeySet(data[j].entries))
  {
    if |data| > 0 && forall i :: 0 <= i < |data| ==> data[i].Mapping? {
      if forall i, j :: 0 <= i < |data| && 0 <= j < |data| ==>
           KeySet(data[i].entries) == KeySet(data[j].entries) {
        forall i | 0 <= i < |data| ensures KeySet(data[i].entries) == KeySet(data[0].entries) {
        }
      }
    }
  }

  /** Key order, and the values, play no part in the check: two lists whose
      elements agree on being dicts and on their key sets are judged alike. */
  lemma ValidateDataIgnoresOrder(a: seq<Item>, b: seq<Item>)
    requires |a| == |b|
    requires forall i :: 0 <= i < |a| ==> a[i].Mapping? == b[i].Mapping?
    requires forall i :: 0 <= i < |a| && a[i].Mapping? && b[i].Mapping? ==>
      KeySet(a[i].entries) == KeySet(b[i].entries)
    ensures ValidateData(a) == ValidateData(b)
  {
  }

  /** With one dict there is nothing to compare, so it is always valid. */
  lemma SingleDictValid(d: Dict)
    ensures ValidateData([Mapping(d)])
  {
  }

  /** What `export_to_csv` writes: the header row and the data rows. */
  datatype Table = Table(header: seq<string>, rows: seq<seq<Value>>)

  /** Why `export_to_csv` raised. `NoData` is its own `ValueError`, raised
      before the file is opened; `CannotOpen` is the `IOError` of `open`;
      `FieldsNotInHeader` is the `ValueError` `csv.DictWriter` raises for the
      record at `index` when it has a key the header lacks, after the header
      and the rows before it were written (`written`). */
  datatype ExportError = NoData | CannotOpen | FieldsNotInHeader(index: nat, written: Table)

  /** No key of `d` is missing from `header` (`rowdict.keys() - fieldnames` is empty). */
  predicate KeysWithin(d: Dict, header: seq<string>) {
    forall i :: 0 <= i < |d| ==> d[i].key in header
  }

  /** The row `csv.DictWriter` writes for `d`: its value for each header key,
      the empty string for a key it lacks. */
  function RowOf(header: seq<string>, d: Dict): (row: seq<Value>)
    ensures |row| == |header|
    ensures forall j :: 0 <= j < |header| && header[j] !in KeySet(d) ==> row[j] == Str("")
  {
    seq(|header|, j requires 0 <= j < |header| => Get(d, header[j], Str("")))
  }

  /** A cell of that row under a key the record has holds the record's own
      value for it (`rowdict.get(key, restval)` finds the key). */
  lemma RowOfPresent(header: seq<string>, d: Dict)
    requires WellFormed(d)
    ensures forall j, m :: 0 <= j < |header| && 0 <= m < |d| && d[m].key == header[j] ==>
      RowOf(header, d)[j] == d[m].value
  {
    forall j, m | 0 <= j < |header| && 0 <= m < |d| && d[m].key == header[j]
      ensures RowOf(header, d)[j] == d[m].value
    {
      GetAt(d, m, Str(""));
    }
  }

  /** The index of the first record with a key outside the header, or the
      number of records when there is none. */
  function FirstStray(header: seq<string>, data: seq<Dict>): (k: nat)
    ensures k <= |data|
    ensures forall i :: 0 <= i < k ==> KeysWithin(data[i], header)
    ensures k < |data| ==> !KeysWithin(data[k], header)
  {
    if |data| == 0 then 0
    else if !KeysWithin(data[0], header) then 0
    else 1 + FirstStray(header, data[1..])
  }

  /** `export_to_csv(data, file_path)`; `writable` says whether `open`
      succeeds on the destination. Once open, every write is taken to succeed. */
  function ExportToCsv(data: seq<Dict>, writable: bool): (r: Result<Table, ExportError>)
    ensures r == Err(NoData) <==> |data| == 0
    ensures r == Err(CannotOpen) <==> |data| > 0 && !writable
    ensures r.Ok? <==>
      |data| > 0 && writable && forall i :: 0 <= i < |data| ==> KeysWithin(data[i], Keys(data[0]))
    ensures r.Ok? ==>
      && r.value.header == Keys(data[0])
      && |r.value.rows| == |data|
      && forall i :: 0 <= i < |data| ==> r.value.rows[i] == RowOf(r.value.header, data[i])
    ensures r.Err? && r.error.FieldsNotInHeader? ==>
      && r.error.index < |data|
      && !KeysWithin(data[r.error.index], Keys(data[0]))
      && r.error.written.header == Keys(data[0])
      && |r.error.written.rows| == r.error.index
      && (forall i :: 0 <= i < r.error.index ==> KeysWithin(data[i], Keys(data[0])))
      && forall i :: 0 <= i < r.error.index ==>
           r.error.written.rows[i] == RowOf(r.error.written.header, data[i])
  {
    if |data| == 0 then Err(NoData)
    else if !writable then Err(CannotOpen)
    else
      var header := Keys(data[0]);
      var k := FirstStray(header, data);
      var written := Table(header, seq(k, i requires 0 <= i < k => RowOf(header, data[i])));
      if k < |data| then Err(FieldsNotInHeader(k, written)) else Ok(written)
  }

  /** `dict(zip(header, row))`: how a CSV reader turns a data row back into a record. */
  function Rebuild(header: seq<string>, row: seq<Value>): (d: Dict)
    requires |row| == |header|
    ensures Keys(d) == header
  {
    seq(|header|, j requires 0 <= j < |header| => Field(header[j], row[j]))
  }

  /** Two dicts are equal as mappings: same keys, same value under each key. */
  ghost predicate SameMapping(a: Dict, b: Dict) {
    && KeySet(a) == KeySet(b)
    && forall k :: k in KeySet(a) ==> Get(a, k, Str("")) == Get(b, k, Str(""))
  }

  /** Data that passes `validate_data` exports in full: every record gives one
      row, and every cell holds the record's own value for its header key, so
      the empty-string filler is never used. */
  lemma ExportValidated(data: seq<Dict>, writable: bool)
    requires ValidateData(AsItems(data)) && writable
    ensures ExportToCsv(data, writable).Ok?
    ensures forall i, j :: 0 <= i < |data| && 0 <= j < |data[0]| ==>
      data[0][j].key in KeySet(data[i])
  {
    var header := Keys(data[0]);
    forall i | 0 <= i < |data| ensures KeysWithin(data[i], header) {
      assert AsItems(data)[i].entries == data[i];
      forall m | 0 <= m < |data[i]| ensures data[i][m].key in header {
        assert Keys(data[i])[m] == data[i][m].key;
        assert data[i][m].key in KeySet(data[i]);
      }
    }
    forall i, j | 0 <= i < |data| && 0 <= j < |data[0]| ensures data[0][j].key in KeySet(data[i]) {
      assert AsItems(data)[i].entries == data[i];
      assert Keys(data[0])[j] == data[0][j].key;
    }
  }

  /** Round trip: reading each exported row back against the header gives a
      dict equal, as a mapping, to the record it was written from. */
  lemma ExportRoundTrip(data: seq<Dict>, writable: bool)
    requires ValidateData(AsItems(data)) && writable
    requires forall i :: 0 <= i < |data| ==> WellFormed(data[i])
    ensures ExportToCsv(data, writable).Ok?
    ensures var t := ExportToCsv(data, writable).value;
      |t.rows| == |data| &&
      forall i :: 0 <= i < |data| ==> SameMapping(Rebuild(t.header, t.rows[i]), data[i])
  {
    ExportValidated(data, writable);
    var t := ExportToCsv(data, writable).value;
    forall i | 0 <= i < |data| ensures SameMapping(Rebuild(t.header, t.rows[i]), data[i]) {
      RowRoundTrip(data, i, t);
    }
  }

  /** One row of the round trip. */
  lemma RowRoundTrip(data: seq<Dict>, i: nat, t: Table)
    requires ValidateData(AsItems(data)) && i < |data|
    requires WellFormed(data[0]) && WellFormed(data[i])
    requires t.header == Keys(data[0]) && |t.rows| == |data| && t.rows[i] == RowOf(t.header, data[i])
    requires forall i, j :: 0 <= i < |data| && 0 <= j < |data[0]| ==> data[0][j].key in KeySet(data[i])
    ensures SameMapping(Rebuild(t.header, t.rows[i]), data[i])
  {
    var back := Rebuild(t.header, t.rows[i]);
    assert AsItems(data)[i].entries == data[i];
    assert KeySet(back) == KeySet(data[0]);
    assert WellFormed(back);
    forall k | k in KeySet(back) ensures Get(back, k, Str("")) == Get(data[i], k, Str("")) {
      KeySetAt(back, k);
      var j :| 0 <= j < |back| && back[j].key == k;
      GetAt(back, j, Str(""));
    }
  }
}
