/** The record shape shared by the processor and the exporter: a Python
    `dict` from field names to scalar values, kept as its list of entries in
    insertion order (Python dicts remember that order, and the CSV header is
    taken from it). */
module Records {

  /** A scalar field value. Python floats are kept as exact reals: no float
      arithmetic happens on them in the modelled code. */
  datatype Value = Str(s: string) | Int(i: int) | Float(f: real)

  datatype Field = Field(key: string, value: Value)

  /** A dict as its entries, in insertion order. */
  type Dict = seq<Field>

  /** `list(d.keys())`: the keys in insertion order. */
  function Keys(d: Dict): (ks: seq<string>)
    ensures |ks| == |d|
    ensures forall i :: 0 <= i < |d| ==> ks[i] == d[i].key
  {
    seq(|d|, i requires 0 <= i < |d| => d[i].key)
  }

  /** `set(d.keys())`. */
  function KeySet(d: Dict): set<string> {
    set k | k in Keys(d)
  }

  /** A real dict never holds the same key twice. */
  predicate WellFormed(d: Dict) {
    forall i, j :: 0 <= i < j < |d| ==> d[i].key != d[j].key
  }

  /** `d.get(k, default)`. */
  function Get(d: Dict, k: string, default: Value): (v: Value)
    ensures k !in KeySet(d) ==> v == default
  {
    if |d| == 0 then default
    else if d[0].key == k then d[0].value
    else
      assert KeySet(d[1..]) <= KeySet(d) by {
        forall x | x in KeySet(d[1..]) ensures x in KeySet(d) {
          var i :| 0 <= i < |d| - 1 && Keys(d[1..])[i] == x;
          assert Keys(d)[i + 1] == x;
        }
      }
      Get(d[1..], k, default)
  }

  /** In a well-formed dict, looking up the key of entry `i` finds entry `i`'s value. */
  lemma {:induction false} GetAt(d: Dict, i: nat, default: Value)
    requires WellFormed(d) && i < |d|
    ensures Get(d, d[i].key, default) == d[i].value
  {
    if i > 0 {
      assert d[1..][i - 1] == d[i];
      GetAt(d[1..], i - 1, default);
    }
  }

  /** A key of the dict is the key of one of its entries. */
  lemma KeySetAt(d: Dict, k: string)
    requires k in KeySet(d)
    ensures exists i :: 0 <= i < |d| && d[i].key == k
  {
    var i :| 0 <= i < |Keys(d)| && Keys(d)[i] == k;
  }
}
