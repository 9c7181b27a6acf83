/** The Python values and dictionaries the track-argument helpers handle: a handful of value
    kinds with their `str()`, and a `dict` as its items in insertion order. */
module PyData {
  import opened Results
  import opened PyStr

  /** The values a track-argument dictionary holds. */
  datatype Value = VNone | VBool(b: bool) | VInt(i: int) | VStr(s: string)

  /** `str(v)`, which is also what `f"{v}"` produces. */
  function Str(v: Value): string {
    match v
    case VNone => "None"
    case VBool(b) => if b then "True" else "False"
    case VInt(i) => IntToStr(i)
    case VStr(s) => s
  }

  /** A `dict[str, Any]` as the list of its items, in insertion order. */
  type Dict = seq<(string, Value)>

  function Keys(d: Dict): (r: seq<string>)
    ensures |r| == |d| && forall i :: 0 <= i < |d| ==> r[i] == d[i].0
  {
    seq(|d|, i requires 0 <= i < |d| => d[i].0)
  }

  /** No key occurs twice, as in every Python dict. */
  predicate UniqueKeys(d: Dict) {
    forall i, j :: 0 <= i < j < |d| ==> d[i].0 != d[j].0
  }

  /** `d.get(k)`: the value stored under `k`, if any. */
  function Get(d: Dict, k: string): (r: Option<Value>)
    ensures r.None? <==> k !in Keys(d)
    ensures r.Some? ==> exists i :: 0 <= i < |d| && d[i] == (k, r.value)
  {
    match IndexOf(Keys(d), k, 0)
    case None => None
    case Some(i) => Some(d[i].1)
  }

  lemma GetAt(d: Dict, i: nat)
    requires UniqueKeys(d) && i < |d|
    ensures Get(d, d[i].0) == Some(d[i].1)
  {
    IndexOfIs(Keys(d), d[i].0, 0, i);
  }

  /** `d[k] = v`: an existing key keeps its place and takes the new value; a new key goes last. */
  function Set(d: Dict, k: string, v: Value): (r: Dict)
    requires UniqueKeys(d)
    ensures UniqueKeys(r)
    ensures Get(r, k) == Some(v)
    ensures forall k' :: k' != k ==> Get(r, k') == Get(d, k')
    ensures Keys(r) == if k in Keys(d) then Keys(d) else Keys(d) + [k]
  {
    match IndexOf(Keys(d), k, 0)
    case None =>
      var r := d + [(k, v)];
      assert Keys(r) == Keys(d) + [k];
      forall k' | k' != k ensures Get(r, k') == Get(d, k') {
        if k' in Keys(d) {
          var i := IndexOf(Keys(d), k', 0).value;
          IndexOfIs(Keys(r), k', 0, i);
        }
      }
      IndexOfIs(Keys(r), k, 0, |d|);
      r
    case Some(i) =>
      var r := d[i := (k, v)];
      assert Keys(r) == Keys(d);
      GetAt(r, i);
      forall k' | k' != k ensures Get(r, k') == Get(d, k') {
        if k' in Keys(d) {
          var j := IndexOf(Keys(d), k', 0).value;
          IndexOfIs(Keys(r), k', 0, j);
        }
      }
      r
  }

  /** `d.pop(k, None)` for its effect on `d`: the item under `k`, if any, is removed. */
  function Pop(d: Dict, k: string): (r: Dict)
    requires UniqueKeys(d)
    ensures UniqueKeys(r)
    ensures Get(r, k) == None
    ensures forall k' :: k' != k ==> Get(r, k') == Get(d, k')
    ensures k !in Keys(d) ==> r == d
    ensures k in Keys(d) ==> |r| == |d| - 1
  {
    match IndexOf(Keys(d), k, 0)
    case None => d
    case Some(i) =>
      var r := d[..i] + d[i + 1..];
      RemoveAtKeys(d, i);
      forall k' | k' != k ensures Get(r, k') == Get(d, k') {
        RemoveAtGet(d, i, k');
      }
      r
  }

  /** Removing the item at position `i` keeps the keys unique and drops exactly its key. */
  lemma RemoveAtKeys(d: Dict, i: nat)
    requires UniqueKeys(d) && i < |d|
    ensures var r := d[..i] + d[i + 1..];
      UniqueKeys(r) && d[i].0 !in Keys(r) && |r| == |d| - 1
  {
    var r := d[..i] + d[i + 1..];
    assert forall j :: 0 <= j < |r| ==> r[j] == if j < i then d[j] else d[j + 1];
  }

  /** Removing the item at position `i` leaves every other key's value as it was. */
  lemma RemoveAtGet(d: Dict, i: nat, k: string)
    requires UniqueKeys(d) && i < |d| && k != d[i].0
    ensures Get(d[..i] + d[i + 1..], k) == Get(d, k)
  {
    var r := d[..i] + d[i + 1..];
    assert forall j :: 0 <= j < |r| ==> r[j] == if j < i then d[j] else d[j + 1];
    RemoveAtKeys(d, i);
    if k in Keys(d) {
      var j := IndexOf(Keys(d), k, 0).value;
      assert j != i;
      GetAt(r, if j < i then j else j - 1);
      GetAt(d, j);
    } else {
      assert k !in Keys(r);
    }
  }

  /** A dictionary the callee changes in place, shared with its caller. */
  class DictRef {
    var items: Dict

    constructor (items: Dict)
      ensures this.items == items
    {
      this.items := items;
    }
  }
}
