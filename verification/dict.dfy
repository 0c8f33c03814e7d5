/** String-keyed dictionaries as insertion-ordered association lists, the
    way `Dictionary<string, string>` and `XmlNamespaceManager` enumerate
    their entries: assigning an existing key overwrites it in place, a new
    key is appended. */
module Dictionaries {
  import opened Wrappers

  type Dict = seq<(string, string)>

  predicate UniqueKeys(m: Dict) {
    forall i, j :: 0 <= i < j < |m| ==> m[i].0 != m[j].0
  }

  /** Position of key `k`, if present. */
  function IndexOf(m: Dict, k: string): (r: Option<nat>)
    ensures r.None? <==> forall i :: 0 <= i < |m| ==> m[i].0 != k
    ensures r.Some? ==> r.value < |m| && m[r.value].0 == k
  {
    if |m| == 0 then None
    else if m[0].0 == k then Some(0)
    else
      match IndexOf(m[1..], k)
      case None => None
      case Some(i) => Some(i + 1)
  }

  function Get(m: Dict, k: string): (r: Option<string>)
    ensures UniqueKeys(m) ==> forall v :: r == Some(v) <==> (k, v) in m
  {
    match IndexOf(m, k)
    case None => None
    case Some(i) => Some(m[i].1)
  }

  function KeyPresent(m: Dict, k: string): bool {
    IndexOf(m, k).Some?
  }

  /** `m[k] = v`. */
  function Put(m: Dict, k: string, v: string): (r: Dict)
    requires UniqueKeys(m)
    ensures UniqueKeys(r)
    ensures (k, v) in r
    ensures forall i :: 0 <= i < |r| && r[i].0 != k ==> r[i] in m
    ensures forall i :: 0 <= i < |m| && m[i].0 != k ==> m[i] in r
    ensures IndexOf(m, k).None? ==> r == m + [(k, v)]
    ensures IndexOf(m, k).Some? ==> |r| == |m| && forall i :: 0 <= i < |m| ==> r[i].0 == m[i].0
  {
    match IndexOf(m, k)
    case None => m + [(k, v)]
    case Some(i) =>
      var r := m[i := (k, v)];
      assert r[i] == (k, v);
      assert forall j :: 0 <= j < |m| && j != i ==> r[j] == m[j];
      r
  }

  /** Reading back after `m[k] = v`: `k` maps to `v`, other keys are as
      before. */
  lemma PutGet(m: Dict, k: string, v: string, q: string)
    requires UniqueKeys(m)
    ensures Get(Put(m, k, v), q) == if q == k then Some(v) else Get(m, q)
  {
    var r := Put(m, k, v);
    if q != k {
      if Get(m, q).Some? {
        assert (q, Get(m, q).value) in r;
      }
      if Get(r, q).Some? {
        assert (q, Get(r, q).value) in m;
      }
    }
  }
}
