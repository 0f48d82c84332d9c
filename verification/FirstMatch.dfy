/** Linear scans for an exact value: the lowest free descriptor, clear frame or empty mapping slot. */
module FirstMatch {

  /** The lowest index of k in s, or |s| when k does not occur. */
  function First<K(==)>(s: seq<K>, k: K): (r: nat)
    ensures r <= |s|
    ensures r < |s| ==> s[r] == k
    ensures forall i :: 0 <= i < r ==> s[i] != k
    ensures r < |s| <==> k in s
  {
    Scan(s, k, 0)
  }

  function Scan<K(==)>(s: seq<K>, k: K, i: nat): (r: nat)
    requires i <= |s|
    ensures i <= r <= |s|
    ensures r < |s| ==> s[r] == k
    ensures forall j :: i <= j < r ==> s[j] != k
    decreases |s| - i
  {
    if i == |s| || s[i] == k then i else Scan(s, k, i + 1)
  }
}
