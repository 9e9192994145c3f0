/** Binary search over sorted keys, with the contract of Rust's `slice::binary_search_by`. */
module Search {
  datatype Found = Ok(index: nat) | Err(index: nat)

  ghost predicate Ascending(keys: seq<int>) {
    forall i, j :: 0 <= i < j < |keys| ==> keys[i] <= keys[j]
  }

  /** `Ok` names a position that holds `target`; `Err` names the position to insert it at. */
  function BinarySearch(keys: seq<int>, target: int): (r: Found)
    requires Ascending(keys)
    ensures r.Ok? ==> r.index < |keys| && keys[r.index] == target
    ensures r.Err? ==> r.index <= |keys|
    ensures r.Err? ==> forall i :: 0 <= i < r.index ==> keys[i] < target
    ensures r.Err? ==> forall i :: r.index <= i < |keys| ==> keys[i] > target
  {
    SearchBetween(keys, target, 0, |keys|)
  }

  function SearchBetween(keys: seq<int>, target: int, low: nat, high: nat): (r: Found)
    requires Ascending(keys) && low <= high <= |keys|
    requires forall i :: 0 <= i < low ==> keys[i] < target
    requires forall i :: high <= i < |keys| ==> keys[i] > target
    ensures r.Ok? ==> r.index < |keys| && keys[r.index] == target
    ensures r.Err? ==> r.index <= |keys|
    ensures r.Err? ==> forall i :: 0 <= i < r.index ==> keys[i] < target
    ensures r.Err? ==> forall i :: r.index <= i < |keys| ==> keys[i] > target
    decreases high - low
  {
    if low == high then Err(low)
    else
      var mid := (low + high) / 2;
      if keys[mid] == target then Ok(mid)
      else if keys[mid] < target then SearchBetween(keys, target, mid + 1, high)
      else SearchBetween(keys, target, low, mid)
  }
}
