/**
  Binary searches for the entry that covers an address.
 */
module Search {
  import opened Wrappers

  ghost predicate Sorted<T(!new)>(data: seq<T>, key: T -> int) {
    forall i, j :: 0 <= i < j < |data| ==> key(data[i]) <= key(data[j])
  }

  /** search_address_key */
  method SearchAddressKey<T(!new)>(data: seq<T>, address: int, key: T -> int) returns (r: Option<nat>)
    ensures r == None <==> data == [] || address < key(data[0])
    ensures r.Some? ==> r.value < |data|
    ensures r.Some? && Sorted(data, key) ==> key(data[r.value]) <= address
    ensures r.Some? && Sorted(data, key) && key(data[r.value]) != address ==>
      forall i :: r.value < i < |data| ==> address < key(data[i])
  {
    var left, right := 0, |data|;
    if right == 0 {
      return None;
    }
    if address < key(data[0]) {
      return None;
    }
    while left + 1 < right
      invariant 0 <= left < right <= |data|
      invariant key(data[left]) <= address
      invariant right < |data| ==> address < key(data[right])
    {
      var v := (left + right) / 2;
      var k := key(data[v]);
      if k == address {
        return Some(v);
      }
      if address < k {
        right := v;
      } else {
        left := v;
      }
    }
    return Some(left);
  }

  /** The entries that have a key are in order. */
  ghost predicate SortedKeys<T(!new)>(data: seq<T>, key: T -> Option<int>) {
    forall i, j :: 0 <= i < j < |data| && key(data[i]).Some? && key(data[j]).Some? ==>
      key(data[i]).value <= key(data[j]).value
  }

  predicate Covers<T>(data: seq<T>, address: int, key: T -> Option<int>, i: int) {
    0 <= i < |data| && key(data[i]).Some? && key(data[i]).value <= address
  }

  ghost predicate NoKeys<T(!new)>(data: seq<T>, key: T -> Option<int>, lo: int, hi: int) {
    forall i :: lo <= i < hi && 0 <= i < |data| ==> key(data[i]) == None
  }

  /** The loops that skip entries without a key. */
  method SkipKeyless<T(!new)>(data: seq<T>, key: T -> Option<int>, lo: nat, hi: nat) returns (v: nat)
    requires lo <= hi <= |data|
    ensures lo <= v <= hi && NoKeys(data, key, lo, v)
    ensures v < hi ==> key(data[v]).Some?
  {
    v := lo;
    while v < hi
      invariant lo <= v <= hi && NoKeys(data, key, lo, v)
    {
      if key(data[v]).Some? {
        break;
      }
      v := v + 1;
    }
  }

  /** search_address_opt_key: binary search over the entries that have a key. */
  method SearchAddressOptKey<T(!new)>(data: seq<T>, address: int, key: T -> Option<int>) returns (r: Option<nat>)
    ensures r.Some? ==> r.value < |data| && key(data[r.value]).Some?
    ensures SortedKeys(data, key) ==> (r == None <==> forall i :: 0 <= i < |data| ==> !Covers(data, address, key, i))
    ensures SortedKeys(data, key) && r.Some? ==> Covers(data, address, key, r.value)
    ensures SortedKeys(data, key) && r.Some? && key(data[r.value]).value != address ==>
      forall i :: 0 <= i < |data| && key(data[i]).Some? ==>
        key(data[i]).value <= key(data[r.value]).value || address < key(data[i]).value
  {
    var right := |data|;
    var left := SkipKeyless(data, key, 0, right);
    if left == right {
      return None;
    }
    if address < key(data[left]).value {
      return None;
    }
    assert Covers(data, address, key, left);
    while left + 1 < right
      invariant 0 <= left < right <= |data|
      invariant Covers(data, address, key, left)
      invariant SortedKeys(data, key) ==>
        forall i :: right <= i < |data| && key(data[i]).Some? ==> address < key(data[i]).value
      decreases right - left
    {
      var saved := (left + right) / 2;
      var v := SkipKeyless(data, key, saved, right);
      if v == right {
        right := saved;
      } else {
        var k := key(data[v]).value;
        if k == address {
          return Some(v);
        }
        if address < k {
          right := v;
        } else {
          left := v;
        }
      }
    }
    return Some(left);
  }
}
