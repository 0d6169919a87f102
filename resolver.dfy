/** The property resolver's loops over a loaded dataset: the two name
    searches, and the two scans of a property filter that count and then
    store the properties it selects. In the C library these read the
    loaded segments from globals; here the segments are a parameter. */
module Resolver {
  import opened Bytes
  import opened DataFile
  import opened PropertyFilter

  /** `getPropertyIndexRange`: the first property whose name begins with
      `token`. */
  method GetPropertyIndexRange(ds: Dataset, token: seq<byte>) returns (index: int)
    requires NamesWellFormed(ds) && NoNul(token)
    ensures index == FirstPrefixMatch(ds, token)
  {
    var i: nat := 0;
    while i < PropertiesCount(ds)
      invariant i <= PropertiesCount(ds)
      invariant PrefixMatchFrom(ds, token, i) == FirstPrefixMatch(ds, token)
    {
      if StartsWith(PropertyName(ds, i), token) {
        return i;
      }
      i := i + 1;
    }
    return -1;
  }

  /** `getPropertyIndex`: the first property whose name is exactly
      `value`, or -1 when no name is. */
  method GetPropertyIndex(ds: Dataset, value: seq<byte>) returns (index: int)
    requires NamesWellFormed(ds) && NoNul(value)
    ensures -1 <= index < PropertiesCount(ds)
    ensures index >= 0 ==> PropertyName(ds, index) == value
    ensures forall j :: 0 <= j < (if index >= 0 then index else PropertiesCount(ds)) ==>
              PropertyName(ds, j) != value
    ensures index == FirstExactMatch(ds, value)
  {
    var i: nat := 0;
    while i < PropertiesCount(ds)
      invariant i <= PropertiesCount(ds)
      invariant ExactMatchFrom(ds, value, i) == FirstExactMatch(ds, value)
    {
      if PropertyName(ds, i) == value {
        return i;
      }
      i := i + 1;
    }
    return -1;
  }

  /** The first scan of `initSpecificProperties`: the number of the
      filter's tokens that select a property. */
  method CountSelected(ds: Dataset, filter: seq<byte>) returns (count: nat)
    requires NamesWellFormed(ds) && NoNul(filter)
    ensures count == |Selected(ds, Tokens(filter))|
  {
    ghost var selected := ScanSelect(ds, filter, 0, 0);
    var start: nat, end: nat := 0, 0;
    count := 0;
    ghost var counted: seq<nat> := [];
    while end <= |filter|
      invariant start <= end <= |filter| + 1
      invariant end <= |filter| ==> selected == counted + ScanSelect(ds, filter, start, end)
      invariant end == |filter| + 1 ==> selected == counted
      invariant count == |counted|
      decreases |filter| + 1 - end
    {
      var c := if end < |filter| then filter[end] else Nul;
      if c == Pipe || c == Comma || c == Nul {
        var index := GetPropertyIndexRange(ds, filter[start..end]);
        ScanAtSeparator(ds, filter, start, end, counted, selected);
        if index > 0 {
          count := count + 1;
        }
        counted := counted + Keep(index);
        start := end + 1;
      } else {
        ScanInsideToken(ds, filter, start, end, counted, selected);
      }
      end := end + 1;
    }
    ScanSelectIsSelected(ds, filter, 0, 0);
    assert filter[0..] == filter;
  }

  /** The second scan of `initSpecificProperties`: the selected properties,
      and the offsets of their names, stored in new arrays of `count`
      entries. */
  method StoreSelected(ds: Dataset, filter: seq<byte>, count: nat) returns (indices: array<nat>, nameOffsets: array<nat>)
    requires NamesWellFormed(ds) && NoNul(filter)
    requires count == |ScanSelect(ds, filter, 0, 0)|
    ensures fresh(indices) && fresh(nameOffsets)
    ensures indices.Length == count && nameOffsets.Length == count
    ensures indices[..] == ScanSelect(ds, filter, 0, 0)
    ensures forall k :: 0 <= k < count ==>
      indices[k] < PropertiesCount(ds) && nameOffsets[k] == PropertyNameOffset(ds, indices[k])
  {
    ghost var selected := ScanSelect(ds, filter, 0, 0);
    indices := new nat[count];
    nameOffsets := new nat[count];
    var currentIndex: nat := 0;
    var start: nat, end: nat := 0, 0;
    ghost var stored: seq<nat> := [];
    while end <= |filter|
      modifies indices, nameOffsets
      invariant start <= end <= |filter| + 1
      invariant currentIndex == |stored| <= count == |selected|
      invariant indices[..currentIndex] == stored
      invariant end <= |filter| ==> selected == stored + ScanSelect(ds, filter, start, end)
      invariant end == |filter| + 1 ==> selected == stored
      invariant forall k :: 0 <= k < currentIndex ==>
        indices[k] < PropertiesCount(ds) && nameOffsets[k] == PropertyNameOffset(ds, indices[k])
      decreases |filter| + 1 - end
    {
      var c := if end < |filter| then filter[end] else Nul;
      if c == Pipe || c == Comma || c == Nul {
        ScanAtSeparator(ds, filter, start, end, stored, selected);
        currentIndex, stored := StoreToken(ds, filter[start..end], indices, nameOffsets, currentIndex, stored, selected);
        start := end + 1;
      } else {
        ScanInsideToken(ds, filter, start, end, stored, selected);
      }
      end := end + 1;
    }
    assert indices[..currentIndex] == indices[..];
  }

  /** One token of the second scan: its match, when greater than 0, is
      stored as the next entry of the two required-property arrays. */
  method StoreToken(ds: Dataset, token: seq<byte>, indices: array<nat>, nameOffsets: array<nat>,
                    currentIndex: nat, ghost stored: seq<nat>, ghost selected: seq<nat>)
    returns (next: nat, ghost stored': seq<nat>)
    requires NamesWellFormed(ds) && NoNul(token) && indices != nameOffsets
    requires stored + Keep(FirstPrefixMatch(ds, token)) <= selected
    requires currentIndex == |stored| && indices.Length == nameOffsets.Length == |selected|
    requires indices[..currentIndex] == stored
    requires forall k :: 0 <= k < currentIndex ==>
      indices[k] < PropertiesCount(ds) && nameOffsets[k] == PropertyNameOffset(ds, indices[k])
    modifies indices, nameOffsets
    ensures stored' == stored + Keep(FirstPrefixMatch(ds, token))
    ensures next == |stored'| && indices[..next] == stored'
    ensures indices[next..] == old(indices[next..]) && nameOffsets[next..] == old(nameOffsets[next..])
    ensures forall k :: 0 <= k < next ==>
      indices[k] < PropertiesCount(ds) && nameOffsets[k] == PropertyNameOffset(ds, indices[k])
  {
    var index := GetPropertyIndexRange(ds, token);
    next, stored' := currentIndex, stored + Keep(index);
    if index > 0 {
      StoreRequired(ds, indices, nameOffsets, currentIndex, index as nat);
      next := currentIndex + 1;
    }
  }

  /** Stores required property `index`, and the offset of its name, as
      entry `k` of the two required-property arrays. */
  method StoreRequired(ds: Dataset, indices: array<nat>, nameOffsets: array<nat>, k: nat, index: nat)
    requires indices != nameOffsets && k < indices.Length && k < nameOffsets.Length
    requires index < PropertiesCount(ds)
    requires forall j :: 0 <= j < k ==>
      indices[j] < PropertiesCount(ds) && nameOffsets[j] == PropertyNameOffset(ds, indices[j])
    modifies indices, nameOffsets
    ensures indices[..k + 1] == old(indices[..k]) + [index]
    ensures indices[k + 1..] == old(indices[k + 1..]) && nameOffsets[k + 1..] == old(nameOffsets[k + 1..])
    ensures forall j :: 0 <= j < k + 1 ==>
      indices[j] < PropertiesCount(ds) && nameOffsets[j] == PropertyNameOffset(ds, indices[j])
  {
    indices[k] := index;
    nameOffsets[k] := PropertyNameOffset(ds, index);
  }
}
