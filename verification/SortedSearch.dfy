/** Binary search for the first element that is not below a bound, as the edge vectors use it. */
module SortedSearch {
  import opened Json
  import opened ProjectionTrie

  method LowerBoundKey(keys: seq<Bytes>, key: Bytes) returns (position: nat)
    requires forall i, j :: 0 <= i < j < |keys| ==> Less(keys[i], keys[j])
    ensures position <= |keys|
    ensures forall i :: 0 <= i < position ==> Less(keys[i], key)
    ensures forall i :: position <= i < |keys| ==> !Less(keys[i], key)
  {
    position := 0;
    var count: nat := |keys|;
    while count > 0
      invariant position + count <= |keys|
      invariant forall i :: 0 <= i < position ==> Less(keys[i], key)
      invariant forall i :: position + count <= i < |keys| ==> !Less(keys[i], key)
    {
      var step := count / 2;
      var less := ByteLess(keys[position + step], key);
      if less {
        forall i | 0 <= i < position + step ensures Less(keys[i], key) {
          LessIsStrictOrder(keys[i], keys[position + step], key);
        }
        position := position + step + 1;
        count := count - (step + 1);
      } else {
        forall i | position + step < i < |keys| ensures !Less(keys[i], key) {
          LessIsStrictOrder(keys[position + step], keys[i], key);
        }
        count := step;
      }
    }
  }

  method LowerBound(values: seq<nat>, value: nat) returns (position: nat)
    requires forall i, j :: 0 <= i < j < |values| ==> values[i] < values[j]
    ensures position <= |values|
    ensures forall i :: 0 <= i < position ==> values[i] < value
    ensures forall i :: position <= i < |values| ==> values[i] >= value
  {
    position := 0;
    var count: nat := |values|;
    while count > 0
      invariant position + count <= |values|
      invariant forall i :: 0 <= i < position ==> values[i] < value
      invariant forall i :: position + count <= i < |values| ==> values[i] >= value
    {
      var step := count / 2;
      if values[position + step] < value {
        position := position + step + 1;
        count := count - (step + 1);
      } else {
        count := step;
      }
    }
  }
}
