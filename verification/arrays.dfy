/**
 * The copy-on-write array helpers of the trie: each returns a new array and
 * leaves its input alone. In Dafny sequences are values, so "leaves its
 * input alone" holds by construction; the contracts say what the new array
 * holds, position by position.
 */
module Arrays {

  /** `cloneAndSet(arr, at, val)`: a copy of `arr` with position `at` set to `val`;
      `at == |arr|` appends, which is how a collision node grows. */
  function CloneAndSet<T>(arr: seq<T>, at: nat, val: T): (r: seq<T>)
    requires at <= |arr|
    ensures |r| == if at == |arr| then |arr| + 1 else |arr|
    ensures r[at] == val
    ensures forall i :: 0 <= i < |arr| && i != at ==> r[i] == arr[i]
  {
    if at == |arr| then arr + [val] else arr[at := val]
  }

  /** `spliceIn(arr, at, val)`: `val` inserted before position `at`. */
  function SpliceIn<T>(arr: seq<T>, at: nat, val: T): (r: seq<T>)
    requires at <= |arr|
    ensures |r| == |arr| + 1
    ensures r[at] == val
    ensures forall i :: 0 <= i < at ==> r[i] == arr[i]
    ensures forall i :: at < i < |r| ==> r[i] == arr[i - 1]
  {
    arr[..at] + [val] + arr[at..]
  }

  /** `spliceOut(arr, at)`: position `at` removed. */
  function SpliceOut<T>(arr: seq<T>, at: nat): (r: seq<T>)
    requires at < |arr|
    ensures |r| == |arr| - 1
    ensures forall i :: 0 <= i < at ==> r[i] == arr[i]
    ensures forall i :: at <= i < |r| ==> r[i] == arr[i + 1]
  {
    arr[..at] + arr[at + 1..]
  }

  /** `spliceIn` as written: two copy loops around the inserted value. */
  method SpliceInLoop<T>(arr: seq<T>, at: nat, val: T) returns (out: seq<T>)
    requires at <= |arr|
    ensures |out| == |arr| + 1 && out[at] == val
    ensures forall i :: 0 <= i < at ==> out[i] == arr[i]
    ensures forall i :: at < i < |out| ==> out[i] == arr[i - 1]
  {
    out := [];
    var i := 0;
    while i < at
      invariant i <= at && out == arr[..i]
    {
      out := out + [arr[i]];
      i := i + 1;
    }
    out := out + [val];
    while i < |arr|
      invariant at <= i <= |arr| && out == arr[..at] + [val] + arr[at..i]
    {
      out := out + [arr[i]];
      i := i + 1;
    }
  }

  /** `spliceOut` as written: two copy loops that skip position `at`. */
  method SpliceOutLoop<T>(arr: seq<T>, at: nat) returns (out: seq<T>)
    requires at < |arr|
    ensures |out| == |arr| - 1
    ensures forall i :: 0 <= i < at ==> out[i] == arr[i]
    ensures forall i :: at <= i < |out| ==> out[i] == arr[i + 1]
  {
    out := [];
    var i := 0;
    while i < at
      invariant i <= at && out == arr[..i]
    {
      out := out + [arr[i]];
      i := i + 1;
    }
    i := i + 1;
    while i < |arr|
      invariant at < i <= |arr| && out == arr[..at] + arr[at + 1..i]
    {
      out := out + [arr[i]];
      i := i + 1;
    }
  }

  /** Removing what was just inserted gives the original array back. */
  lemma SpliceOutIn<T>(arr: seq<T>, at: nat, val: T)
    requires at <= |arr|
    ensures SpliceOut(SpliceIn(arr, at, val), at) == arr
  {
    var r := SpliceOut(SpliceIn(arr, at, val), at);
    assert forall i :: 0 <= i < |arr| ==> r[i] == arr[i];
  }

  /** Re-inserting a removed element gives the original array back. */
  lemma SpliceInOut<T>(arr: seq<T>, at: nat)
    requires at < |arr|
    ensures SpliceIn(SpliceOut(arr, at), at, arr[at]) == arr
  {
    var r := SpliceIn(SpliceOut(arr, at), at, arr[at]);
    assert forall i :: 0 <= i < |arr| ==> r[i] == arr[i];
  }
}
