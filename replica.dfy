// The local replica: subscribed variable names and their values, held as two
// index-aligned sequences, and how a SET lands in them.

module Replica {
  import opened ProcessTypes

  /** The first index holding `v`, or -1 when `v` is not there. */
  function IndexOf(names: seq<string>, v: string): (r: int)
    ensures -1 <= r < |names|
    ensures r == -1 <==> v !in names
    ensures 0 <= r ==> names[r] == v && v !in names[..r]
  {
    if |names| == 0 then -1
    else if names[0] == v then 0
    else
      var k := IndexOf(names[1..], v);
      assert k >= 0 ==> names[..k + 1] == [names[0]] + names[1..][..k];
      if k == -1 then -1 else k + 1
  }

  /** The first index is the only index holding `v` with no earlier occurrence. */
  lemma IndexOfUnique(names: seq<string>, v: string, i: nat)
    requires i < |names| && names[i] == v && v !in names[..i]
    ensures IndexOf(names, v) == i
  {
    var k := IndexOf(names, v);
    assert forall j :: 0 <= j < k ==> names[..k][j] == names[j];
    assert forall j :: 0 <= j < i ==> names[..i][j] == names[j];
  }

  /** The replica after writing `val` to the first slot of `v`; unsubscribed names change nothing. */
  function SetValue(values: seq<int>, names: seq<string>, v: string, val: int): (r: seq<int>)
    requires |values| == |names|
    ensures |r| == |values|
  {
    var idx := IndexOf(names, v);
    if idx == -1 then values else values[idx := val]
  }

  /** A SET overwrites exactly the first slot holding its name, and nothing else. */
  lemma SetValueEffect(values: seq<int>, names: seq<string>, v: string, val: int)
    requires |values| == |names|
    ensures forall k :: 0 <= k < |values| ==>
      SetValue(values, names, v, val)[k] == if names[k] == v && v !in names[..k] then val else values[k]
  {
  }

  /** The replica after applying the operations in order. */
  function ApplyAll(values: seq<int>, names: seq<string>, ops: seq<SetOperationFramework>): (r: seq<int>)
    requires |values| == |names|
    ensures |r| == |values|
  {
    if ops == [] then values
    else
      var last := ops[|ops| - 1];
      SetValue(ApplyAll(values, names, ops[..|ops| - 1]), names, last.variable, last.val)
  }

  /** A slot that no operation targets keeps its old value. */
  lemma {:induction false} UntargetedSlotKept(values: seq<int>, names: seq<string>, ops: seq<SetOperationFramework>, k: nat)
    requires |values| == |names| && k < |values|
    requires forall j :: 0 <= j < |ops| ==> IndexOf(names, ops[j].variable) != k
    ensures ApplyAll(values, names, ops)[k] == values[k]
  {
    if ops != [] {
      var front := ops[..|ops| - 1];
      assert forall j :: 0 <= j < |front| ==> front[j] == ops[j];
      UntargetedSlotKept(values, names, front, k);
    }
  }

  /**
   * Applying operations in order is last-writer-wins per slot: a slot holds
   * the value of the last operation that targets it.
   */
  lemma {:induction false} LastWriterWins(values: seq<int>, names: seq<string>, ops: seq<SetOperationFramework>, k: nat, j: nat)
    requires |values| == |names| && k < |values| && j < |ops|
    requires IndexOf(names, ops[j].variable) == k
    requires forall j' :: j < j' < |ops| ==> IndexOf(names, ops[j'].variable) != k
    ensures ApplyAll(values, names, ops)[k] == ops[j].val
  {
    if j < |ops| - 1 {
      var front := ops[..|ops| - 1];
      assert forall i :: 0 <= i < |front| ==> front[i] == ops[i];
      LastWriterWins(values, names, front, k, j);
    }
  }
}
