/** Concatenation of a sequence of blocks, the common shape behind every merge in this model. */
module Sequences {

  /** Sum of the lengths of the blocks. */
  function TotalLength<T>(blocks: seq<seq<T>>): nat
  {
    if blocks == [] then 0 else |blocks[0]| + TotalLength(blocks[1..])
  }

  /** The blocks laid end to end, first block first. */
  function Concat<T>(blocks: seq<seq<T>>): (r: seq<T>)
    ensures |r| == TotalLength(blocks)
  {
    if blocks == [] then [] else blocks[0] + Concat(blocks[1..])
  }

  /** Appending one more block appends its elements. */
  lemma {:induction false} ConcatAppend<T>(blocks: seq<seq<T>>, b: seq<T>)
    ensures Concat(blocks + [b]) == Concat(blocks) + b
  {
    if blocks == [] {
      assert [] + [b] == [b];
      assert Concat([b]) == b + Concat([]);
    } else {
      assert (blocks + [b])[1..] == blocks[1..] + [b];
      ConcatAppend(blocks[1..], b);
    }
  }

  /** When every block has length `len`, the total length is the block count times `len`. */
  lemma {:induction false} UniformTotalLength<T>(blocks: seq<seq<T>>, len: nat)
    requires forall j :: 0 <= j < |blocks| ==> |blocks[j]| == len
    ensures TotalLength(blocks) == |blocks| * len
  {
    if blocks != [] {
      UniformTotalLength(blocks[1..], len);
      assert |blocks| * len == len + (|blocks| - 1) * len;
    }
  }

  /** Blocks of a common length `len` are laid out row-major: element `k` of block `i` sits at `i * len + k`. */
  lemma {:induction false} ConcatUniformAt<T>(blocks: seq<seq<T>>, len: nat, i: nat, k: nat)
    requires forall j :: 0 <= j < |blocks| ==> |blocks[j]| == len
    requires i < |blocks| && k < len
    ensures |Concat(blocks)| == |blocks| * len
    ensures i * len + k < |Concat(blocks)|
    ensures Concat(blocks)[i * len + k] == blocks[i][k]
  {
    UniformTotalLength(blocks, len);
    if i > 0 {
      ConcatUniformAt(blocks[1..], len, i - 1, k);
      assert i * len + k == len + ((i - 1) * len + k);
    }
  }
}
