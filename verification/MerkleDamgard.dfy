/** What the three digests compute: a compression function folded over the blocks of a padded
    message. The compression functions are parameters; only the streaming around them is modelled. */
module MerkleDamgard {
  import opened Arithmetic
  import opened Common

  function Flatten(blocks: seq<seq<byte>>): seq<byte> {
    if |blocks| == 0 then [] else Flatten(blocks[..|blocks| - 1]) + blocks[|blocks| - 1]
  }

  function Fold<S>(compress: (S, seq<byte>) -> S, iv: S, blocks: seq<seq<byte>>): S {
    if |blocks| == 0 then iv
    else compress(Fold(compress, iv, blocks[..|blocks| - 1]), blocks[|blocks| - 1])
  }

  /** Cuts a byte string into blocks from the front, dropping an incomplete last one. */
  function Chunks(bytes: seq<byte>, block: nat): seq<seq<byte>>
    requires block > 0
  {
    if |bytes| < block then [] else [bytes[..block]] + Chunks(bytes[block..], block)
  }

  ghost predicate AllOfSize(blocks: seq<seq<byte>>, block: nat) {
    forall i :: 0 <= i < |blocks| ==> |blocks[i]| == block
  }

  lemma FoldSnoc<S>(compress: (S, seq<byte>) -> S, iv: S, blocks: seq<seq<byte>>, last: seq<byte>)
    ensures Fold(compress, iv, blocks + [last]) == compress(Fold(compress, iv, blocks), last)
    ensures Flatten(blocks + [last]) == Flatten(blocks) + last
  {
    assert (blocks + [last])[..|blocks|] == blocks;
  }

  lemma {:induction false} FlattenCons(first: seq<byte>, blocks: seq<seq<byte>>)
    ensures Flatten([first] + blocks) == first + Flatten(blocks)
  {
    var all := [first] + blocks;
    if |blocks| == 0 {
      assert all[..0] == [];
    } else {
      var front := blocks[..|blocks| - 1];
      FlattenCons(first, front);
      assert all[..|all| - 1] == [first] + front;
    }
  }

  /** Chunking inverts flattening, so a run over blocks is a run over the message. */
  lemma {:induction false} ChunksOfFlatten(blocks: seq<seq<byte>>, block: nat)
    requires block > 0 && AllOfSize(blocks, block)
    ensures Chunks(Flatten(blocks), block) == blocks
  {
    if |blocks| > 0 {
      var rest := blocks[1..];
      ChunksOfFlatten(rest, block);
      FlattenCons(blocks[0], rest);
      assert blocks == [blocks[0]] + rest;
    }
  }

  lemma {:induction false} FlattenLength(blocks: seq<seq<byte>>, block: nat)
    requires AllOfSize(blocks, block)
    ensures |Flatten(blocks)| == block * |blocks|
  {
    if |blocks| > 0 {
      FlattenLength(blocks[..|blocks| - 1], block);
      MulDistributes(|blocks| - 1, 1, block);
    }
  }

  /** What is left after whole blocks is the length modulo the block size. */
  lemma RestIsModulo(blocks: seq<seq<byte>>, block: nat, rest: nat)
    requires block > 0 && AllOfSize(blocks, block) && rest < block
    ensures (|Flatten(blocks)| + rest) % block == rest
  {
    FlattenLength(blocks, block);
    DivModUnique(|Flatten(blocks)| + rest, block, |blocks|, rest);
  }

  /** Zero bytes between the 0x80 marker and a length field: the fewest that complete a block. */
  function ZeroCount(length: nat, block: nat, lengthField: nat): nat
    requires lengthField < block
  {
    var used := length % block + 1;
    if used + lengthField <= block then block - lengthField - used else 2 * block - lengthField - used
  }

  /** A marker, k zero bytes and the length field after a message end on a block boundary. */
  predicate Completes(length: nat, block: nat, lengthField: nat, k: nat)
    requires block > 0
  {
    (length + 1 + k + lengthField) % block == 0
  }

  lemma ZeroCountCompletes(length: nat, block: nat, lengthField: nat)
    requires lengthField < block
    ensures Completes(length, block, lengthField, ZeroCount(length, block, lengthField))
    ensures ZeroCount(length, block, lengthField) < block
  {
    var total := length + 1 + ZeroCount(length, block, lengthField) + lengthField;
    var q, r := length / block, length % block;
    assert length == q * block + r;
    var extra := if r + 1 + lengthField <= block then 1 else 2;
    MulDistributes(q, extra, block);
    DivModUnique(total, block, q + extra, 0);
  }

  lemma FewerDoNot(length: nat, block: nat, lengthField: nat, k: nat, zeros: nat)
    requires k < zeros < block && Completes(length, block, lengthField, zeros)
    ensures !Completes(length, block, lengthField, k)
  {
    var total, missing := length + 1 + zeros + lengthField, zeros - k;
    var blocks := total / block;
    assert total == blocks * block;
    MulDistributes(blocks, 1, block);
    DivModUnique(total - missing, block, blocks - 1, block - missing);
  }

  /** ZeroCount is the least number that completes a block. */
  lemma ZeroCountIsLeast(length: nat, block: nat, lengthField: nat)
    requires lengthField < block
    ensures Completes(length, block, lengthField, ZeroCount(length, block, lengthField))
    ensures forall k: nat :: k < ZeroCount(length, block, lengthField) ==> !Completes(length, block, lengthField, k)
  {
    hide Completes, ZeroCount;
    var zeros := ZeroCount(length, block, lengthField);
    ZeroCountCompletes(length, block, lengthField);
    forall k: nat | k < zeros ensures !Completes(length, block, lengthField, k) {
      FewerDoNot(length, block, lengthField, k, zeros);
    }
  }
}
