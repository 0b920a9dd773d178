/** The streaming MD5 context of src/engines/pe_static_analysis_engine.cpp, with its bulk-copy path. */
module Md5Digest {
  import opened Common
  import opened Arithmetic
  import opened MerkleDamgard

  type Compression = (seq<nat>, seq<byte>) -> seq<nat>

  const IV: seq<nat> := [0x67452301, 0xefcdab89, 0x98badcfe, 0x10325476]

  /** n octets of x, least significant first. */
  function LeOctets(x: nat, n: nat): (bs: seq<byte>)
    ensures |bs| == n
  {
    if n == 0 then [] else [x % 0x100] + LeOctets(x / 0x100, n - 1)
  }

  lemma {:induction false} LeOctetsAt(x: nat, n: nat, k: nat)
    requires k < n
    ensures LeOctets(x, n)[k] == (x / Pow(0x100, k)) % 0x100
  {
    if k > 0 {
      LeOctetsAt(x / 0x100, n - 1, k - 1);
      DivDiv(x, 0x100, Pow(0x100, k - 1));
    }
  }

  /** Section 3.1 of RFC 1321, then the low-order 64 bits of the bit length of section 3.2. */
  ghost function Pad(m: seq<byte>): seq<byte> {
    m + [0x80] + Fill(ZeroCount(|m|, 64, 8), 0 as byte) + LeOctets((8 * |m|) % TWO_64, 8)
  }

  function Output(state: seq<nat>, words: nat): seq<byte> {
    if words == 0 then []
    else Output(state, words - 1) + LeOctets(if words - 1 < |state| then state[words - 1] else 0, 4)
  }

  ghost function DigestOf(compress: Compression, m: seq<byte>): seq<byte> {
    Output(Fold(compress, IV, Chunks(Pad(m), 64)), 4)
  }

  /** The buffer index comes out of the wrapped bit counter undamaged: 64 divides 2^61. */
  lemma IndexOfCount(n: nat)
    ensures ((8 * n) % TWO_64 / 8) % 64 == n % 64
  {
    var k := (8 * n) / TWO_64;
    assert (8 * n) % TWO_64 == 8 * (n - k * 0x2000_0000_0000_0000);
    assert n - k * 0x2000_0000_0000_0000 == n + (-k * 0x80_0000_0000_0000) * 64;
    ModMultiple(n, -k * 0x80_0000_0000_0000, 64);
  }

  class Md5Context {
    const compress: Compression
    const buffer: array<byte>
    var state: seq<nat>
    var count: u64
    ghost var blocks: seq<seq<byte>>   // what has been compressed so far

    function Index(): (i: nat)
      reads this
      ensures i < 64
    {
      (count / 8) % 64
    }

    /** Everything fed to the context. */
    ghost function Fed(): seq<byte>
      reads this, buffer
      requires buffer.Length == 64
    {
      Flatten(blocks) + buffer[..Index()]
    }

    ghost predicate Valid()
      reads this, buffer
    {
      && buffer.Length == 64
      && AllOfSize(blocks, 64)
      && state == Fold(compress, IV, blocks)
      && count == (8 * |Fed()|) % TWO_64
    }

    constructor (c: Compression)
      ensures Valid() && fresh(buffer) && compress == c && Fed() == []
    {
      compress := c;
      buffer := new byte[64](_ => 0);
      state := IV;
      count := 0;
      blocks := [];
    }

    /** Copies input into the buffer from `at` on. */
    method CopyInto(at: nat, data: seq<byte>)
      requires at + |data| <= buffer.Length
      modifies buffer
      ensures buffer[..at] == old(buffer[..at]) && buffer[at..at + |data|] == data
      ensures buffer[..at + |data|] == old(buffer[..at]) + data
    {
      forall k | 0 <= k < |data| { buffer[at + k] := data[k]; }
      assert buffer[..at + |data|] == buffer[..at] + buffer[at..at + |data|];
    }

    /** Compresses one block into the state. */
    method Transform(block: seq<byte>)
      requires |block| == 64 && AllOfSize(blocks, 64) && state == Fold(compress, IV, blocks)
      modifies this`state, this`blocks
      ensures blocks == old(blocks) + [block] && Flatten(blocks) == old(Flatten(blocks)) + block
      ensures AllOfSize(blocks, 64) && state == Fold(compress, IV, blocks)
    {
      FoldSnoc(compress, IV, blocks, block);
      state := compress(state, block);
      blocks := blocks + [block];
    }

    /** The buffer is filled up and compressed. */
    method AbsorbFirst(part: seq<byte>, index: nat)
      requires buffer.Length == 64 && index < 64 && |part| == 64 - index
      requires AllOfSize(blocks, 64) && state == Fold(compress, IV, blocks)
      modifies this`state, this`blocks, buffer
      ensures AllOfSize(blocks, 64) && state == Fold(compress, IV, blocks)
      ensures Flatten(blocks) == old(Flatten(blocks) + buffer[..index]) + part
    {
      hide Flatten, Fold;
      CopyInto(index, part);
      assert buffer[..] == buffer[..index + |part|];
      Transform(buffer[..]);
      Regroup(old(Flatten(blocks)), old(buffer[..index]), part);
    }

    /** Whole blocks are compressed straight from the input, from i on. */
    method AbsorbBlocks(input: seq<byte>, start: nat) returns (i: nat)
      requires start <= |input|
      requires AllOfSize(blocks, 64) && state == Fold(compress, IV, blocks)
      modifies this`state, this`blocks
      ensures start <= i <= |input| < i + 64
      ensures AllOfSize(blocks, 64) && state == Fold(compress, IV, blocks)
      ensures Flatten(blocks) == old(Flatten(blocks)) + input[start..i]
    {
      hide Flatten, Fold;
      i := start;
      while i + 63 < |input|
        invariant start <= i <= |input|
        invariant AllOfSize(blocks, 64) && state == Fold(compress, IV, blocks)
        invariant Flatten(blocks) == old(Flatten(blocks)) + input[start..i]
      {
        Transform(input[i..i + 64]);
        assert input[start..i + 64] == input[start..i] + input[i..i + 64];
        i := i + 64;
      }
    }

    /** The copying half of update: only the ends pass through the buffer. Returns how much of it is then in
        use. */
    method Absorb(input: seq<byte>, index: nat) returns (used: nat)
      requires buffer.Length == 64 && index < 64
      requires AllOfSize(blocks, 64) && state == Fold(compress, IV, blocks)
      modifies this`state, this`blocks, buffer
      ensures AllOfSize(blocks, 64) && state == Fold(compress, IV, blocks)
      ensures used < 64 && Flatten(blocks) + buffer[..used] == old(Flatten(blocks) + buffer[..index]) + input
    {
      hide Flatten, Fold;
      ghost var was := Flatten(blocks) + buffer[..index];
      var partLen := 64 - index;
      var i := 0;
      used := index;
      if |input| >= partLen {
        AbsorbFirst(input[..partLen], index);
        i := AbsorbBlocks(input, partLen);
        Regroup(was, input[..partLen], input[partLen..i]);
        assert input[..i] == input[..partLen] + input[partLen..i];
        used := 0;
      }
      Reassociate(Flatten(blocks), buffer[..used], was, input[..i], input[i..]);
      CopyInto(used, input[i..]);
      used := used + |input| - i;
      assert input == input[..i] + input[i..];
    }

    method Update(input: seq<byte>)
      requires Valid()
      modifies this, buffer
      ensures Valid() && Fed() == old(Fed()) + input
    {
      hide Flatten, Fold;
      ghost var n := |Fed()|;
      var index := Index();
      count := (count + |input| * 8) % TWO_64;
      CountStep(n, |input|);
      ghost var used := Absorb(input, index);
      RestIsModulo(blocks, 64, used);
      IndexOfCount(n + |input|);
    }

    /** The eight length octets, taken before padding is fed. */
    method CountOctets() returns (bits: seq<byte>)
      ensures bits == LeOctets(count, 8)
    {
      bits := [];
      for i := 0 to 8
        invariant bits == LeOctets(count, 8)[..i]
      {
        LeOctetsAt(count, 8, i);
        bits := bits + [(count / Pow(0x100, i)) % 0x100];
      }
    }

    method WriteOutput() returns (digest: seq<byte>)
      ensures digest == Output(state, 4)
    {
      digest := [];
      for i := 0 to 4
        invariant digest == Output(state, i)
      {
        var word := if i < |state| then state[i] else 0;
        LeOctetsFour(word);
        digest := digest +
          [word % 0x100, (word / 0x100) % 0x100, (word / 0x1_0000) % 0x100, (word / 0x100_0000) % 0x100];
      }
    }

    method Finalize() returns (digest: seq<byte>)
      requires Valid()
      modifies this, buffer
      ensures digest == DigestOf(compress, old(Fed()))
    {
      hide Flatten, Fold, Chunks, LeOctets, Output;
      ghost var m := Fed();
      var bits := CountOctets();
      var index := Index();
      RestIsModulo(blocks, 64, index);
      var padLen := if index < 56 then 56 - index else 120 - index;
      var padding := [0x80] + Fill(63, 0);
      assert padding[..padLen] == [0x80] + Fill(ZeroCount(|m|, 64, 8), 0 as byte);
      Update(padding[..padLen]);
      Update(bits);
      assert Fed() == Pad(m);
      PadLength(m);
      RestIsModulo(blocks, 64, Index());
      assert Index() == 0 && Fed() == Flatten(blocks);
      ChunksOfFlatten(blocks, 64);
      digest := WriteOutput();
    }
  }

  lemma Reassociate(f: seq<byte>, u: seq<byte>, w: seq<byte>, x: seq<byte>, y: seq<byte>)
    requires f + u == w + x
    ensures f + (u + y) == w + (x + y)
  {
    assert f + (u + y) == (f + u) + y;
  }

  lemma PadLength(m: seq<byte>)
    ensures |Pad(m)| % 64 == 0
  {
    PadLengthOf(|m|, ZeroCount(|m|, 64, 8));
  }

  lemma PadLengthOf(n: nat, k: nat)
    requires n % 64 + 9 + k == 64 || n % 64 + 9 + k == 128
    ensures (n + 1 + k + 8) % 64 == 0
  {
  }

  lemma LeOctetsFour(w: nat)
    ensures LeOctets(w, 4) == [w % 0x100, (w / 0x100) % 0x100, (w / 0x1_0000) % 0x100, (w / 0x100_0000) % 0x100]
  {
    assert w / 0x1_0000 == w / 0x100 / 0x100 && w / 0x100_0000 == w / 0x1_0000 / 0x100;
    assert LeOctets(w / 0x100_0000, 1) == [(w / 0x100_0000) % 0x100] + LeOctets(w / 0x100_0000 / 0x100, 0);
    assert LeOctets(w / 0x1_0000, 2) == [(w / 0x1_0000) % 0x100] + LeOctets(w / 0x100_0000, 1);
  }

  lemma CountStep(n: nat, more: nat)
    ensures ((8 * n) % TWO_64 + more * 8) % TWO_64 == (8 * (n + more)) % TWO_64
  {
  }

  /** However a message is cut into updates, the digest is that of the whole. */
  method HashPieces(compress: Compression, pieces: seq<seq<byte>>) returns (digest: seq<byte>)
    ensures digest == DigestOf(compress, Flatten(pieces))
  {
    var ctx := new Md5Context(compress);
    for i := 0 to |pieces|
      invariant ctx.Valid() && fresh(ctx) && fresh(ctx.buffer) && ctx.compress == compress
      invariant ctx.Fed() == Flatten(pieces[..i])
    {
      ctx.Update(pieces[i]);
      assert pieces[..i + 1][..i] == pieces[..i];
    }
    assert pieces[..|pieces|] == pieces;
    digest := ctx.Finalize();
  }
}
