/** The streaming SHA-256 and SHA-384 contexts of include/gcad/common.hpp. They differ in block size,
    width of the length field, word size and number of output words; `Algorithm` holds these. */
module ShaDigest {
  import opened Common
  import opened Arithmetic
  import opened Octets
  import opened MerkleDamgard

  type Compression = (seq<nat>, seq<byte>) -> seq<nat>

  datatype Algorithm = Algorithm(
    block: nat,         // bytes per block
    lengthField: nat,   // bytes reserved for the message length
    wordBytes: nat,
    outputWords: nat,
    iv: seq<nat>,
    compress: Compression)
  {
    ghost predicate Valid() {
      8 <= lengthField < block
    }
  }

  function Sha256(compress: Compression): (a: Algorithm)
    ensures a.Valid()
  {
    Algorithm(64, 8, 4, 8,
              [0x6a09e667, 0xbb67ae85, 0x3c6ef372, 0xa54ff53a, 0x510e527f, 0x9b05688c, 0x1f83d9ab, 0x5be0cd19],
              compress)
  }

  function Sha384(compress: Compression): (a: Algorithm)
    ensures a.Valid()
  {
    Algorithm(128, 16, 8, 6,
              [0xcbbb9d5dc1059ed8, 0x629a292a367cd507, 0x9159015a3070dd17, 0x152fecd8f70e5939,
               0x67332667ffc00b31, 0x8eb44a8768581511, 0xdb0c2e0d64f98fa7, 0x47b5481dbefa4fa4],
              compress)
  }

  /** The digest octets: the first words of the state, big-endian. */
  ghost function Output(a: Algorithm, state: seq<nat>, words: nat): seq<byte> {
    if words == 0 then []
    else Output(a, state, words - 1) + I2osp(if words - 1 < |state| then state[words - 1] else 0, a.wordBytes)
  }

  /** The padded message as the code builds it: the length counter has 64 bits. */
  ghost function Pad(a: Algorithm, m: seq<byte>): seq<byte>
    requires a.Valid()
  {
    m + [0x80] + Fill(ZeroCount(|m|, a.block, a.lengthField), 0 as byte)
      + Fill(a.lengthField - 8, 0 as byte) + I2osp((8 * |m|) % TWO_64, 8)
  }

  /** The padded message of sections 5.1.1 and 5.1.2 of FIPS 180-4. */
  ghost function FipsPad(a: Algorithm, m: seq<byte>): seq<byte>
    requires a.Valid()
  {
    m + [0x80] + Fill(ZeroCount(|m|, a.block, a.lengthField), 0 as byte) + I2osp(8 * |m|, a.lengthField)
  }

  ghost function DigestOf(a: Algorithm, m: seq<byte>): seq<byte>
    requires a.Valid()
  {
    Output(a, Fold(a.compress, a.iv, Chunks(Pad(a, m), a.block)), a.outputWords)
  }

  // ---- The padding meets the standard exactly as far as the counter reaches ----

  /** An integer written in n + k octets, when the value needs only k of them. */
  lemma {:induction false} I2ospWide(x: nat, n: nat, k: nat)
    ensures I2osp(x, n + k)[n..] == I2osp(x, k)
    ensures x < Pow(0x100, k) ==> I2osp(x, n + k) == Fill(n, 0 as byte) + I2osp(x, k)
  {
    if k == 0 {
      if x < Pow(0x100, 0) { ZeroOctets(n); }
    } else {
      I2ospWide(x / 0x100, n, k - 1);
      assert x < Pow(0x100, k) ==> x / 0x100 < Pow(0x100, k - 1);
    }
  }

  lemma {:induction false} ZeroOctets(n: nat)
    ensures I2osp(0, n) == Fill(n, 0 as byte)
  {
    if n > 0 { ZeroOctets(n - 1); }
  }

  lemma EightOctets()
    ensures Pow(0x100, 8) == TWO_64
  {
    assert Pow(0x100, 4) == TWO_32;
    PowAdd(0x100, 4, 4);
  }

  /** For every message whose bit length fits 64 bits the code pads as the standard says; a longer one
      (below the 2^128 bits that SHA-384 admits) it pads otherwise. The zero bytes are the fewest that make the
      length field end a block. */
  lemma PaddingMeetsFips(a: Algorithm, m: seq<byte>)
    requires a.Valid()
    ensures 8 * |m| < TWO_64 ==> Pad(a, m) == FipsPad(a, m)
    ensures 8 * |m| < Pow(0x100, a.lengthField) && Pad(a, m) == FipsPad(a, m) ==> 8 * |m| < TWO_64
    ensures var zeros := ZeroCount(|m|, a.block, a.lengthField);
            && Completes(|m|, a.block, a.lengthField, zeros)
            && forall k: nat :: k < zeros ==> !Completes(|m|, a.block, a.lengthField, k)
  {
    ZeroCountIsLeast(|m|, a.block, a.lengthField);
    hide Completes, ZeroCount;
    var bits, n := 8 * |m|, a.lengthField - 8;
    EightOctets();
    I2ospWide(bits, n, 8);
    if bits < Pow(0x100, a.lengthField) && Pad(a, m) == FipsPad(a, m) {
      var p := Pad(a, m);
      var tail := Fill(n, 0 as byte) + I2osp(bits % TWO_64, 8);
      assert p[|p| - a.lengthField..] == tail && FipsPad(a, m)[|p| - a.lengthField..] == I2osp(bits, a.lengthField);
      Os2ipI2osp(bits, a.lengthField);
      Os2ipZeros(n, I2osp(bits % TWO_64, 8));
      Os2ipBound(I2osp(bits % TWO_64, 8));
    } else if bits < TWO_64 {
      DivModUnique(bits, TWO_64, 0, bits);
    }
  }

  // ---- The context ----

  class ShaContext {
    const algorithm: Algorithm
    const buffer: array<byte>
    var state: seq<nat>
    var bitcount: u64
    var buflen: nat
    ghost var blocks: seq<seq<byte>>   // what has been compressed so far

    /** Everything fed to the context. */
    ghost function Fed(): seq<byte>
      reads this, buffer
      requires buflen <= buffer.Length
    {
      Flatten(blocks) + buffer[..buflen]
    }

    /** The buffer may be full, waiting to be compressed. */
    ghost predicate Consistent()
      reads this, buffer
    {
      && algorithm.Valid() && buffer.Length == algorithm.block && buflen <= algorithm.block
      && AllOfSize(blocks, algorithm.block)
      && state == Fold(algorithm.compress, algorithm.iv, blocks)
    }

    ghost predicate Valid()
      reads this, buffer
    {
      && Consistent() && buflen < algorithm.block
      && bitcount == (8 * |Flatten(blocks)|) % TWO_64
    }

    constructor (a: Algorithm)
      requires a.Valid()
      ensures Valid() && fresh(buffer) && algorithm == a && Fed() == []
    {
      algorithm := a;
      buffer := new byte[a.block](_ => 0);
      state := a.iv;
      bitcount := 0;
      buflen := 0;
      blocks := [];
    }

    /** One byte goes into the buffer. */
    method Put(b: byte)
      requires Consistent() && buflen < algorithm.block
      modifies this`buflen, buffer
      ensures Consistent() && buflen == old(buflen) + 1 && Fed() == old(Fed()) + [b]
    {
      buffer[buflen] := b;
      buflen := buflen + 1;
      assert buffer[..buflen] == old(buffer[..buflen]) + [b];
    }

    /** The full buffer is compressed into the state and is empty again. */
    method Transform()
      requires Consistent() && buflen == algorithm.block
      modifies this`state, this`buflen, this`blocks
      ensures Consistent() && buflen == 0 && Fed() == old(Fed()) == Flatten(blocks)
      ensures |Flatten(blocks)| == |old(Flatten(blocks))| + algorithm.block
    {
      FoldSnoc(algorithm.compress, algorithm.iv, blocks, buffer[..]);
      assert buffer[..] == buffer[..buflen];
      state := algorithm.compress(state, buffer[..]);
      blocks := blocks + [buffer[..]];
      buflen := 0;
      assert buffer[..buflen] == [];
    }

    /** Streaming: after any update the context has been fed exactly that much more. */
    method Update(data: seq<byte>)
      requires Valid()
      modifies this, buffer
      ensures Valid() && Fed() == old(Fed()) + data
    {
      for i := 0 to |data|
        invariant Valid()
        invariant Fed() == old(Fed()) + data[..i]
      {
        Put(data[i]);
        assert data[..i + 1] == data[..i] + [data[i]];
        if buflen == algorithm.block {
          BitcountStep(|Flatten(blocks)|, algorithm.block);
          Transform();
          bitcount := (bitcount + 8 * algorithm.block) % TWO_64;
        }
      }
      assert data[..|data|] == data;
    }

    /** Fills the buffer with zeros up to the limit. */
    method PutZeros(limit: nat)
      requires Consistent() && buflen <= limit <= algorithm.block
      modifies this`buflen, buffer
      ensures Consistent() && buflen == limit
      ensures Fed() == old(Fed()) + Fill(limit - old(buflen), 0 as byte)
    {
      while buflen < limit
        invariant Consistent() && old(buflen) <= buflen <= limit
        invariant Fed() == old(Fed()) + Fill(buflen - old(buflen), 0 as byte)
      {
        Put(0);
      }
    }

    /** The padding up to the length field, which may take a block more. */
    method PutPadding()
      requires Consistent() && buflen < algorithm.block
      modifies this`state, this`buflen, this`blocks, buffer
      ensures Consistent() && buflen == algorithm.block - algorithm.lengthField
      ensures Fed() == old(Fed()) + [0x80] + Fill(ZeroCount(|old(Fed())|, algorithm.block, algorithm.lengthField), 0)
    {
      hide Flatten, Fold;
      RestIsModulo(blocks, algorithm.block, buflen);
      var limit := algorithm.block - algorithm.lengthField;
      Put(0x80);
      if buflen > limit {
        PutZeros(algorithm.block);
        Transform();
      }
      PutZeros(limit);
    }

    /** The digest of everything fed, whatever the pieces were. */
    method Finalize() returns (digest: seq<byte>)
      requires Valid()
      modifies this, buffer
      ensures digest == DigestOf(algorithm, old(Fed()))
    {
      hide Flatten, Fold, Chunks, I2osp;
      ghost var m, block := Fed(), algorithm.block;
      var bits: u64 := (bitcount + buflen * 8) % TWO_64;
      BitcountStep(|Flatten(blocks)|, buflen);
      PutPadding();
      PutLength(bits);
      Transform();
      assert Fed() == Pad(algorithm, m);
      ChunksOfFlatten(blocks, algorithm.block);
      digest := WriteOutput();
    }

    /** The length field: zero octets, then the eight octets of the bit count. */
    method PutLength(bits: u64)
      requires Consistent() && buflen == algorithm.block - algorithm.lengthField
      modifies this`buflen, buffer
      ensures Consistent() && buflen == algorithm.block
      ensures Fed() == old(Fed()) + Fill(algorithm.lengthField - 8, 0 as byte) + I2osp(bits, 8)
    {
      for i := 0 to algorithm.lengthField - 8
        invariant Consistent() && buflen == old(buflen) + i
        invariant Fed() == old(Fed()) + Fill(i, 0 as byte)
      {
        Put(0);
      }
      var i := 7;
      while i >= 0
        invariant -1 <= i <= 7
        invariant Consistent() && buflen == algorithm.block - 1 - i
        invariant Fed() == old(Fed()) + Fill(algorithm.lengthField - 8, 0 as byte) + I2osp(bits, 8)[..7 - i]
      {
        I2ospAt(bits, 8, 7 - i);
        Put((bits / Pow(0x100, i)) % 0x100);
        i := i - 1;
      }
    }

    method WriteOutput() returns (hash: seq<byte>)
      ensures hash == Output(algorithm, state, algorithm.outputWords)
    {
      hash := [];
      for i := 0 to algorithm.outputWords
        invariant hash == Output(algorithm, state, i)
      {
        var word := if i < |state| then state[i] else 0;
        ghost var start := hash;
        for b := 0 to algorithm.wordBytes
          invariant hash == start + I2osp(word, algorithm.wordBytes)[..b]
        {
          I2ospAt(word, algorithm.wordBytes, b);
          hash := hash + [(word / Pow(0x100, algorithm.wordBytes - 1 - b)) % 0x100];
        }
      }
    }
  }

  lemma BitcountStep(n: nat, more: nat)
    ensures ((8 * n) % TWO_64 + 8 * more) % TWO_64 == (8 * (n + more)) % TWO_64
  {
  }

  lemma {:induction false} I2ospAt(x: nat, n: nat, k: nat)
    requires k < n
    ensures I2osp(x, n)[k] == (x / Pow(0x100, n - 1 - k)) % 0x100
  {
    if k < n - 1 {
      I2ospAt(x / 0x100, n - 1, k);
      DivDiv(x, 0x100, Pow(0x100, n - 2 - k));
    }
  }

  // ---- Any splitting, one digest ----

  /** A message that is in memory, in one update. */
  method Hash(a: Algorithm, m: seq<byte>) returns (digest: seq<byte>)
    requires a.Valid()
    ensures digest == DigestOf(a, m)
  {
    var ctx := new ShaContext(a);
    ctx.Update(m);
    assert [] + m == m;
    digest := ctx.Finalize();
  }

  /** However a message is cut into updates, the digest is that of the whole. */
  method HashPieces(a: Algorithm, pieces: seq<seq<byte>>) returns (digest: seq<byte>)
    requires a.Valid()
    ensures digest == DigestOf(a, Flatten(pieces))
  {
    var ctx := new ShaContext(a);
    for i := 0 to |pieces|
      invariant ctx.Valid() && fresh(ctx) && fresh(ctx.buffer) && ctx.algorithm == a
      invariant ctx.Fed() == Flatten(pieces[..i])
    {
      ctx.Update(pieces[i]);
      assert pieces[..i + 1][..i] == pieces[..i];
    }
    assert pieces[..|pieces|] == pieces;
    digest := ctx.Finalize();
  }

  const FILE_BUFFER: nat := 8192

  /** hash_file: the content arrives in 8192-byte reads and one shorter last read. */
  method HashFile(a: Algorithm, content: seq<byte>) returns (digest: seq<byte>)
    requires a.Valid()
    ensures digest == DigestOf(a, content)
  {
    hide Flatten, Fold, DigestOf;
    var ctx := new ShaContext(a);
    var at := 0;
    while at + FILE_BUFFER <= |content|
      invariant 0 <= at <= |content|
      invariant ctx.Valid() && fresh(ctx) && fresh(ctx.buffer) && ctx.algorithm == a
      invariant ctx.Fed() == content[..at]
      decreases |content| - at
    {
      ctx.Update(content[at..at + FILE_BUFFER]);
      assert content[..at + FILE_BUFFER] == content[..at] + content[at..at + FILE_BUFFER];
      at := at + FILE_BUFFER;
    }
    if at < |content| { ctx.Update(content[at..]); }
    assert ctx.Fed() == content;
    digest := ctx.Finalize();
  }
}
