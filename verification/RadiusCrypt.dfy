/** The chained MD5 cipher of RADIUS (crypt of radius_message.c).  One loop encrypts when it runs
    in place and decrypts when it writes to another buffer: the seed of each block is the hash of
    the previous block as `in` holds it at that moment. */
module RadiusCrypt {
  import opened Bytes

  const HASH_SIZE: nat := 16

  type Block = s: seq<Byte> | |s| == HASH_SIZE witness Zeros(HASH_SIZE)

  /** MD5, of which nothing but the size of its result is used */
  type Hasher = seq<Byte> -> Block

  function Pow2(k: nat): nat { if k == 0 then 1 else 2 * Pow2(k - 1) }

  /** Exclusive or of `k`-bit numbers */
  function XorBits(a: nat, b: nat, k: nat): (r: nat)
    requires a < Pow2(k) && b < Pow2(k)
    ensures r < Pow2(k)
  {
    if k == 0 then 0 else 2 * XorBits(a / 2, b / 2, k - 1) + (if a % 2 != b % 2 then 1 else 0)
  }

  lemma {:induction false} XorBitsCancels(a: nat, b: nat, k: nat)
    requires a < Pow2(k) && b < Pow2(k)
    ensures XorBits(XorBits(a, b, k), b, k) == a
  {
    if k > 0 {
      var half, r := XorBits(a / 2, b / 2, k - 1), XorBits(a, b, k);
      XorBitsCancels(a / 2, b / 2, k - 1);
      assert r / 2 == half && (r % 2 == 1 <==> a % 2 != b % 2);
    }
  }

  lemma Pow2Of8()
    ensures Pow2(8) == 0x100
  {
    assert Pow2(4) == 16;
  }

  function XorByte(a: Byte, b: Byte): Byte {
    Pow2Of8();
    XorBits(a, b, 8)
  }

  lemma XorCancels(a: Byte, b: Byte)
    ensures XorByte(XorByte(a, b), b) == a
  {
    Pow2Of8();
    XorBitsCancels(a, b, 8);
  }

  function Xor(s: seq<Byte>, b: Block): (r: Block)
    requires |s| == HASH_SIZE
    ensures forall i | 0 <= i < HASH_SIZE :: r[i] == XorByte(s[i], b[i])
  {
    seq(HASH_SIZE, i requires 0 <= i < HASH_SIZE && |s| == HASH_SIZE => XorByte(s[i], b[i]))
  }

  lemma XorBlockCancels(s: Block, b: Block)
    ensures Xor(Xor(s, b), b) == s
  {
    forall i | 0 <= i < HASH_SIZE ensures Xor(Xor(s, b), b)[i] == s[i] {
      XorCancels(s[i], b[i]);
    }
  }

  /** Bits are counted from the lowest one. */
  ghost predicate Bit(a: nat, j: nat) { if j == 0 then a % 2 == 1 else Bit(a / 2, j - 1) }

  lemma {:induction false} XorBitsExactly(a: nat, b: nat, k: nat, j: nat)
    requires a < Pow2(k) && b < Pow2(k) && j < k
    ensures Bit(XorBits(a, b, k), j) <==> (Bit(a, j) <==> !Bit(b, j))
    decreases k
  {
    if j > 0 {
      assert XorBits(a, b, k) / 2 == XorBits(a / 2, b / 2, k - 1);
      XorBitsExactly(a / 2, b / 2, k - 1, j - 1);
    }
  }

  /** Each bit is set exactly if it is set in one of the two. */
  lemma XorExactly(a: Byte, b: Byte, j: nat)
    requires j < 8
    ensures Bit(XorByte(a, b), j) <==> (Bit(a, j) <==> !Bit(b, j))
  {
    Pow2Of8();
    XorBitsExactly(a, b, 8, j);
  }

  // ---------------------------------------------------------------- specification

  /** Section 5.2 of RFC 2865: c(i) = p(i) xor b(i), b(i+1) = MD5(S + c(i)) */
  function Encrypt(md5: Hasher, secret: seq<Byte>, b: Block, plain: seq<Byte>): (c: seq<Byte>)
    requires |plain| % HASH_SIZE == 0
    ensures |c| == |plain|
    decreases |plain|
  {
    if plain == [] then []
    else
      var block := Xor(plain[..HASH_SIZE], b);
      block + Encrypt(md5, secret, md5(secret + block), plain[HASH_SIZE..])
  }

  /** p(i) = c(i) xor b(i), b(i+1) = MD5(S + c(i)) */
  function Decrypt(md5: Hasher, secret: seq<Byte>, b: Block, cipher: seq<Byte>): (p: seq<Byte>)
    requires |cipher| % HASH_SIZE == 0
    ensures |p| == |cipher|
    decreases |cipher|
  {
    if cipher == [] then []
    else
      var block := cipher[..HASH_SIZE];
      Xor(block, b) + Decrypt(md5, secret, md5(secret + block), cipher[HASH_SIZE..])
  }

  /** The first seed: the secret, the request authenticator and the salt */
  function Seed(md5: Hasher, secret: seq<Byte>, authenticator: seq<Byte>, salt: seq<Byte>): Block {
    md5(secret + authenticator + salt)
  }

  lemma {:induction false} DecryptInvertsEncrypt(md5: Hasher, secret: seq<Byte>, b: Block, plain: seq<Byte>)
    requires |plain| % HASH_SIZE == 0
    ensures Decrypt(md5, secret, b, Encrypt(md5, secret, b, plain)) == plain
    decreases |plain|
  {
    if plain != [] {
      var block := Xor(plain[..HASH_SIZE], b);
      var rest := Encrypt(md5, secret, md5(secret + block), plain[HASH_SIZE..]);
      var cipher := Encrypt(md5, secret, b, plain);
      assert cipher[..HASH_SIZE] == block && cipher[HASH_SIZE..] == rest;
      XorBlockCancels(plain[..HASH_SIZE], b);
      DecryptInvertsEncrypt(md5, secret, md5(secret + block), plain[HASH_SIZE..]);
    }
  }

  lemma {:induction false} EncryptInvertsDecrypt(md5: Hasher, secret: seq<Byte>, b: Block, cipher: seq<Byte>)
    requires |cipher| % HASH_SIZE == 0
    ensures Encrypt(md5, secret, b, Decrypt(md5, secret, b, cipher)) == cipher
    decreases |cipher|
  {
    if cipher != [] {
      var block: Block := cipher[..HASH_SIZE];
      var rest := Decrypt(md5, secret, md5(secret + block), cipher[HASH_SIZE..]);
      var plain := Decrypt(md5, secret, b, cipher);
      assert plain[..HASH_SIZE] == Xor(block, b) && plain[HASH_SIZE..] == rest;
      XorBlockCancels(block, b);
      EncryptInvertsDecrypt(md5, secret, md5(secret + block), cipher[HASH_SIZE..]);
    }
  }

  /** Section 5.2 of RFC 2865, block by block: the first is combined with the seed, every other one
      with the hash of the secret and the encrypted block before it. */
  ghost predicate IsChain(md5: Hasher, secret: seq<Byte>, seed: Block, plain: seq<Byte>, cipher: seq<Byte>) {
    |plain| == |cipher| && forall n: nat | 16 * n + 16 <= |plain| :: IsLink(md5, secret, seed, plain, cipher, n)
  }

  ghost predicate IsLink(md5: Hasher, secret: seq<Byte>, seed: Block, plain: seq<Byte>, cipher: seq<Byte>, n: nat)
    requires 16 * n + 16 <= |plain| == |cipher|
  {
    var b := if n == 0 then seed else md5(secret + cipher[16 * n - 16..16 * n]);
    cipher[16 * n..16 * n + 16] == Xor(plain[16 * n..16 * n + 16], b)
  }

  lemma {:induction false} EncryptIsChain(md5: Hasher, secret: seq<Byte>, b: Block, plain: seq<Byte>)
    requires |plain| % HASH_SIZE == 0
    ensures IsChain(md5, secret, b, plain, Encrypt(md5, secret, b, plain))
    decreases |plain|
  {
    if plain != [] {
      var block, rest := Xor(plain[..16], b), plain[16..];
      var next := md5(secret + block);
      EncryptIsChain(md5, secret, next, rest);
      ChainGrows(md5, secret, b, plain, block, Encrypt(md5, secret, next, rest));
    }
  }

  lemma DecryptIsChain(md5: Hasher, secret: seq<Byte>, b: Block, cipher: seq<Byte>)
    requires |cipher| % HASH_SIZE == 0
    ensures IsChain(md5, secret, b, Decrypt(md5, secret, b, cipher), cipher)
  {
    EncryptInvertsDecrypt(md5, secret, b, cipher);
    EncryptIsChain(md5, secret, b, Decrypt(md5, secret, b, cipher));
  }

  /** A block before a chain that starts with its hash */
  lemma ChainGrows(md5: Hasher, secret: seq<Byte>, b: Block, plain: seq<Byte>, block: Block, tail: seq<Byte>)
    requires |plain| >= 16 && |plain| % 16 == 0 && block == Xor(plain[..16], b)
    requires IsChain(md5, secret, md5(secret + block), plain[16..], tail)
    ensures IsChain(md5, secret, b, plain, block + tail)
  {
    var cipher := block + tail;
    assert plain == plain[..16] + plain[16..];
    forall n: nat | 16 * n + 16 <= |plain| ensures IsLink(md5, secret, b, plain, cipher, n) {
      if n == 0 {
        assert cipher[0..16] == block && plain[0..16] == plain[..16];
      } else {
        LinkShifts(md5, secret, b, plain[..16], plain[16..], block, tail, n - 1);
      }
    }
  }

  lemma Shifted(front: seq<Byte>, s: seq<Byte>, p: nat, q: nat)
    requires p <= q <= |s|
    ensures (front + s)[|front| + p..|front| + q] == s[p..q]
  {
  }

  lemma LinkShifts(md5: Hasher, secret: seq<Byte>, b: Block, front: seq<Byte>, rest: seq<Byte>,
                   block: Block, tail: seq<Byte>, m: nat)
    requires |front| == 16 && 16 * m + 16 <= |rest| == |tail|
    requires IsLink(md5, secret, md5(secret + block), rest, tail, m)
    ensures IsLink(md5, secret, b, front + rest, block + tail, m + 1)
  {
    Shifted(front, rest, 16 * m, 16 * m + 16);
    Shifted(block, tail, 16 * m, 16 * m + 16);
    var before := (block + tail)[16 * (m + 1) - 16..16 * (m + 1)];
    if m == 0 {
      assert before == block;
    } else {
      Shifted(block, tail, 16 * m - 16, 16 * m);
    }
  }

  // ---------------------------------------------------------------- implementation

  /** memxor of one block */
  method MemXor(buffer: array<Byte>, from: nat, b: Block)
    requires from + HASH_SIZE <= buffer.Length
    modifies buffer
    ensures buffer[from..from + HASH_SIZE] == Xor(old(buffer[from..from + HASH_SIZE]), b)
    ensures buffer[..from] == old(buffer[..from])
    ensures buffer[from + HASH_SIZE..] == old(buffer[from + HASH_SIZE..])
  {
    var i := 0;
    while i < HASH_SIZE
      invariant 0 <= i <= HASH_SIZE
      invariant forall k | 0 <= k < i :: buffer[from + k] == XorByte(old(buffer[from + k]), b[k])
      invariant forall k | 0 <= k < buffer.Length && !(from <= k < from + i) :: buffer[k] == old(buffer[k])
    {
      buffer[from + i] := XorByte(buffer[from + i], b[i]);
      i := i + 1;
    }
  }

  method MemCpy(to: array<Byte>, from: array<Byte>)
    requires to.Length == from.Length
    modifies to
    ensures to[..] == old(from[..])
  {
    var i := 0;
    while i < from.Length
      invariant 0 <= i <= from.Length
      invariant forall k | 0 <= k < i :: to[k] == old(from[k])
      invariant forall k | i <= k < from.Length :: from[k] == old(from[k])
    {
      to[i] := from[i];
      i := i + 1;
    }
  }

  /** crypt: in place it encrypts, into another buffer it decrypts.  It refuses buffers of
      different lengths and anything but a positive number of whole blocks. */
  method Crypt(md5: Hasher, secret: seq<Byte>, authenticator: seq<Byte>, salt: seq<Byte>,
               input: array<Byte>, output: array<Byte>) returns (ok: bool)
    modifies output
    ensures ok <==> input.Length == output.Length && input.Length % HASH_SIZE == 0 && input.Length > 0
    ensures ok && output == input ==>
              output[..] == Encrypt(md5, secret, md5(secret + authenticator + salt), old(input[..]))
    ensures ok && output != input ==>
              output[..] == Decrypt(md5, secret, md5(secret + authenticator + salt), old(input[..]))
    ensures !ok ==> output[..] == old(output[..])
  {
    if input.Length != output.Length {
      return false;
    }
    if input.Length % HASH_SIZE != 0 || input.Length < HASH_SIZE {
      return false;
    }
    if output != input {
      MemCpy(output, input);
    }
    var b := md5(secret + authenticator + salt);
    ChainLoop(md5, secret, b, input, output);
    ChainIsCipher(md5, secret, b, old(input[..]));
    return true;
  }

  /** What the loop computes: the next seed is the hash of the block before (not in place) or
      after (in place) it has been combined with the current seed. */
  ghost function Chain(md5: Hasher, secret: seq<Byte>, b: Block, data: seq<Byte>, inPlace: bool): (r: seq<Byte>)
    requires |data| % HASH_SIZE == 0
    ensures |r| == |data|
    decreases |data|
  {
    if data == [] then []
    else
      var block := Xor(data[..HASH_SIZE], b);
      block + Chain(md5, secret, md5(secret + (if inPlace then block else data[..HASH_SIZE])),
                    data[HASH_SIZE..], inPlace)
  }

  lemma ChainUnfolds(md5: Hasher, secret: seq<Byte>, b: Block, data: seq<Byte>, inPlace: bool)
    requires |data| % HASH_SIZE == 0 && data != []
    ensures var block := Xor(data[..HASH_SIZE], b);
            Chain(md5, secret, b, data, inPlace)
            == block + Chain(md5, secret, md5(secret + (if inPlace then block else data[..HASH_SIZE])),
                             data[HASH_SIZE..], inPlace)
  {
  }

  lemma {:induction false} ChainIsCipher(md5: Hasher, secret: seq<Byte>, b: Block, data: seq<Byte>)
    requires |data| % HASH_SIZE == 0
    ensures Chain(md5, secret, b, data, true) == Encrypt(md5, secret, b, data)
    ensures Chain(md5, secret, b, data, false) == Decrypt(md5, secret, b, data)
    decreases |data|
  {
    if data != [] {
      ChainIsCipher(md5, secret, md5(secret + Xor(data[..HASH_SIZE], b)), data[HASH_SIZE..]);
      ChainIsCipher(md5, secret, md5(secret + data[..HASH_SIZE]), data[HASH_SIZE..]);
    }
  }

  lemma WholeBlocks(length: nat, pos: nat)
    requires length % HASH_SIZE == 0 && pos % HASH_SIZE == 0 && pos <= length
    ensures (length - pos) % HASH_SIZE == 0
    ensures pos < length ==> pos + HASH_SIZE <= length && (pos + HASH_SIZE) % HASH_SIZE == 0
  {
  }

  /** One round of the loop: combine a block with the seed, and hash the next seed from what
      `input` holds now. */
  method ChainBlock(md5: Hasher, secret: seq<Byte>, b: Block, input: array<Byte>, output: array<Byte>, pos: nat)
    returns (next: Block)
    requires input.Length == output.Length && pos + HASH_SIZE <= input.Length
    requires input[pos..pos + HASH_SIZE] == output[pos..pos + HASH_SIZE]
    modifies output
    ensures output[..pos] == old(output[..pos]) && output[pos + HASH_SIZE..] == old(output[pos + HASH_SIZE..])
    ensures output[pos..pos + HASH_SIZE] == Xor(old(output[pos..pos + HASH_SIZE]), b)
    ensures pos + HASH_SIZE < input.Length ==>
              next == md5(secret + (if output == input then Xor(old(output[pos..pos + HASH_SIZE]), b)
                                    else old(output[pos..pos + HASH_SIZE])))
  {
    MemXor(output, pos, b);
    next := b;
    if pos + HASH_SIZE < output.Length {
      next := md5(secret + input[pos..pos + HASH_SIZE]);
    }
  }

  /** The chain so far and the chain to come: one round moves a block from one to the other. */
  lemma ChainStep(md5: Hasher, secret: seq<Byte>, b: Block, data: seq<Byte>, pos: nat, done: seq<Byte>,
                  inPlace: bool, next: Block)
    requires |data| % HASH_SIZE == 0 && pos % HASH_SIZE == 0 && pos < |data|
    ensures pos + HASH_SIZE <= |data| && |data[pos..]| % HASH_SIZE == 0 && |data[pos + HASH_SIZE..]| % HASH_SIZE == 0
    ensures var block := Xor(data[pos..pos + HASH_SIZE], b);
            pos + HASH_SIZE == |data| ||
            next == md5(secret + (if inPlace then block else data[pos..pos + HASH_SIZE])) ==>
              done + Chain(md5, secret, b, data[pos..], inPlace)
              == (done + block) + Chain(md5, secret, next, data[pos + HASH_SIZE..], inPlace)
  {
    WholeBlocks(|data|, pos);
    WholeBlocks(|data|, pos + HASH_SIZE);
    var rest := data[pos..];
    assert rest[..HASH_SIZE] == data[pos..pos + HASH_SIZE] && rest[HASH_SIZE..] == data[pos + HASH_SIZE..];
    ChainUnfolds(md5, secret, b, rest, inPlace);
  }

  /** What the loop has done when `pos` bytes of `out` are final and `b` is the next seed */
  ghost predicate Chained(md5: Hasher, secret: seq<Byte>, b0: Block, data: seq<Byte>, inPlace: bool,
                          out: seq<Byte>, pos: nat, b: Block)
    requires |data| % HASH_SIZE == 0
  {
    && pos <= |data| == |out| && pos % HASH_SIZE == 0 && |data[pos..]| % HASH_SIZE == 0
    && out[pos..] == data[pos..]
    && Chain(md5, secret, b0, data, inPlace) == out[..pos] + Chain(md5, secret, b, data[pos..], inPlace)
  }

  /** One round keeps that. */
  lemma ChainRound(md5: Hasher, secret: seq<Byte>, b0: Block, data: seq<Byte>, inPlace: bool,
                   out: seq<Byte>, pos: nat, b: Block, out': seq<Byte>, next: Block)
    requires |data| % HASH_SIZE == 0 && Chained(md5, secret, b0, data, inPlace, out, pos, b)
            && pos + HASH_SIZE <= |data| == |out'|
    requires out'[..pos] == out[..pos] && out'[pos + HASH_SIZE..] == out[pos + HASH_SIZE..]
    requires out'[pos..pos + HASH_SIZE] == Xor(out[pos..pos + HASH_SIZE], b)
    requires pos + HASH_SIZE < |data| ==>
               next == md5(secret + (if inPlace then Xor(out[pos..pos + HASH_SIZE], b) else out[pos..pos + HASH_SIZE]))
    ensures Chained(md5, secret, b0, data, inPlace, out', pos + HASH_SIZE, next)
  {
    var q := pos + HASH_SIZE;
    assert out[pos..][..HASH_SIZE] == out[pos..q] && data[pos..][..HASH_SIZE] == data[pos..q];
    assert out[pos..][HASH_SIZE..] == out[q..] && data[pos..][HASH_SIZE..] == data[q..];
    ChainStep(md5, secret, b, data, pos, out[..pos], inPlace, next);
    assert out'[..q] == out'[..pos] + out'[pos..q];
  }

  /** The loop of crypt, on buffers that are equal or hold the same bytes */
  method ChainLoop(md5: Hasher, secret: seq<Byte>, b0: Block, input: array<Byte>, output: array<Byte>)
    requires input.Length == output.Length && input.Length % HASH_SIZE == 0 && input[..] == output[..]
    modifies output
    ensures output[..] == Chain(md5, secret, b0, old(input[..]), output == input)
  {
    ghost var data, inPlace := input[..], output == input;
    var b, pos := b0, 0;
    assert data[0..] == data;
    while pos < input.Length
      invariant 0 <= pos <= input.Length && pos % HASH_SIZE == 0
      invariant !inPlace ==> input[..] == data
      invariant Chained(md5, secret, b0, data, inPlace, output[..], pos, b)
    {
      WholeBlocks(input.Length, pos);
      ghost var out, before := output[..], b;
      assert out[pos..][..HASH_SIZE] == data[pos..][..HASH_SIZE];
      assert input[pos..pos + HASH_SIZE] == output[pos..pos + HASH_SIZE];
      b := ChainBlock(md5, secret, b, input, output, pos);
      ChainRound(md5, secret, b0, data, inPlace, out, pos, before, output[..], b);
      pos := pos + HASH_SIZE;
    }
  }
}
