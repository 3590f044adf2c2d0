/** AES in CBC mode with PKCS#7 padding: an object whose encrypter and decrypter carry their chaining
    value from one call to the next. The block cipher itself is any pair of inverse functions on
    16-byte blocks. CBC is section 6.2 of NIST SP 800-38A, the padding section 6.3 of RFC 5652. */
module AesCbc {
  import opened Arithmetic
  import Bits
  import opened Wrappers

  type Byte = Bits.Byte
  const BLOCK: nat := 16
  type Block = b: seq<Byte> | |b| == 16 witness seq(16, i => 0)

  datatype Error = KeySize | CBCIVSize | EncryptedDataLength | InvalidPadding

  // ---------- padding ----------

  function Repeat(x: Byte, n: nat): (s: seq<Byte>)
    ensures |s| == n && forall i | 0 <= i < n :: s[i] == x
  {
    seq(n, i => x)
  }

  /** n bytes of value n. */
  function PadBytes(n: nat): seq<Byte>
    requires n < 256
  {
    Repeat(n as Byte, n)
  }

  function PadLen(n: nat, blockSize: nat): nat
    requires blockSize > 0
  {
    blockSize - n % blockSize
  }

  function Padded(data: seq<Byte>, blockSize: nat): seq<Byte>
    requires 0 < blockSize < 256
  {
    data + PadBytes(PadLen(|data|, blockSize))
  }

  method Pkcs7Pad(data: seq<Byte>, blockSize: nat) returns (padded: seq<Byte>)
    requires 0 < blockSize < 256
    ensures padded == Padded(data, blockSize)
    ensures data <= padded && forall i | |data| <= i < |padded| :: padded[i] as nat == |padded| - |data|
    ensures |padded| % blockSize == 0 && |data| < |padded| <= |data| + blockSize
  {
    var padding := blockSize - |data| % blockSize;
    var padtext := new Byte[padding](i => 0);
    for i := 0 to padding
      invariant forall j | 0 <= j < i :: padtext[j] == padding as Byte
    {
      padtext[i] := padding as Byte;
    }
    padded := data + padtext[..];
    assert padtext[..] == Repeat(padding as Byte, padding);
    PaddedLength(|data|, blockSize);
  }

  lemma PaddedLength(n: nat, blockSize: nat)
    requires blockSize > 0
    ensures (n + PadLen(n, blockSize)) % blockSize == 0
    ensures n + PadLen(n, blockSize) == (n / blockSize + 1) * blockSize
  {
    var q := n / blockSize;
    assert n == q * blockSize + n % blockSize;
    assert n + PadLen(n, blockSize) == (q + 1) * blockSize;
    DivIs((q + 1) * blockSize, blockSize, q + 1, 0);
  }

  /** What is left after removing n trailing copies of n, for the n the last byte names. */
  ghost predicate EndsPadded(data: seq<Byte>, plain: seq<Byte>) {
    exists n: nat | 0 < n < 256 :: data == plain + PadBytes(n)
  }

  /** The last byte says how long the padding is; all of it must carry that byte. The length is only
      bounded by the data, not by the block size. */
  method Pkcs7Unpad(data: seq<Byte>) returns (r: Result<seq<Byte>, Error>)
    requires data != []
    ensures r == Unpadded(data)
    ensures r.Ok? ==> r.value <= data && |r.value| < |data|
    ensures r.Ok? ==> forall i | |r.value| <= i < |data| :: data[i] as nat == |data| - |r.value|
    ensures r.Err? <==> var n := data[|data| - 1] as nat;
                        n == 0 || n > |data| || exists i | |data| - n <= i < |data| :: data[i] as nat != n
    ensures r.Err? ==> r.error == InvalidPadding
  {
    var length := |data|;
    var padding := data[length - 1] as nat;
    if padding > length || padding == 0 {
      return Err(InvalidPadding);
    }
    for i := length - padding to length
      invariant forall j | length - padding <= j < i :: data[j] == padding as Byte
    {
      if data[i] != padding as Byte {
        return Err(InvalidPadding);
      }
    }
    return Ok(data[..length - padding]);
  }

  function Unpadded(data: seq<Byte>): Result<seq<Byte>, Error>
    requires data != []
  {
    var n := data[|data| - 1] as nat;
    if n > |data| || n == 0 || exists j | |data| - n <= j < |data| :: data[j] != n as Byte
    then Err(InvalidPadding) else Ok(data[..|data| - n])
  }

  lemma LastOfPadding(data: seq<Byte>, plain: seq<Byte>, n: nat)
    requires 0 < n < 256 && data == plain + PadBytes(n)
    ensures data[|data| - 1] as nat == n && Unpadded(data) == Ok(plain)
  {
  }

  /** Unpadding succeeds exactly on data that ends in n bytes of value n, and returns what precedes. */
  lemma UnpadCharacterized(data: seq<Byte>, plain: seq<Byte>)
    requires data != []
    ensures Unpadded(data) == Ok(plain) <==> EndsPadded(data, plain)
  {
    if Unpadded(data) == Ok(plain) {
      var n := data[|data| - 1] as nat;
      assert data == plain + PadBytes(n);
    }
    if EndsPadded(data, plain) {
      var n: nat :| 0 < n < 256 && data == plain + PadBytes(n);
      LastOfPadding(data, plain, n);
    }
  }

  lemma PadThenUnpad(data: seq<Byte>, blockSize: nat)
    requires 0 < blockSize < 256
    ensures Padded(data, blockSize) != [] && Unpadded(Padded(data, blockSize)) == Ok(data)
  {
  }

  /** Accepted data is what Pad would have produced if and only if its length is a multiple of the
      block size and the padding is not longer than a block. */
  lemma UnpadThenPad(data: seq<Byte>, plain: seq<Byte>, blockSize: nat)
    requires data != [] && 0 < blockSize < 256 && Unpadded(data) == Ok(plain)
    ensures Padded(plain, blockSize) == data <==> |data| % blockSize == 0 && |data| - |plain| <= blockSize
  {
    UnpadCharacterized(data, plain);
    var n: nat :| 0 < n < 256 && data == plain + PadBytes(n);
    var m := PadLen(|plain|, blockSize);
    PaddedLength(|plain|, blockSize);
    if |data| % blockSize == 0 && n <= blockSize {
      PadLenUnique(|plain|, n, blockSize);
    }
  }

  lemma PadLenUnique(k: nat, n: nat, m: nat)
    requires 0 < n <= m && (k + n) % m == 0
    ensures n == PadLen(k, m)
  {
    var q, t := k / m, (k + n) / m;
    assert k == q * m + k % m;
    assert k + n == t * m;
    assert (t - q) * m == k % m + n;
    Multiples(t - q, m);
  }

  // ---------- chaining ----------

  function XorByte(x: Byte, y: Byte): Byte {
    Bits.ByteRange();
    Bits.Xor(x as nat, y as nat, 8) as Byte
  }

  function Xor(a: Block, b: Block): Block { seq(16, i requires 0 <= i < 16 => XorByte(a[i], b[i])) }

  lemma XorTwice(a: Block, b: Block)
    ensures Xor(Xor(a, b), b) == a
  {
    forall i | 0 <= i < 16
      ensures XorByte(XorByte(a[i], b[i]), b[i]) == a[i]
    {
      Bits.ByteRange();
      Bits.XorTwice(a[i] as nat, b[i] as nat, 8);
    }
  }

  /** Each bit of a mixed byte is the sum, modulo two, of the bits at its place. */
  lemma MixedBit(x: Byte, y: Byte, k: nat)
    requires k < 8
    ensures Bits.Pow2(k) > 0
    ensures XorByte(x, y) as nat / Bits.Pow2(k) % 2 ==
            (x as nat / Bits.Pow2(k) % 2 + y as nat / Bits.Pow2(k) % 2) % 2
  {
    Bits.ByteRange();
    Bits.XorBit(x as nat, y as nat, 8, k);
  }

  /** z is x and y mixed bit by bit. */
  ghost predicate MixedByte(z: nat, x: nat, y: nat) {
    forall k: nat | k < 8 :: Bits.Bit(z, k) == (Bits.Bit(x, k) + Bits.Bit(y, k)) % 2
  }

  ghost predicate Mixed(m: Block, a: Block, b: Block) {
    forall i | 0 <= i < 16 :: MixedByte(m[i] as nat, a[i] as nat, b[i] as nat)
  }

  lemma XorMixes(a: Block, b: Block)
    ensures Mixed(Xor(a, b), a, b)
  {
    forall i | 0 <= i < 16
      ensures MixedByte(XorByte(a[i], b[i]) as nat, a[i] as nat, b[i] as nat)
    {
      Bits.ByteRange();
      XorMixesByte(a[i] as nat, b[i] as nat);
    }
  }

  lemma XorMixesByte(x: nat, y: nat)
    ensures MixedByte(Bits.Xor(x, y, 8), x, y)
  {
    forall k: nat | k < 8
      ensures Bits.Bit(Bits.Xor(x, y, 8), k) == (Bits.Bit(x, k) + Bits.Bit(y, k)) % 2
    {
      Bits.XorBits(x, y, 8, k);
    }
  }

  lemma XorCommutes(a: Block, b: Block)
    ensures Xor(a, b) == Xor(b, a)
  {
    forall i | 0 <= i < 16
      ensures XorByte(a[i], b[i]) == XorByte(b[i], a[i])
    {
      Bits.XorCommutes(a[i] as nat, b[i] as nat, 8);
    }
  }

  type Whole = s: seq<Byte> | |s| % 16 == 0 witness []

  /** One CBC encryption of whole blocks from a chaining value. */
  function CbcEncrypt(e: Block -> Block, iv: Block, data: Whole): (c: Whole)
    ensures |c| == |data|
    decreases |data|
  {
    if data == [] then []
    else
      var b := e(Xor(data[..16], iv));
      b + CbcEncrypt(e, b, data[16..])
  }

  function CbcDecrypt(d: Block -> Block, iv: Block, data: Whole): (p: Whole)
    ensures |p| == |data|
    decreases |data|
  {
    if data == [] then [] else Xor(d(data[..16]), iv) + CbcDecrypt(d, data[..16], data[16..])
  }

  /** The chaining value after processing ciphertext: its last block. */
  function LastBlock(iv: Block, c: Whole): Block { if c == [] then iv else c[|c| - 16..] }

  ghost predicate Inverse(e: Block -> Block, d: Block -> Block) { forall b: Block :: d(e(b)) == b }

  lemma {:induction false} DecryptEncrypt(e: Block -> Block, d: Block -> Block, iv: Block, data: Whole)
    requires Inverse(e, d)
    ensures CbcDecrypt(d, iv, CbcEncrypt(e, iv, data)) == data
    decreases |data|
  {
    if data != [] {
      var b := e(Xor(data[..16], iv));
      var c := CbcEncrypt(e, iv, data);
      assert c[..16] == b && c[16..] == CbcEncrypt(e, b, data[16..]);
      DecryptEncrypt(e, d, b, data[16..]);
      XorTwice(data[..16], iv);
      assert data == data[..16] + data[16..];
    }
  }

  function BlockOf(data: Whole, j: nat): Block
    requires j < |data| / 16
  {
    data[16 * j..16 * j + 16]
  }

  lemma BlockCons(x: Block, rest: Whole, j: nat)
    requires j < |rest| / 16
    ensures |x + rest| % 16 == 0 && BlockOf(x + rest, j + 1) == BlockOf(rest, j)
  {
    var s: Whole := x + rest;
    assert s[16 * (j + 1)..16 * (j + 1) + 16] == rest[16 * j..16 * j + 16];
  }

  /** Ciphertext block j encrypts plaintext block j mixed with the ciphertext block before it. */
  lemma {:induction false} BlockEncrypts(e: Block -> Block, iv: Block, data: Whole, j: nat)
    requires j < |data| / 16
    ensures BlockOf(CbcEncrypt(e, iv, data), j) ==
            e(Xor(BlockOf(data, j), if j == 0 then iv else BlockOf(CbcEncrypt(e, iv, data), j - 1)))
    decreases |data|
  {
    var x: Block, rest: Whole := data[..16], data[16..];
    assert data == x + rest;
    var b := e(Xor(x, iv));
    var c := CbcEncrypt(e, b, rest);
    if j > 0 {
      BlockEncrypts(e, b, rest, j - 1);
      BlockCons(x, rest, j - 1);
      BlockCons(b, c, j - 1);
      if j > 1 {
        BlockCons(b, c, j - 2);
      }
    }
  }

  /** Ciphertext block j encrypts a block that is plaintext block j mixed, bit by bit, with ciphertext block j - 1,
      or with the chaining value if j is 0. */
  ghost predicate BlockEncrypted(e: Block -> Block, iv: Block, data: Whole, c: Whole, j: nat)
    requires |c| == |data| && j < |c| / 16
  {
    exists m: Block ::
      c[16 * j..16 * j + 16] == e(m) &&
      Mixed(m, data[16 * j..16 * j + 16], if j == 0 then iv else c[16 * j - 16..16 * j])
  }

  lemma EncryptsMixed(e: Block -> Block, iv: Block, data: Whole, j: nat)
    requires j < |data| / 16
    ensures BlockEncrypted(e, iv, data, CbcEncrypt(e, iv, data), j)
  {
    var c := CbcEncrypt(e, iv, data);
    BlockEncrypts(e, iv, data, j);
    XorMixes(BlockOf(data, j), if j == 0 then iv else BlockOf(c, j - 1));
  }

  /** Plaintext block j is the decrypted ciphertext block j mixed with the ciphertext block before it. */
  lemma {:induction false} BlockDecrypts(d: Block -> Block, iv: Block, c: Whole, j: nat)
    requires j < |c| / 16
    ensures BlockOf(CbcDecrypt(d, iv, c), j) == Xor(d(BlockOf(c, j)), if j == 0 then iv else BlockOf(c, j - 1))
    decreases |c|
  {
    var x: Block, rest: Whole := c[..16], c[16..];
    assert c == x + rest;
    var p := CbcDecrypt(d, x, rest);
    if j > 0 {
      BlockDecrypts(d, x, rest, j - 1);
      BlockCons(x, rest, j - 1);
      BlockCons(Xor(d(x), iv), p, j - 1);
      if j > 1 {
        BlockCons(x, rest, j - 2);
      }
    }
  }

  /** Under an invertible cipher, two chaining values give the same ciphertext only if they are the same. */
  lemma ChainMatters(e: Block -> Block, d: Block -> Block, iv: Block, other: Block, data: Whole)
    requires Inverse(e, d) && data != []
    ensures CbcEncrypt(e, iv, data) == CbcEncrypt(e, other, data) <==> iv == other
  {
    var p := data[..16];
    if CbcEncrypt(e, iv, data) == CbcEncrypt(e, other, data) {
      assert e(Xor(p, iv)) == CbcEncrypt(e, iv, data)[..16] == CbcEncrypt(e, other, data)[..16] == e(Xor(p, other));
      assert d(e(Xor(p, iv))) == Xor(p, iv) && d(e(Xor(p, other))) == Xor(p, other);
      XorCommutes(p, iv);
      XorCommutes(p, other);
      XorTwice(iv, p);
      XorTwice(other, p);
    }
  }

  /** Encrypting in two calls with the chaining value carried over is encrypting once. */
  lemma {:induction false} EncryptSplit(e: Block -> Block, iv: Block, a: Whole, b: Whole)
    ensures |a + b| % 16 == 0
    ensures CbcEncrypt(e, iv, a + b) == CbcEncrypt(e, iv, a) + CbcEncrypt(e, LastBlock(iv, CbcEncrypt(e, iv, a)), b)
    decreases |a|
  {
    if a == [] {
      assert a + b == b;
    } else {
      var x := e(Xor(a[..16], iv));
      assert (a + b)[..16] == a[..16] && (a + b)[16..] == a[16..] + b;
      EncryptSplit(e, x, a[16..], b);
      LastBlockCons(x, CbcEncrypt(e, x, a[16..]), iv);
    }
  }

  lemma LastBlockCons(x: Block, rest: Whole, iv: Block)
    ensures |x + rest| % 16 == 0 && LastBlock(iv, x + rest) == LastBlock(x, rest)
  {
  }

  // ---------- the object ----------

  class AESCBCCryptor {
    const encrypt: Block -> Block
    const decrypt: Block -> Block
    var encChain: Block
    var decChain: Block

    constructor (encrypt: Block -> Block, decrypt: Block -> Block, iv: Block)
      ensures this.encrypt == encrypt && this.decrypt == decrypt && encChain == iv && decChain == iv
    {
      this.encrypt, this.decrypt, encChain, decChain := encrypt, decrypt, iv, iv;
    }

    function EncryptedLen(srcLen: nat): nat { (srcLen / 16 + 1) * 16 }

    method Encrypt(data: seq<Byte>) returns (encrypted: seq<Byte>)
      modifies this`encChain
      ensures |encrypted| % 16 == 0 && encrypted != []
      ensures |Padded(data, 16)| % 16 == 0 && encrypted == CbcEncrypt(encrypt, old(encChain), Padded(data, 16))
      ensures encChain == LastBlock(old(encChain), encrypted)
      ensures encChain == encrypted[|encrypted| - 16..]
      ensures |encrypted| == (|data| / 16 + 1) * 16 == EncryptedLen(|data|)
      ensures forall j: nat | j < |encrypted| / 16 ::
                BlockEncrypted(encrypt, old(encChain), Padded(data, 16), encrypted, j)
    {
      var padded := Pkcs7Pad(data, 16);
      PaddedLength(|data|, 16);
      encrypted := CbcEncrypt(encrypt, encChain, padded);
      forall j: nat | j < |encrypted| / 16
        ensures BlockEncrypted(encrypt, encChain, padded, encrypted, j)
      {
        EncryptsMixed(encrypt, encChain, padded, j);
      }
      encChain := LastBlock(encChain, encrypted);
    }

    /** The decrypter advances over the whole input even when the padding turns out to be wrong. */
    method Decrypt(data: seq<Byte>) returns (r: Result<seq<Byte>, Error>)
      requires data != []
      modifies this`decChain
      ensures |data| % 16 != 0 ==> r == Err(EncryptedDataLength) && decChain == old(decChain)
      ensures |data| % 16 == 0 ==>
                r == Unpadded(CbcDecrypt(decrypt, old(decChain), data)) && decChain == LastBlock(old(decChain), data)
    {
      if |data| % 16 != 0 {
        return Err(EncryptedDataLength);
      }
      var decrypted := CbcDecrypt(decrypt, decChain, data);
      decChain := LastBlock(decChain, data);
      r := Pkcs7Unpad(decrypted);
    }
  }

  /** NewAESCBCCryptor: the key must be of an AES size and the IV one block. */
  method NewAESCBCCryptor(keyLen: nat, iv: seq<Byte>, encrypt: Block -> Block, decrypt: Block -> Block)
      returns (r: Result<AESCBCCryptor, Error>)
    ensures r == Err(KeySize) <==> keyLen !in {16, 24, 32}
    ensures r == Err(CBCIVSize) <==> keyLen in {16, 24, 32} && |iv| != 16
    ensures r.Ok? ==> fresh(r.value) && |iv| == 16 && r.value.encChain == iv == r.value.decChain
    ensures r.Ok? ==> r.value.encrypt == encrypt && r.value.decrypt == decrypt
    ensures r.Err? ==> r.error.KeySize? || r.error.CBCIVSize?
  {
    if keyLen != 16 && keyLen != 24 && keyLen != 32 {
      return Err(KeySize);
    }
    if |iv| != 16 {
      return Err(CBCIVSize);
    }
    var c := new AESCBCCryptor(encrypt, decrypt, iv);
    return Ok(c);
  }

  // ---------- sequences of calls ----------

  /** A padded message: one block or more. */
  type Piece = s: seq<Byte> | s != [] && |s| % 16 == 0 witness Repeat(16, 16)

  function PadAll(messages: seq<seq<Byte>>): (pieces: seq<Piece>)
    ensures |pieces| == |messages|
    ensures forall i | 0 <= i < |messages| :: pieces[i] == Padded(messages[i], 16)
  {
    seq(|messages|, i requires 0 <= i < |messages| => (PaddedLength(|messages[i]|, 16); Padded(messages[i], 16)))
  }

  /** The ciphertexts of pieces encrypted in order, each from the chaining value the last one left. */
  function EncryptPieces(e: Block -> Block, iv: Block, pieces: seq<Piece>): (cs: seq<Piece>)
    ensures |cs| == |pieces| && forall i | 0 <= i < |cs| :: |cs[i]| == |pieces[i]|
    decreases |pieces|
  {
    if pieces == [] then []
    else
      var c := CbcEncrypt(e, iv, pieces[0]);
      [c] + EncryptPieces(e, LastBlock(iv, c), pieces[1..])
  }

  /** The ciphertexts of messages encrypted in order by one cryptor. */
  function EncryptAll(e: Block -> Block, iv: Block, messages: seq<seq<Byte>>): seq<Piece> {
    EncryptPieces(e, iv, PadAll(messages))
  }

  /** What a cryptor answers to ciphertexts given in order; one of a wrong length leaves it unmoved. */
  function DecryptAll(d: Block -> Block, iv: Block, cs: seq<seq<Byte>>): (rs: seq<Result<seq<Byte>, Error>>)
    requires forall i | 0 <= i < |cs| :: cs[i] != []
    ensures |rs| == |cs|
    decreases |cs|
  {
    if cs == [] then []
    else if |cs[0]| % 16 != 0 then [Err(EncryptedDataLength)] + DecryptAll(d, iv, cs[1..])
    else [Unpadded(CbcDecrypt(d, iv, cs[0]))] + DecryptAll(d, LastBlock(iv, cs[0]), cs[1..])
  }

  function Concat(parts: seq<Piece>): (w: Whole) {
    if parts == [] then [] else parts[0] + Concat(parts[1..])
  }

  /** Every ciphertext has the announced length. */
  lemma EncryptAllLengths(e: Block -> Block, iv: Block, messages: seq<seq<Byte>>)
    ensures |EncryptAll(e, iv, messages)| == |messages|
    ensures forall i | 0 <= i < |messages| :: |EncryptAll(e, iv, messages)[i]| == (|messages[i]| / 16 + 1) * 16
  {
  }

  lemma {:induction false} PiecesDecrypt(e: Block -> Block, d: Block -> Block, iv: Block, pieces: seq<Piece>)
    requires Inverse(e, d)
    ensures var rs := DecryptAll(d, iv, EncryptPieces(e, iv, pieces));
            |rs| == |pieces| && forall i | 0 <= i < |pieces| :: rs[i] == Unpadded(pieces[i])
    decreases |pieces|
  {
    if pieces != [] {
      var c := CbcEncrypt(e, iv, pieces[0]);
      var cs := EncryptPieces(e, iv, pieces);
      assert cs[0] == c && cs[1..] == EncryptPieces(e, LastBlock(iv, c), pieces[1..]);
      DecryptEncrypt(e, d, iv, pieces[0]);
      PiecesDecrypt(e, d, LastBlock(iv, c), pieces[1..]);
    }
  }

  /** Decrypting the ciphertexts in the same order gives back exactly the messages. */
  lemma CallsRoundTrip(e: Block -> Block, d: Block -> Block, iv: Block, messages: seq<seq<Byte>>)
    requires Inverse(e, d)
    ensures var rs := DecryptAll(d, iv, EncryptAll(e, iv, messages));
            |rs| == |messages| && forall i | 0 <= i < |messages| :: rs[i] == Ok(messages[i])
  {
    PiecesDecrypt(e, d, iv, PadAll(messages));
    forall i | 0 <= i < |messages|
      ensures Unpadded(PadAll(messages)[i]) == Ok(messages[i])
    {
      PadThenUnpad(messages[i], 16);
    }
  }

  lemma {:induction false} PiecesAreOnePass(e: Block -> Block, iv: Block, pieces: seq<Piece>)
    ensures Concat(EncryptPieces(e, iv, pieces)) == CbcEncrypt(e, iv, Concat(pieces))
    decreases |pieces|
  {
    if pieces != [] {
      var c := CbcEncrypt(e, iv, pieces[0]);
      var cs := EncryptPieces(e, iv, pieces);
      assert cs[0] == c && cs[1..] == EncryptPieces(e, LastBlock(iv, c), pieces[1..]);
      PiecesAreOnePass(e, LastBlock(iv, c), pieces[1..]);
      EncryptSplit(e, iv, pieces[0], Concat(pieces[1..]));
    }
  }

  /** The concatenated ciphertexts are one CBC pass over the concatenated padded messages. */
  lemma CallsAreOnePass(e: Block -> Block, iv: Block, messages: seq<seq<Byte>>)
    ensures Concat(EncryptAll(e, iv, messages)) == CbcEncrypt(e, iv, Concat(PadAll(messages)))
  {
    PiecesAreOnePass(e, iv, PadAll(messages));
  }

  lemma MoveOne<T>(done: seq<T>, rest: seq<T>)
    requires rest != []
    ensures done + rest == done + [rest[0]] + rest[1..]
  {
  }

  lemma EncryptNext(e: Block -> Block, iv: Block, pieces: seq<Piece>, i: nat)
    requires i < |pieces|
    ensures var c := CbcEncrypt(e, iv, pieces[i]);
            EncryptPieces(e, iv, pieces[i..]) == [c] + EncryptPieces(e, LastBlock(iv, c), pieces[i + 1..])
  {
    assert pieces[i..][1..] == pieces[i + 1..];
  }

  lemma DecryptNext(d: Block -> Block, iv: Block, cs: seq<seq<Byte>>, i: nat)
    requires i < |cs| && forall j | 0 <= j < |cs| :: cs[j] != []
    ensures DecryptAll(d, iv, cs[i..]) ==
            if |cs[i]| % 16 != 0 then [Err(EncryptedDataLength)] + DecryptAll(d, iv, cs[i + 1..])
            else [Unpadded(CbcDecrypt(d, iv, cs[i]))] + DecryptAll(d, LastBlock(iv, cs[i]), cs[i + 1..])
  {
    assert cs[i..][1..] == cs[i + 1..];
  }

  predicate IsPadded(pieces: seq<Piece>, messages: seq<seq<Byte>>, i: nat)
    requires i < |pieces| == |messages|
  {
    pieces[i] == Padded(messages[i], 16)
  }

  method EncryptOne(c: AESCBCCryptor, messages: seq<seq<Byte>>, i: nat, ghost pieces: seq<Piece>) returns (encrypted: Piece)
    requires i < |pieces| == |messages| && IsPadded(pieces, messages, i)
    modifies c`encChain
    ensures encrypted == CbcEncrypt(c.encrypt, old(c.encChain), pieces[i])
    ensures c.encChain == LastBlock(old(c.encChain), encrypted)
  {
    encrypted := c.Encrypt(messages[i]);
  }

  method EncryptEach(c: AESCBCCryptor, messages: seq<seq<Byte>>, ghost pieces: seq<Piece>) returns (cs: seq<Piece>)
    requires |pieces| == |messages| && forall i: nat | i < |messages| :: IsPadded(pieces, messages, i)
    modifies c`encChain
    ensures cs == EncryptPieces(c.encrypt, old(c.encChain), pieces)
  {
    cs := [];
    ghost var rest := EncryptPieces(c.encrypt, c.encChain, pieces);
    assert pieces[0..] == pieces;
    for i := 0 to |messages|
      invariant cs + rest == EncryptPieces(c.encrypt, old(c.encChain), pieces)
      invariant rest == EncryptPieces(c.encrypt, c.encChain, pieces[i..])
    {
      EncryptNext(c.encrypt, c.encChain, pieces, i);
      MoveOne(cs, rest);
      var encrypted := EncryptOne(c, messages, i, pieces);
      cs, rest := cs + [encrypted], rest[1..];
    }
  }

  /** One cryptor encrypting messages in order. */
  method EncryptMessages(c: AESCBCCryptor, messages: seq<seq<Byte>>) returns (cs: seq<Piece>)
    modifies c`encChain
    ensures cs == EncryptAll(c.encrypt, old(c.encChain), messages)
  {
    cs := EncryptEach(c, messages, PadAll(messages));
  }

  /** One cryptor decrypting ciphertexts in order; a wrong one does not stop it. */
  method DecryptMessages(c: AESCBCCryptor, cs: seq<seq<Byte>>) returns (rs: seq<Result<seq<Byte>, Error>>)
    requires forall i | 0 <= i < |cs| :: cs[i] != []
    modifies c`decChain
    ensures rs == DecryptAll(c.decrypt, old(c.decChain), cs)
  {
    rs := [];
    ghost var rest := DecryptAll(c.decrypt, c.decChain, cs);
    assert cs[0..] == cs;
    for i := 0 to |cs|
      invariant rs + rest == DecryptAll(c.decrypt, old(c.decChain), cs)
      invariant rest == DecryptAll(c.decrypt, c.decChain, cs[i..])
    {
      DecryptNext(c.decrypt, c.decChain, cs, i);
      MoveOne(rs, rest);
      var r := c.Decrypt(cs[i]);
      rs, rest := rs + [r], rest[1..];
    }
  }

  /** Two cryptors made alike: what one encrypts in order the other decrypts in order. */
  method SendAll(sender: AESCBCCryptor, receiver: AESCBCCryptor, messages: seq<seq<Byte>>)
      returns (cs: seq<Piece>, rs: seq<Result<seq<Byte>, Error>>)
    requires Inverse(sender.encrypt, receiver.decrypt) && sender.encChain == receiver.decChain
    modifies sender`encChain, receiver`decChain
    ensures |rs| == |messages| && forall i | 0 <= i < |messages| :: rs[i] == Ok(messages[i])
    ensures Concat(cs) == CbcEncrypt(sender.encrypt, old(sender.encChain), Concat(PadAll(messages)))
  {
    cs := EncryptMessages(sender, messages);
    rs := DecryptMessages(receiver, cs);
    CallsRoundTrip(sender.encrypt, receiver.decrypt, old(sender.encChain), messages);
    CallsAreOnePass(sender.encrypt, old(sender.encChain), messages);
  }
}
