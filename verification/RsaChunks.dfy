/** RSA encryption of data of any length, chunk by chunk. The primitive is RSAES-PKCS1-v1_5 of
    section 7.2 of RFC 8017, abstracted as a randomized encryption into k bytes and its inverse. */
module RsaChunks {
  import opened Arithmetic
  import Bits
  import opened Wrappers

  type Byte = Bits.Byte

  datatype Error = EmptyData | InvalidKeySize | EncryptedDataLength | Chunk(from: nat, to: nat) | Refused

  /** A key pair of modulus length k bytes. Encrypting also takes the random value used for one chunk;
      either direction may refuse. */
  datatype Key = Key(k: nat, enc: (seq<Byte>, nat) -> Option<seq<Byte>>, dec: seq<Byte> -> Option<seq<Byte>>) {
    /** A message that leaves 11 bytes for the padding becomes exactly k bytes, which decrypt to it. */
    predicate Honest(m: seq<Byte>, random: nat) {
      |m| + 11 <= k && enc(m, random).Some? ==>
        |enc(m, random).value| == k && dec(enc(m, random).value) == Some(m)
    }

    ghost predicate Valid() {
      forall m: seq<Byte>, random: nat :: Honest(m, random)
    }
  }

  function Min(a: nat, b: nat): nat {
    if a < b then a else b
  }

  // ---------- cutting data into pieces ----------

  /** Where piece q starts. */
  function Start(size: nat, q: nat): nat {
    if q == 0 then 0 else Start(size, q - 1) + size
  }

  function Drop(data: seq<Byte>, at: nat): seq<Byte> {
    data[Min(at, |data|)..]
  }

  function Piece(data: seq<Byte>, size: nat, q: nat): seq<Byte> {
    data[Min(Start(size, q), |data|)..Min(Start(size, q) + size, |data|)]
  }

  /** How many pieces cover the data. */
  function Count(dataLen: int, size: nat): nat
    requires size > 0
    decreases dataLen
  {
    if dataLen <= 0 then 0 else 1 + Count(dataLen - size, size)
  }

  function EncryptedLen(k: nat, dataLen: int): int {
    if dataLen <= 0 || k - 11 <= 0 then 0 else (dataLen + (k - 11) - 1) / (k - 11) * k
  }

  lemma {:induction false} StartIsTimes(size: nat, q: nat)
    ensures Start(size, q) == q * size
  {
    if q > 0 {
      StartIsTimes(size, q - 1);
      assert q * size == (q - 1) * size + size;
    }
  }

  lemma {:induction false} StartGrows(size: nat, p: nat, q: nat)
    requires p <= q
    ensures Start(size, p) <= Start(size, q)
    decreases q - p
  {
    if p < q {
      StartGrows(size, p, q - 1);
    }
  }

  lemma {:induction false} CountIsQuotient(dataLen: nat, size: nat)
    requires size > 0
    ensures Count(dataLen, size) == (dataLen + size - 1) / size
    decreases dataLen
  {
    if dataLen > size {
      CountIsQuotient(dataLen - size, size);
      DivStep(dataLen - 1, size);
    } else {
      DivIs(dataLen + size - 1, size, if dataLen == 0 then 0 else 1, if dataLen == 0 then size - 1 else dataLen - 1);
    }
  }

  /** The length announced is k bytes for every chunk. */
  lemma LengthAnnounced(k: nat, dataLen: nat)
    requires k > 11
    ensures EncryptedLen(k, dataLen) == Start(k, Count(dataLen, k - 11))
  {
    CountIsQuotient(dataLen, k - 11);
    StartIsTimes(k, Count(dataLen, k - 11));
  }

  /** Exactly the first `count` pieces start inside the data. */
  ghost predicate Covers(size: nat, dataLen: int, count: nat) {
    forall q: nat :: Start(size, q) < dataLen <==> q < count
  }

  lemma {:induction false} StartShifts(size: nat, q: nat)
    requires q > 0
    ensures Start(size, q) == size + Start(size, q - 1)
  {
  }

  lemma {:induction false} CountCovers(dataLen: int, size: nat)
    requires size > 0
    ensures Covers(size, dataLen, Count(dataLen, size))
    decreases dataLen
  {
    if dataLen > 0 {
      CountCovers(dataLen - size, size);
      forall q: nat
        ensures Start(size, q) < dataLen <==> q < Count(dataLen, size)
      {
        if q > 0 {
          StartShifts(size, q);
          assert Start(size, q - 1) < dataLen - size <==> q - 1 < Count(dataLen - size, size);
        }
      }
    }
  }

  // ---------- joining pieces ----------

  type Piecewise = seq<Option<seq<Byte>>>

  /** The pieces from the n-th on joined, or the first one missing. */
  function Join(pieces: Piecewise, n: nat): Result<seq<Byte>, nat>
    decreases |pieces| - n
  {
    if n >= |pieces| then Ok([])
    else match pieces[n]
      case None => Err(n)
      case Some(c) => Prepend(c, Join(pieces, n + 1))
  }

  function Prepend(done: seq<Byte>, rest: Result<seq<Byte>, nat>): Result<seq<Byte>, nat> {
    if rest.Ok? then Ok(done + rest.value) else rest
  }

  lemma PrependTwice(a: seq<Byte>, b: seq<Byte>, rest: Result<seq<Byte>, nat>)
    ensures Prepend(a, Prepend(b, rest)) == Prepend(a + b, rest)
    ensures Prepend([], rest) == rest
  {
    if rest.Ok? {
      assert a + (b + rest.value) == (a + b) + rest.value;
      assert [] + rest.value == rest.value;
    }
  }

  /** Joining fails exactly at the first missing piece. */
  lemma {:induction false} JoinFailsFirst(pieces: Piecewise, n: nat, q: nat)
    ensures Join(pieces, n) == Err(q) <==>
              n <= q < |pieces| && pieces[q].None? && forall p: nat | n <= p < q :: pieces[p].Some?
    decreases |pieces| - n
  {
    if n < |pieces| {
      JoinFailsFirst(pieces, n + 1, q);
    }
  }

  lemma PieceOfRest(first: seq<Byte>, rest: seq<Byte>, k: nat, q: nat)
    requires |first| == k
    ensures Piece(first + rest, k, q) == if q == 0 then first else Piece(rest, k, q - 1)
  {
  }

  predicate Sized(pieces: Piecewise, k: nat) {
    forall q: nat | q < |pieces| && pieces[q].Some? :: |pieces[q].value| == k
  }

  /** Pieces of k bytes each can be cut out of what they join to. */
  lemma {:induction false} JoinThenCut(pieces: Piecewise, n: nat, k: nat, q: nat)
    requires n <= q < |pieces| && Join(pieces, n).Ok? && Sized(pieces, k)
    ensures pieces[q] == Some(Piece(Join(pieces, n).value, k, q - n))
    decreases q - n
  {
    var first, rest := pieces[n].value, Join(pieces, n + 1).value;
    PieceOfRest(first, rest, k, q - n);
    if n < q {
      JoinThenCut(pieces, n + 1, k, q);
    }
  }

  lemma {:induction false} JoinLength(pieces: Piecewise, n: nat, k: nat)
    requires n <= |pieces| && Join(pieces, n).Ok? && Sized(pieces, k)
    ensures |Join(pieces, n).value| == Start(k, |pieces| - n)
    decreases |pieces| - n
  {
    if n < |pieces| {
      JoinLength(pieces, n + 1, k);
    }
  }

  /** The pieces cut out of data join to the data. */
  lemma {:induction false} CutThenJoin(data: seq<Byte>, size: nat, pieces: Piecewise, n: nat)
    requires n <= |pieces| && Covers(size, |data|, |pieces|)
    requires forall q: nat | q < |pieces| :: pieces[q] == Some(Piece(data, size, q))
    ensures Join(pieces, n) == Ok(Drop(data, Start(size, n)))
    decreases |pieces| - n
  {
    if n < |pieces| {
      CutThenJoin(data, size, pieces, n + 1);
      assert Drop(data, Start(size, n)) == Piece(data, size, n) + Drop(data, Start(size, n + 1));
    }
  }

  // ---------- what Encrypt and Decrypt compute ----------

  /** The ciphertext of each chunk; chunk q is encrypted with random value q. */
  function EncryptChunks(key: Key, data: seq<Byte>, randoms: nat -> nat): (cs: Piecewise)
    requires key.k > 11
    ensures |cs| == Count(|data|, key.k - 11)
    ensures forall q: nat | q < |cs| :: cs[q] == key.enc(Piece(data, key.k - 11, q), randoms(q))
  {
    seq(Count(|data|, key.k - 11), (q: nat) => key.enc(Piece(data, key.k - 11, q), randoms(q)))
  }

  /** An error names the range of the piece that is missing. */
  function Named(joined: Result<seq<Byte>, nat>, size: nat, dataLen: nat): Result<seq<Byte>, Error> {
    match joined
    case Ok(s) => Ok(s)
    case Err(q) => Err(Chunk(Start(size, q), Min(Start(size, q) + size, dataLen)))
  }

  function Encrypted(key: Key, data: seq<Byte>, randoms: nat -> nat): Result<seq<Byte>, Error> {
    if data == [] then Err(EmptyData)
    else if key.k <= 11 then Err(InvalidKeySize)
    else Named(Join(EncryptChunks(key, data, randoms), 0), key.k - 11, |data|)
  }

  /** The plaintext of each of the first n blocks. */
  function DecryptBlocks(key: Key, data: seq<Byte>, n: nat): (ms: Piecewise)
    ensures |ms| == n && forall q: nat | q < n :: ms[q] == key.dec(Piece(data, key.k, q))
  {
    seq(n, (q: nat) => key.dec(Piece(data, key.k, q)))
  }

  function Decrypted(key: Key, data: seq<Byte>): Result<seq<Byte>, Error>
    requires key.k > 0
  {
    if |data| <= key.k then
      match key.dec(data) case None => Err(Refused) case Some(m) => Ok(m)
    else if |data| % key.k != 0 then Err(EncryptedDataLength)
    else Named(Join(DecryptBlocks(key, data, |data| / key.k), 0), key.k, |data|)
  }

  // ---------- round trip ----------

  lemma ChunkIsHonest(key: Key, data: seq<Byte>, randoms: nat -> nat, q: nat)
    requires key.Valid() && key.k > 11 && q < |EncryptChunks(key, data, randoms)|
    ensures var c := EncryptChunks(key, data, randoms)[q];
            c.Some? ==> |c.value| == key.k && key.dec(c.value) == Some(Piece(data, key.k - 11, q))
  {
    assert key.Honest(Piece(data, key.k - 11, q), randoms(q));
  }

  lemma ChunksSized(key: Key, data: seq<Byte>, randoms: nat -> nat)
    requires key.Valid() && key.k > 11
    ensures Sized(EncryptChunks(key, data, randoms), key.k)
  {
    forall q: nat | q < |EncryptChunks(key, data, randoms)| {
      ChunkIsHonest(key, data, randoms, q);
    }
  }

  /** Each k-byte block of the ciphertext decrypts to the chunk it was made from. */
  lemma BlockDecrypts(key: Key, data: seq<Byte>, randoms: nat -> nat, q: nat)
    requires key.Valid() && key.k > 11 && q < |EncryptChunks(key, data, randoms)|
    requires Join(EncryptChunks(key, data, randoms), 0).Ok?
    ensures key.dec(Piece(Join(EncryptChunks(key, data, randoms), 0).value, key.k, q)) == Some(Piece(data, key.k - 11, q))
  {
    ChunksSized(key, data, randoms);
    ChunkIsHonest(key, data, randoms, q);
    JoinThenCut(EncryptChunks(key, data, randoms), 0, key.k, q);
  }

  lemma OnePiece(data: seq<Byte>, size: nat)
    requires 0 < |data| <= size
    ensures Count(|data|, size) == 1 && Piece(data, size, 0) == data
  {
  }

  lemma Blocks(n: nat, k: nat)
    requires k > 0
    ensures Start(k, n) / k == n && Start(k, n) % k == 0
  {
    StartIsTimes(k, n);
    DivIs(n * k, k, n, 0);
  }

  lemma BlocksJoin(key: Key, data: seq<Byte>, randoms: nat -> nat)
    requires key.Valid() && key.k > 11 && Join(EncryptChunks(key, data, randoms), 0).Ok?
    ensures var cs := EncryptChunks(key, data, randoms);
            var c := Join(cs, 0).value;
            |c| == Start(key.k, |cs|) && Join(DecryptBlocks(key, c, |cs|), 0) == Ok(data)
  {
    var cs := EncryptChunks(key, data, randoms);
    ChunksSized(key, data, randoms);
    JoinLength(cs, 0, key.k);
    forall q: nat | q < |cs| {
      BlockDecrypts(key, data, randoms, q);
    }
    CountCovers(|data|, key.k - 11);
    CutThenJoin(data, key.k - 11, DecryptBlocks(key, Join(cs, 0).value, |cs|), 0);
  }

  /** Decrypt undoes Encrypt for every non-empty message, whether its ciphertext is one block or many. */
  lemma RoundTrip(key: Key, data: seq<Byte>, randoms: nat -> nat)
    requires key.Valid() && key.k > 11 && Encrypted(key, data, randoms).Ok?
    ensures var c := Encrypted(key, data, randoms).value;
            && |c| == EncryptedLen(key.k, |data|) && (|c| == key.k <==> |data| + 11 <= key.k)
            && Decrypted(key, c) == Ok(data)
  {
    var n, c := Count(|data|, key.k - 11), Encrypted(key, data, randoms).value;
    BlocksJoin(key, data, randoms);
    LengthAnnounced(key.k, |data|);
    if |data| <= key.k - 11 {
      OnePiece(data, key.k - 11);
      BlockDecrypts(key, data, randoms, 0);
      OnePiece(c, key.k);
    } else {
      TwoStarts(key.k, n);
      Blocks(n, key.k);
    }
  }

  lemma TwoStarts(k: nat, n: nat)
    requires k > 0 && n >= 2
    ensures Start(k, n) > k
  {
  }

  /** Past the argument checks, encryption fails exactly when the primitive refuses a chunk, and the
      error names the first one refused. */
  lemma FailsAtFirstRefusal(key: Key, data: seq<Byte>, randoms: nat -> nat, q: nat)
    requires data != [] && key.k > 11
    ensures var cs := EncryptChunks(key, data, randoms);
            && (Join(cs, 0) == Err(q) <==> q < |cs| && cs[q].None? && forall p: nat | p < q :: cs[p].Some?)
            && (q < |cs| <==> Start(key.k - 11, q) < |data|)
  {
    JoinFailsFirst(EncryptChunks(key, data, randoms), 0, q);
    CountCovers(|data|, key.k - 11);
  }

  // ---------- in plain positions ----------

  /** Bytes q * size up to (q + 1) * size of the data, or as many of them as there are; Start is q * size. */
  ghost predicate IsChunk(data: seq<Byte>, size: nat, q: nat, from: nat, to: nat) {
    from == Start(size, q) < |data| && to == if from + size < |data| then from + size else |data|
  }

  /** The pieces of Piece are these chunks. */
  lemma ChunkIsPiece(data: seq<Byte>, size: nat, q: nat, from: nat, to: nat)
    requires IsChunk(data, size, q, from, to)
    ensures from <= to <= |data| && Piece(data, size, q) == data[from..to]
  {
  }

  lemma BlockOfJoined(pieces: Piecewise, k: nat, q: nat)
    requires q < |pieces| && Join(pieces, 0).Ok? && Sized(pieces, k)
    ensures var c := Join(pieces, 0).value;
            Start(k, q) + k <= |c| && pieces[q] == Some(Piece(c, k, q))
  {
    JoinThenCut(pieces, 0, k, q);
    JoinLength(pieces, 0, k);
    StartGrows(k, q + 1, |pieces|);
  }

  /** The q-th modulus length of a ciphertext is the encryption of the q-th chunk under the q-th random value. */
  lemma CiphertextBlock(key: Key, data: seq<Byte>, randoms: nat -> nat, q: nat)
    requires key.Valid() && key.k > 11 && Encrypted(key, data, randoms).Ok? && Start(key.k - 11, q) < |data|
    ensures var c := Encrypted(key, data, randoms).value;
            Start(key.k, q) + key.k <= |c| && key.enc(Piece(data, key.k - 11, q), randoms(q)) == Some(Piece(c, key.k, q))
  {
    CountCovers(|data|, key.k - 11);
    ChunksSized(key, data, randoms);
    BlockOfJoined(EncryptChunks(key, data, randoms), key.k, q);
  }

  /** The error for a refused chunk names the bytes of that chunk. */
  lemma RefusedRange(key: Key, data: seq<Byte>, randoms: nat -> nat, q: nat, from: nat, to: nat)
    requires key.k > 11 && IsChunk(data, key.k - 11, q, from, to)
    ensures Join(EncryptChunks(key, data, randoms), 0) == Err(q) ==> Encrypted(key, data, randoms) == Err(Chunk(from, to))
  {
  }

  /** If the primitive refuses block q and none before it, the error names the range of block q. */
  lemma DecryptRefused(key: Key, data: seq<Byte>, q: nat, from: nat, to: nat)
    requires key.k > 0 && |data| > key.k && |data| % key.k == 0
    requires IsChunk(data, key.k, q, from, to) && key.dec(data[from..to]).None?
    requires forall p: nat | p < q :: key.dec(Piece(data, key.k, p)).Some?
    ensures Decrypted(key, data) == Err(Chunk(from, to)) && to == from + key.k
  {
    var n := |data| / key.k;
    ChunkIsPiece(data, key.k, q, from, to);
    Multiple(|data|, key.k);
    if q >= n {
      StartGrows(key.k, n, q);
    } else {
      StartGrows(key.k, q + 1, n);
    }
    JoinFailsFirst(DecryptBlocks(key, data, n), 0, q);
  }

  lemma Multiple(length: nat, k: nat)
    requires k > 0 && length % k == 0
    ensures length == Start(k, length / k)
  {
    StartIsTimes(k, length / k);
  }

  /** Decryption succeeds exactly if the primitive accepts the data as one block, or, when there is more than one
      block, the length is a multiple of the modulus length and it accepts every block. */
  lemma DecryptAccepts(key: Key, data: seq<Byte>)
    requires key.k > 0
    ensures Decrypted(key, data).Ok? <==>
              if |data| <= key.k then key.dec(data).Some?
              else |data| % key.k == 0 && forall q: nat | q < |data| / key.k :: key.dec(Piece(data, key.k, q)).Some?
  {
    if |data| > key.k && |data| % key.k == 0 {
      var ms := DecryptBlocks(key, data, |data| / key.k);
      if q: nat :| q < |ms| && ms[q].None? {
        JoinOkOnlyComplete(ms, 0, q);
      }
      if Join(ms, 0).Err? {
        JoinFailsFirst(ms, 0, Join(ms, 0).error);
      }
    }
  }

  lemma {:induction false} JoinOkOnlyComplete(pieces: Piecewise, n: nat, q: nat)
    requires n <= q < |pieces| && pieces[q].None?
    ensures Join(pieces, n).Err?
    decreases q - n
  {
    if n < q {
      JoinOkOnlyComplete(pieces, n + 1, q);
    }
  }

  // ---------- the loops ----------

  /** Writes c at offset, leaving the rest of the buffer alone. */
  method CopyAt(buffer: array<Byte>, offset: nat, c: seq<Byte>)
    requires offset + |c| <= buffer.Length
    modifies buffer
    ensures buffer[..offset + |c|] == old(buffer[..offset]) + c
    ensures buffer[offset + |c|..] == old(buffer[offset + |c|..])
  {
    forall j | 0 <= j < |c| {
      buffer[offset + j] := c[j];
    }
  }

  /** Every copy stays inside the buffer allocated up front, and a success fills that buffer exactly. */
  method Encrypt(key: Key, data: seq<Byte>, randoms: nat -> nat) returns (r: Result<seq<Byte>, Error>)
    requires key.Valid()
    ensures r == Encrypted(key, data, randoms)
    ensures data == [] ==> r == Err(EmptyData)
    ensures data != [] && key.k <= 11 ==> r == Err(InvalidKeySize)
    ensures r.Ok? ==> |r.value| == EncryptedLen(key.k, |data|)
  {
    if |data| == 0 {
      return Err(EmptyData);
    }
    var maxChunkSize := key.k - 11;
    if maxChunkSize <= 0 {
      return Err(InvalidKeySize);
    }
    var total := EncryptedLen(key.k, |data|);
    ghost var cs := EncryptChunks(key, data, randoms);
    CountCovers(|data|, maxChunkSize);
    LengthAnnounced(key.k, |data|);
    var result := new Byte[total](_ => 0);
    r := EncryptInto(key, data, randoms, result, cs);
  }

  /** One turn of the loop: the chunk at i goes into the buffer at offset, unless it is refused. */
  method EncryptOne(key: Key, data: seq<Byte>, randoms: nat -> nat, i: nat, n: nat, result: array<Byte>, offset: nat)
    returns (end: nat, c: Option<seq<Byte>>)
    requires key.Valid() && key.k > 11 && i == Start(key.k - 11, n) < |data| && offset + key.k <= result.Length
    modifies result
    ensures end == Min(i + (key.k - 11), |data|) && c == key.enc(Piece(data, key.k - 11, n), randoms(n))
    ensures c.Some? ==> |c.value| == key.k && result[..offset + key.k] == old(result[..offset]) + c.value
  {
    end := i + (key.k - 11);
    if end > |data| {
      end := |data|;
    }
    c := key.enc(data[i..end], randoms(n));
    assert key.Honest(data[i..end], randoms(n));
    if c.Some? {
      CopyAt(result, offset, c.value);
    }
  }

  /** The loop of Encrypt, over a buffer with room for every chunk. */
  method EncryptInto(key: Key, data: seq<Byte>, randoms: nat -> nat, result: array<Byte>, ghost cs: Piecewise)
    returns (r: Result<seq<Byte>, Error>)
    requires key.Valid() && key.k > 11 && result.Length == Start(key.k, |cs|) && Covers(key.k - 11, |data|, |cs|)
    requires forall q: nat | q < |cs| :: cs[q] == key.enc(Piece(data, key.k - 11, q), randoms(q))
    modifies result
    ensures r == Named(Join(cs, 0), key.k - 11, |data|)
    ensures r.Ok? ==> |r.value| == result.Length
  {
    var maxChunkSize := key.k - 11;
    var offset: nat, i: nat, n: nat := 0, 0, 0;
    ghost var written: seq<Byte> := [];
    PrependTwice([], [], Join(cs, 0));
    while i < |data|
      invariant i == Start(maxChunkSize, n) && offset == Start(key.k, n) && n <= |cs|
      invariant offset <= result.Length && result[..offset] == written
      invariant Join(cs, 0) == Prepend(written, Join(cs, n))
      decreases |cs| - n
    {
      StartGrows(key.k, n + 1, |cs|);
      var end, enc := EncryptOne(key, data, randoms, i, n, result, offset);
      assert cs[n] == enc;
      if enc.None? {
        return Err(Chunk(i, end));
      }
      PrependTwice(written, enc.value, Join(cs, n + 1));
      written := written + enc.value;
      offset := offset + |enc.value|;
      i := i + maxChunkSize;
      n := n + 1;
    }
    assert result[..offset] == result[..] && written + [] == written;
    return Ok(result[..]);
  }

  method Decrypt(key: Key, data: seq<Byte>) returns (r: Result<seq<Byte>, Error>)
    requires key.k > 0
    ensures r == Decrypted(key, data)
    ensures |data| <= key.k && key.dec(data).Some? ==> r == Ok(key.dec(data).value)
    ensures |data| <= key.k && key.dec(data).None? ==> r == Err(Refused)
    ensures |data| > key.k && |data| % key.k != 0 ==> r == Err(EncryptedDataLength)
  {
    if |data| <= key.k {
      var m := key.dec(data);
      return if m.Some? then Ok(m.value) else Err(Refused);
    }
    if |data| % key.k != 0 {
      return Err(EncryptedDataLength);
    }
    ghost var ms := DecryptBlocks(key, data, |data| / key.k);
    StartIsTimes(key.k, |ms|);
    var result: seq<Byte> := [];
    var i: nat := 0;
    ghost var n: nat := 0;
    PrependTwice([], [], Join(ms, 0));
    while i < |data|
      invariant i == Start(key.k, n) && n <= |ms| && |data| == Start(key.k, |ms|)
      invariant Join(ms, 0) == Prepend(result, Join(ms, n))
      decreases |ms| - n
    {
      StartGrows(key.k, n + 1, |ms|);
      var m := key.dec(data[i..i + key.k]);
      assert ms[n] == m;
      if m.None? {
        return Err(Chunk(i, i + key.k));
      }
      PrependTwice(result, m.value, Join(ms, n + 1));
      result := result + m.value;
      i := i + key.k;
      n := n + 1;
    }
    if n < |ms| {
      StartGrows(key.k, n + 1, |ms|);
    }
    assert result + [] == result;
    return Ok(result);
  }
}
