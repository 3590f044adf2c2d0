/** The hash that spreads operations over the workers: integers by value, text by 64-bit FNV-1a. */
module MongoHash {
  import Bits
  import opened Wrappers

  const TWO64: nat := 0x1_0000_0000_0000_0000

  type Byte = Bits.Byte
  type Word = w: nat | w < TWO64
  type Int64 = i: int | -0x8000_0000_0000_0000 <= i < 0x8000_0000_0000_0000

  datatype HashKey =
    | Signed(i: Int64)
    | Unsigned(u: Word)
    | Text(bytes: seq<Byte>)
    | Custom(h: Word)
    | Unsupported

  const OFFSET: Word := 14695981039346656037
  const PRIME: nat := 1099511628211

  function TimesPrime(h: nat): Word { h * PRIME % TWO64 }

  /** FNV-1a over 64 bits. */
  function Fnv1a(bytes: seq<Byte>): Word {
    if bytes == [] then OFFSET
    else TimesPrime(Bits.Xor(Fnv1a(bytes[..|bytes| - 1]), bytes[|bytes| - 1] as nat, 64))
  }

  method HashText(bytes: seq<Byte>) returns (h: Word)
    ensures h == Fnv1a(bytes)
  {
    h := OFFSET;
    for i := 0 to |bytes|
      invariant h == Fnv1a(bytes[..i])
    {
      assert bytes[..i + 1][..i] == bytes[..i];
      var mixed := Bits.Xor(h, bytes[i] as nat, 64);
      h := TimesPrime(mixed);
    }
    assert bytes[..|bytes|] == bytes;
  }

  /** The word an integer of any width becomes: its value, in two's complement if negative. */
  function WordOf(i: Int64): Word {
    if i >= 0 then i else i + TWO64
  }

  function HashOf(key: HashKey): Option<Word> {
    match key
    case Signed(i) => Some(WordOf(i))
    case Unsigned(u) => Some(u)
    case Text(bytes) => Some(Fnv1a(bytes))
    case Custom(h) => Some(h)
    case Unsupported => None
  }

  /** An unsupported key is a panic; every other key has a hash, always the same. */
  method GetHashCode(key: HashKey) returns (hash: Option<Word>)
    ensures hash == HashOf(key)
    ensures key.Signed? ==> hash == Some(if key.i >= 0 then key.i else key.i + 0x1_0000_0000_0000_0000)
    ensures key.Unsigned? ==> hash == Some(key.u)
    ensures key.Custom? ==> hash == Some(key.h)
    ensures hash == None <==> key.Unsupported?
  {
    match key {
      case Signed(i) => return Some(i % TWO64);
      case Unsigned(u) => return Some(u);
      case Text(bytes) =>
        var h := HashText(bytes);
        return Some(h);
      case Custom(h) => return Some(h);
      case Unsupported => return None;
    }
  }

  /** Integers hash alike exactly if they are equal, within a type and across signed and unsigned types,
      except that a negative one hashes like its two's complement word. */
  lemma IntegersHashByValue(i: Int64, j: Int64, u: Word)
    ensures HashOf(Signed(i)) == HashOf(Signed(j)) <==> i == j
    ensures HashOf(Signed(i)) == HashOf(Unsigned(u)) <==> i == u || i == u - TWO64
  {
  }

  // ---------- one changed byte always changes the hash ----------

  /** The multiplicative inverse of PRIME modulo 2^64. */
  const INVERSE: nat := 14886173955864302971
  const QUOTIENT: nat := 887285111055

  lemma InverseIsRight()
    ensures PRIME * INVERSE == QUOTIENT * TWO64 + 1
  {
  }

  lemma TimesPrimeInjective(x: Word, y: Word)
    requires TimesPrime(x) == TimesPrime(y)
    ensures x == y
  {
    var p, q := x * PRIME / TWO64, y * PRIME / TWO64;
    assert (x - y) * PRIME == (p - q) * TWO64;
    assert (x - y) * (PRIME * INVERSE) == (p - q) * INVERSE * TWO64;
    InverseIsRight();
    assert x - y == ((p - q) * INVERSE - (x - y) * QUOTIENT) * TWO64;
  }

  lemma WordRange()
    ensures Bits.Pow2(64) == TWO64
  {
    Bits.ByteRange();
    Bits.NextByte(8);
    Bits.NextByte(16);
    Bits.NextByte(24);
    Bits.NextByte(32);
    Bits.NextByte(40);
    Bits.NextByte(48);
    Bits.NextByte(56);
  }

  /** The 64-bit parameters of FNV-1a: the hash starts at the offset basis, and each byte is mixed into the hash so
      far, bit by bit, before multiplying by the prime. */
  lemma FnvDefined(bytes: seq<Byte>, b: Byte)
    ensures HashOf(Text([])) == Some(0xcbf29ce484222325)
    ensures exists mixed: Word ::
              && HashOf(Text(bytes + [b])) == Some(mixed * 0x100_0000_01b3 % TWO64)
              && forall k: nat | k < 64 ::
                   Bits.Bit(mixed, k) == (Bits.Bit(Fnv1a(bytes), k) + Bits.Bit(b as nat, k)) % 2
  {
    WordRange();
    var mixed: Word := Bits.Xor(Fnv1a(bytes), b as nat, 64);
    assert (bytes + [b])[..|bytes|] == bytes;
    assert HashOf(Text(bytes + [b])) == Some(TimesPrime(mixed));
    forall k: nat | k < 64
      ensures Bits.Bit(mixed, k) == (Bits.Bit(Fnv1a(bytes), k) + Bits.Bit(b as nat, k)) % 2
    {
      Bits.XorBits(Fnv1a(bytes), b as nat, 64, k);
    }
  }

  /** A step of the hash loses nothing: neither of the hash so far nor of the byte. */
  lemma StepInjective(h: Word, k: Word, x: Byte, y: Byte)
    ensures Bits.Xor(h, x as nat, 64) < TWO64 && Bits.Xor(k, y as nat, 64) < TWO64
    ensures TimesPrime(Bits.Xor(h, x as nat, 64)) == TimesPrime(Bits.Xor(k, y as nat, 64)) && x == y ==> h == k
    ensures TimesPrime(Bits.Xor(h, x as nat, 64)) == TimesPrime(Bits.Xor(k, y as nat, 64)) && h == k ==> x == y
  {
    WordRange();
    var a, b := Bits.Xor(h, x as nat, 64), Bits.Xor(k, y as nat, 64);
    if TimesPrime(a) == TimesPrime(b) {
      TimesPrimeInjective(a, b);
      if x == y {
        Bits.XorTwice(h, x as nat, 64);
        Bits.XorTwice(k, x as nat, 64);
      }
      if h == k {
        Bits.XorTwice(x as nat, h, 64);
        Bits.XorTwice(y as nat, h, 64);
        Bits.XorCommutes(x as nat, h, 64);
        Bits.XorCommutes(y as nat, h, 64);
      }
    }
  }

  lemma {:induction false} SameTail(s: seq<Byte>, t: seq<Byte>, tail: seq<Byte>)
    ensures Fnv1a(s + tail) == Fnv1a(t + tail) <==> Fnv1a(s) == Fnv1a(t)
    decreases |tail|
  {
    if tail == [] {
      assert s + tail == s && t + tail == t;
    } else {
      var init, b := tail[..|tail| - 1], tail[|tail| - 1];
      assert (s + tail)[..|s + tail| - 1] == s + init && (t + tail)[..|t + tail| - 1] == t + init;
      StepInjective(Fnv1a(s + init), Fnv1a(t + init), b, b);
      SameTail(s, t, init);
    }
  }

  /** Texts that differ in exactly one byte never hash alike. */
  lemma OneByteChangesHash(head: seq<Byte>, x: Byte, y: Byte, tail: seq<Byte>)
    ensures HashOf(Text(head + [x] + tail)) == HashOf(Text(head + [y] + tail)) <==> x == y
  {
    if Fnv1a(head + [x] + tail) == Fnv1a(head + [y] + tail) {
      SameTail(head + [x], head + [y], tail);
      assert (head + [x])[..|head|] == head && (head + [y])[..|head|] == head;
      StepInjective(Fnv1a(head), Fnv1a(head), x, y);
    }
  }
}
