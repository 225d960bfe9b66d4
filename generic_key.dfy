/**
 * Fixed-width key and value buffers (GenericKey<KeySize>, GenericValue<KeySize>)
 * and the three-way comparator over keys (GenericComparator<KeySize>).
 *
 * A buffer holds KeySize bytes. SetFromInteger clears the buffer and copies
 * the 8 bytes of an int64 into its front. The model fixes their order as
 * least significant byte first; ToInteger reads the same 8 bytes back in the
 * same order as a two's-complement int64, so no property proved here depends
 * on that choice.
 */
module GenericKeys {
  import opened Orders

  type byte = b: int | 0 <= b < 256

  type int64 = x: int | -0x8000_0000_0000_0000 <= x < 0x8000_0000_0000_0000

  /** Width in bytes of the int64 that SetFromInteger copies in. */
  const IntWidth: nat := 8

  const TwoTo63: nat := 0x8000_0000_0000_0000
  const TwoTo64: nat := 0x1_0000_0000_0000_0000

  /** The contents of a KeySize-byte buffer; KeySize must leave room for the 8 copied bytes. */
  type Buffer = s: seq<byte> | IntWidth <= |s| witness [0, 0, 0, 0, 0, 0, 0, 0]

  /** The contents of a GenericKey<8>, the key type the list is instantiated with. */
  type Key8 = s: Buffer | |s| == IntWidth witness [0, 0, 0, 0, 0, 0, 0, 0]

  function Pow256(n: nat): (p: nat)
    ensures 1 <= p
  {
    if n == 0 then 1 else 256 * Pow256(n - 1)
  }

  lemma Pow256Width()
    ensures Pow256(IntWidth) == TwoTo64
  {
    assert Pow256(0) == 1;
    assert Pow256(4) == 0x1_0000_0000;
  }

  /** The n low-order bytes of u, least significant first. */
  function LittleEndian(u: nat, n: nat): (s: seq<byte>)
    ensures |s| == n
  {
    if n == 0 then [] else [u % 256] + LittleEndian(u / 256, n - 1)
  }

  /** The unsigned number whose little-endian bytes are s. */
  function FromLittleEndian(s: seq<byte>): (u: nat)
    ensures u < Pow256(|s|)
  {
    if s == [] then 0
    else
      var rest := FromLittleEndian(s[1..]);
      assert s[0] + 256 * rest <= 255 + 256 * (Pow256(|s| - 1) - 1);
      s[0] + 256 * rest
  }

  lemma {:induction false} LittleEndianRoundTrip(u: nat, n: nat)
    requires u < Pow256(n)
    ensures FromLittleEndian(LittleEndian(u, n)) == u
  {
    if n > 0 {
      var s := LittleEndian(u, n);
      assert u / 256 < Pow256(n - 1);
      LittleEndianRoundTrip(u / 256, n - 1);
      assert s[1..] == LittleEndian(u / 256, n - 1);
      assert u == u % 256 + 256 * (u / 256);
    }
  }

  lemma {:induction false} FromLittleEndianRoundTrip(s: seq<byte>)
    ensures LittleEndian(FromLittleEndian(s), |s|) == s
  {
    if s != [] {
      var rest := FromLittleEndian(s[1..]);
      var u := s[0] + 256 * rest;
      assert u % 256 == s[0] && u / 256 == rest by {
        ByteDivMod(rest, s[0]);
      }
      FromLittleEndianRoundTrip(s[1..]);
      assert LittleEndian(u, |s|) == [s[0]] + LittleEndian(rest, |s| - 1);
    }
  }

  lemma ByteDivMod(q: nat, r: byte)
    ensures (r + 256 * q) % 256 == r && (r + 256 * q) / 256 == q
  {
    var u := r + 256 * q;
    var q', r' := u / 256, u % 256;
    assert 256 * (q - q') == r' - r;
  }

  /** The bit pattern of k read as an unsigned 64-bit number. */
  function Unsigned(k: int64): (u: nat)
    ensures u < TwoTo64
  {
    if k < 0 then k + TwoTo64 else k
  }

  /** A 64-bit pattern read as a two's-complement number. */
  function Signed(u: nat): int64
    requires u < TwoTo64
  {
    if u < TwoTo63 then u else u - TwoTo64
  }

  /** The buffer that SetFromInteger(k) leaves in a KeySize-byte buffer. */
  function Encode(k: int64, keySize: nat): (b: Buffer)
    requires IntWidth <= keySize
    ensures |b| == keySize
  {
    LittleEndian(Unsigned(k), IntWidth) + seq(keySize - IntWidth, _ => 0)
  }

  /** The first 8 bytes of the buffer as an unsigned 64-bit number. */
  function Bits64(b: Buffer): (u: nat)
    ensures u < TwoTo64
  {
    Pow256Width();
    FromLittleEndian(b[..IntWidth])
  }

  /** ToInteger: the first 8 bytes of the buffer as a little-endian int64. */
  function Decode(b: Buffer): int64
  {
    Signed(Bits64(b))
  }

  /** GenericComparator<KeySize>::operator(): -1, 0 or 1 by the decoded integers. */
  function Compare(lhs: Buffer, rhs: Buffer): int
  {
    if Decode(lhs) < Decode(rhs) then -1
    else if Decode(lhs) == Decode(rhs) then 0
    else 1
  }

  /** GenericValue<KeySize>::operator==: memcmp of the KeySize bytes. */
  function BytesEqual(a: Buffer, b: Buffer): bool
    requires |a| == |b|
  {
    forall i :: 0 <= i < |a| ==> a[i] == b[i]
  }

  /** Decoding a freshly set buffer gives back the integer, whatever KeySize is. */
  lemma DecodeEncode(k: int64, keySize: nat)
    requires IntWidth <= keySize
    ensures Decode(Encode(k, keySize)) == k
  {
    var b := Encode(k, keySize);
    Pow256Width();
    assert b[..IntWidth] == LittleEndian(Unsigned(k), IntWidth);
    LittleEndianRoundTrip(Unsigned(k), IntWidth);
  }

  /** With KeySize == 8 the codec is a bijection: setting a buffer from its own integer restores it. */
  lemma EncodeDecode(b: Buffer)
    requires |b| == IntWidth
    ensures Encode(Decode(b), IntWidth) == b
  {
    Pow256Width();
    var u := FromLittleEndian(b[..IntWidth]);
    assert b[..IntWidth] == b;
    assert Unsigned(Signed(u)) == u;
    FromLittleEndianRoundTrip(b);
  }

  /** SetFromInteger leaves every byte past the first 8 zero. */
  lemma EncodePadding(k: int64, keySize: nat, i: nat)
    requires IntWidth <= i < keySize
    ensures Encode(k, keySize)[i] == 0
  {
  }

  /** The comparator on encoded keys agrees with the order of the integers. */
  lemma CompareEncoded(x: int64, y: int64, keySize: nat)
    requires IntWidth <= keySize
    ensures Compare(Encode(x, keySize), Encode(y, keySize)) == (if x < y then -1 else if x == y then 0 else 1)
  {
    DecodeEncode(x, keySize);
    DecodeEncode(y, keySize);
  }

  /** The comparator is a three-way total order on buffers. */
  lemma CompareIsTotalOrder(a: Buffer, b: Buffer, c: Buffer)
    ensures Compare(a, b) in {-1, 0, 1}
    ensures Compare(a, a) == 0
    ensures Compare(a, b) == -Compare(b, a)
    ensures Compare(a, b) <= 0 && Compare(b, c) <= 0 ==> Compare(a, c) <= 0
    ensures Compare(a, b) == 0 <==> Decode(a) == Decode(b)
  {
  }

  /** GenericComparator<8> is the total order the skip list requires of its comparator. */
  lemma {:induction false} CompareOnKey8IsTotalOrder()
    ensures IsTotalOrder((a: Key8, b: Key8) => Compare(a, b))
  {
    forall a: Key8, b: Key8 | Compare(a, b) == 0
      ensures a == b
    {
      EncodeDecode(a);
      EncodeDecode(b);
    }
  }

  /** Two values compare equal exactly when they were set from the same integer. */
  lemma BytesEqualEncoded(x: int64, y: int64, keySize: nat)
    requires IntWidth <= keySize
    ensures BytesEqual(Encode(x, keySize), Encode(y, keySize)) <==> x == y
  {
    var a, b := Encode(x, keySize), Encode(y, keySize);
    if BytesEqual(a, b) {
      assert a == b;
      DecodeEncode(x, keySize);
      DecodeEncode(y, keySize);
    }
  }

  /** The method shared by GenericKey and GenericValue: memset to zero, then memcpy the int64. */
  method SetBuffer(data: array<byte>, k: int64)
    requires IntWidth <= data.Length
    modifies data
    ensures data[..] == Encode(k, data.Length)
  {
    for i := 0 to data.Length
      invariant forall j :: 0 <= j < i ==> data[j] == 0
    {
      data[i] := 0;
    }
    var bytes := LittleEndian(Unsigned(k), IntWidth);
    for i := 0 to IntWidth
      invariant forall j :: 0 <= j < i ==> data[j] == bytes[j]
      invariant forall j :: IntWidth <= j < data.Length ==> data[j] == 0
    {
      data[i] := bytes[i];
    }
    assert data[..] == Encode(k, data.Length);
  }

  /** GenericKey<KeySize>: a key buffer. */
  class GenericKey {
    const data: array<byte>

    constructor (keySize: nat)
      requires IntWidth <= keySize
      ensures data.Length == keySize && fresh(data)
    {
      data := new byte[keySize];
    }

    method SetFromInteger(k: int64)
      requires IntWidth <= data.Length
      modifies data
      ensures data[..] == Encode(k, data.Length)
      ensures ToInteger() == k
    {
      SetBuffer(data, k);
      DecodeEncode(k, data.Length);
    }

    function ToInteger(): int64
      requires IntWidth <= data.Length
      reads data
    {
      Decode(data[..])
    }
  }

  /** GenericValue<KeySize>: a value buffer with byte-wise equality. */
  class GenericValue {
    const data: array<byte>

    constructor (valueSize: nat)
      requires IntWidth <= valueSize
      ensures data.Length == valueSize && fresh(data)
    {
      data := new byte[valueSize];
    }

    method SetFromInteger(v: int64)
      requires IntWidth <= data.Length
      modifies data
      ensures data[..] == Encode(v, data.Length)
      ensures ToInteger() == v
    {
      SetBuffer(data, v);
      DecodeEncode(v, data.Length);
    }

    function ToInteger(): int64
      requires IntWidth <= data.Length
      reads data
    {
      Decode(data[..])
    }

    function Equals(other: GenericValue): (eq: bool)
      requires IntWidth <= data.Length && data.Length == other.data.Length
      reads data, other.data
      ensures eq <==> data[..] == other.data[..]
    {
      BytesEqual(data[..], other.data[..])
    }
  }
}
