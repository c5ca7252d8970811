/** The byte and key encodings of qrng/crypto.py: bitstrings to bytes,
    bytes to hexadecimal, the direct AES key and the length and validation
    logic of the HKDF-style key derivation. AES itself, the operating
    system's randomness and the HMAC-SHA-256 computation are not modelled;
    the HMAC is a parameter. */
module Crypto {
  import opened Common
  import opened Binary

  type byte = x: nat | x < 256

  // ---------------------------------------------------------------------------
  // bits_to_bytes

  /** `bitstr.ljust(((len(bitstr) // 8) + 1) * 8, '0')` when the length is
      not a multiple of 8, the string itself otherwise. */
  function PadToBytes(s: string): (p: string)
    ensures |p| % 8 == 0 && |p| == (|s| + 7) / 8 * 8
    ensures p[..|s|] == s
    ensures forall i :: |s| <= i < |p| ==> p[i] == '0'
  {
    if |s| % 8 != 0 then s + Zeros((|s| / 8 + 1) * 8 - |s|) else s
  }

  /** `n.to_bytes(k, byteorder='big')`: the `k` low bytes of `n`, most
      significant first. */
  function ToBytes(n: nat, k: nat): (r: seq<byte>)
    ensures |r| == k
  {
    if k == 0 then [] else ToBytes(n / 256, k - 1) + [n % 256]
  }

  /** `bits_to_bytes`: the empty string gives no bytes; otherwise the string,
      right-padded with zeros to whole bytes, is read as a big-endian binary
      number by `int(bitstr, 2)` (a `ValueError` on any other character,
      modelled as `None`) and written out in `len // 8` bytes. */
  function BitsToBytes(s: string): (r: Option<seq<byte>>)
    ensures r.Some? <==> IsBinary(s)
    ensures r.Some? ==> |r.value| == (|s| + 7) / 8
  {
    if s == [] then Some([])
    else
      var p := PadToBytes(s);
      PaddedBinary(s);
      match ParseBinary(p)
      case None => None
      case Some(v) => Some(ToBytes(v, |p| / 8))
  }

  lemma PaddedBinary(s: string)
    ensures IsBinary(PadToBytes(s)) <==> IsBinary(s)
  {
    var p := PadToBytes(s);
    if IsBinary(p) {
      forall i | 0 <= i < |s|
        ensures s[i] == '0' || s[i] == '1'
      {
        assert s[i] == p[..|s|][i];
      }
    }
  }

  /** `v * 2^k`, one doubling at a time. */
  function Shift(v: nat, k: nat): nat
  {
    if k == 0 then v else 2 * Shift(v, k - 1)
  }

  lemma ShiftByte(v: nat)
    ensures Shift(v, 8) == 256 * v
  {
    assert Shift(v, 1) == 2 * v;
    assert Shift(v, 2) == 4 * v;
    assert Shift(v, 3) == 8 * v;
    assert Shift(v, 4) == 16 * v;
    assert Shift(v, 5) == 32 * v;
    assert Shift(v, 6) == 64 * v;
    assert Shift(v, 7) == 128 * v;
  }

  /** Appending digits shifts the value of the front. */
  lemma {:induction false} BinValueAppend(a: string, b: string)
    ensures BinValue(a + b) == Shift(BinValue(a), |b|) + BinValue(b)
    decreases |b|
  {
    if b == [] {
      assert a + b == a;
    } else {
      var b' := b[..|b| - 1];
      assert (a + b)[..|a + b| - 1] == a + b';
      BinValueAppend(a, b');
    }
  }

  /** A byte's worth of digits is worth less than 256. */
  lemma ByteValueBound(c: string)
    requires |c| == 8
    ensures BinValue(c) < 256
  {
    BinValueBound(c);
    assert Pow2(8) == 256 by {
      assert Pow2(4) == 16;
    }
  }

  /** Byte `k` of `p`: the digits `p[8k : 8k + 8]`. */
  function Chunk(p: string, k: nat): string
    requires 8 * k + 8 <= |p|
  {
    p[8 * k..8 * k + 8]
  }

  /** Writing the value of a whole number of bytes of digits gives the value
      of each group of eight digits in turn. */
  lemma {:induction false} ToBytesChunks(p: string)
    requires |p| % 8 == 0
    ensures forall k :: 0 <= k < |p| / 8 ==> ToBytes(BinValue(p), |p| / 8)[k] == BinValue(Chunk(p, k))
    decreases |p|
  {
    if p != [] {
      var m := |p| / 8;
      var q, c := p[..|p| - 8], p[|p| - 8..];
      assert p == q + c;
      ToBytesChunks(q);
      BinValueAppend(q, c);
      ShiftByte(BinValue(q));
      ByteValueBound(c);
      var v := BinValue(p);
      assert v / 256 == BinValue(q) && v % 256 == BinValue(c);
      forall k | 0 <= k < m
        ensures ToBytes(v, m)[k] == BinValue(Chunk(p, k))
      {
        if k < m - 1 {
          assert Chunk(p, k) == Chunk(q, k);
        } else {
          assert Chunk(p, k) == c;
        }
      }
    }
  }

  /** Byte `k` of the result is the big-endian value of bits `8k … 8k + 7`
      of the zero-padded input. */
  lemma BitsToBytesChunks(s: string)
    requires IsBinary(s)
    ensures forall k :: 0 <= k < |BitsToBytes(s).value| ==>
      BitsToBytes(s).value[k] == BinValue(Chunk(PadToBytes(s), k))
  {
    if s != [] {
      PaddedBinary(s);
      ToBytesChunks(PadToBytes(s));
    }
  }

  /** Equal-length binary strings with equal values are equal. */
  lemma {:induction false} BinValueInjective(a: string, b: string)
    requires |a| == |b| && IsBinary(a) && IsBinary(b)
    requires BinValue(a) == BinValue(b)
    ensures a == b
    decreases |a|
  {
    if a != [] {
      var a', b' := a[..|a| - 1], b[..|b| - 1];
      var x, y := BinValue(a'), BinValue(b');
      var i, j := Bit(a[|a| - 1]), Bit(b[|b| - 1]);
      assert 2 * x + i == 2 * y + j;
      assert i == j && x == y;
      assert a[|a| - 1] == b[|b| - 1];
      assert IsBinary(a') && IsBinary(b');
      BinValueInjective(a', b');
      assert a == a' + [a[|a| - 1]] && b == b' + [b[|b| - 1]];
    }
  }

  /** Distinct binary strings of the same whole number of bytes give
      distinct bytes. */
  lemma BitsToBytesInjective(s: string, t: string)
    requires IsBinary(s) && IsBinary(t) && |s| == |t| && |s| % 8 == 0
    requires BitsToBytes(s) == BitsToBytes(t)
    ensures s == t
  {
    BitsToBytesChunks(s);
    BitsToBytesChunks(t);
    assert PadToBytes(s) == s && PadToBytes(t) == t;
    forall i | 0 <= i < |s|
      ensures s[i] == t[i]
    {
      var k := i / 8;
      assert BinValue(Chunk(s, k)) == BinValue(Chunk(t, k));
      BinaryChunk(s, k);
      BinaryChunk(t, k);
      BinValueInjective(Chunk(s, k), Chunk(t, k));
      assert s[i] == Chunk(s, k)[i - 8 * k] && t[i] == Chunk(t, k)[i - 8 * k];
    }
  }

  lemma BinaryChunk(p: string, k: nat)
    requires IsBinary(p) && 8 * k + 8 <= |p|
    ensures IsBinary(Chunk(p, k))
  {
    var c := Chunk(p, k);
    forall i | 0 <= i < 8
      ensures c[i] == '0' || c[i] == '1'
    {
      assert c[i] == p[8 * k + i];
    }
  }

  /** `bits_to_bytes('')` is empty, and a single `1` is padded to `0x80`. */
  lemma BitsToBytesShortExamples()
    ensures BitsToBytes("") == Some([])
    ensures BitsToBytes("1") == Some([128])
  {
    var r := BitsToBytes("1");
    assert IsBinary("1");
    BitsToBytesChunks("1");
    assert PadToBytes("1") == "1" + Zeros(7);
    assert Chunk(PadToBytes("1"), 0) == "1" + Zeros(7);
    BinValueAppend("1", Zeros(7));
    AllZeros(7);
    assert BinValue("1") == 1;
    ShiftByte(1);
    assert Shift(1, 7) == 128;
    assert |r.value| == 1 && r.value[0] == 128;
    assert r.value == [128];
  }

  /** A whole byte of `0`s and of `1`s. */
  lemma BitsToBytesByteExamples()
    ensures BitsToBytes("00000000") == Some([0])
    ensures BitsToBytes("11111111") == Some([255])
  {
    assert "00000000" == Zeros(8);
    BitsToBytesChunks(Zeros(8));
    assert Chunk(Zeros(8), 0) == Zeros(8);
    AllZeros(8);
    var z := BitsToBytes(Zeros(8)).value;
    assert |z| == 1 && z[0] == 0;
    assert z == [0];

    assert "11111111" == Ones(8);
    BitsToBytesChunks(Ones(8));
    assert Chunk(Ones(8), 0) == Ones(8);
    AllOnes(8);
    assert Pow2(8) == 256 by {
      assert Pow2(4) == 16;
    }
    var o := BitsToBytes(Ones(8)).value;
    assert |o| == 1 && o[0] == 255;
    assert o == [255];
  }

  /** `bits_to_bytes('1111111100000000') == b'\xff\x00'`. */
  lemma BitsToBytesTwoByteExample()
    ensures BitsToBytes("1111111100000000") == Some([255, 0])
  {
    var s := "1111111100000000";
    assert s == Ones(8) + Zeros(8);
    assert IsBinary(s);
    BitsToBytesChunks(s);
    assert PadToBytes(s) == s;
    assert Chunk(s, 0) == Ones(8) && Chunk(s, 1) == Zeros(8);
    AllOnes(8);
    AllZeros(8);
    assert Pow2(8) == 256 by {
      assert Pow2(4) == 16;
    }
    var r := BitsToBytes(s).value;
    assert |r| == 2 && r[0] == 255 && r[1] == 0;
    assert r == [255, 0];
  }

  // ---------------------------------------------------------------------------
  // bytes_to_hex

  /** The lower-case hexadecimal digit for `d < 16`. */
  function HexDigit(d: nat): (c: char)
    requires d < 16
    ensures '0' <= c <= '9' || 'a' <= c <= 'f'
  {
    if d < 10 then (48 + d) as char else (87 + d) as char
  }

  /** `binascii.hexlify(b).decode()`: two digits per byte, high nibble
      first. */
  function BytesToHex(bs: seq<byte>): (h: string)
    ensures |h| == 2 * |bs|
  {
    if bs == [] then ""
    else BytesToHex(bs[..|bs| - 1]) + [HexDigit(bs[|bs| - 1] / 16), HexDigit(bs[|bs| - 1] % 16)]
  }

  /** Byte `k` is written at positions `2k` and `2k + 1`. */
  lemma {:induction false} BytesToHexAt(bs: seq<byte>, k: nat)
    requires k < |bs|
    ensures BytesToHex(bs)[2 * k] == HexDigit(bs[k] / 16)
    ensures BytesToHex(bs)[2 * k + 1] == HexDigit(bs[k] % 16)
    decreases |bs|
  {
    if k < |bs| - 1 {
      BytesToHexAt(bs[..|bs| - 1], k);
    }
  }

  /** The value of a hexadecimal digit, either case, as `binascii.unhexlify`
      reads it. */
  function HexValue(c: char): Option<nat>
  {
    if '0' <= c <= '9' then Some(c as nat - 48)
    else if 'a' <= c <= 'f' then Some(c as nat - 87)
    else if 'A' <= c <= 'F' then Some(c as nat - 55)
    else None
  }

  /** `binascii.unhexlify`: pairs of digits back to bytes; an odd length or
      a non-digit is an error. */
  function HexToBytes(h: string): (r: Option<seq<byte>>)
    ensures r.Some? ==> 2 * |r.value| == |h|
    decreases |h|
  {
    if h == [] then Some([])
    else if |h| < 2 then None
    else
      match (HexToBytes(h[..|h| - 2]), HexValue(h[|h| - 2]), HexValue(h[|h| - 1]))
      case (Some(front), Some(hi), Some(lo)) =>
        if hi < 16 && lo < 16 then Some(front + [hi * 16 + lo]) else None
      case _ => None
  }

  lemma HexDigitValue(d: nat)
    requires d < 16
    ensures HexValue(HexDigit(d)) == Some(d)
  {
  }

  /** Reading the hexadecimal back gives the bytes: `unhexlify(hexlify(b)) == b`. */
  lemma {:induction false} HexRoundTrip(bs: seq<byte>)
    ensures HexToBytes(BytesToHex(bs)) == Some(bs)
    decreases |bs|
  {
    if bs != [] {
      var front, b := bs[..|bs| - 1], bs[|bs| - 1];
      var h := BytesToHex(bs);
      assert h[..|h| - 2] == BytesToHex(front);
      HexRoundTrip(front);
      HexDigitValue(b / 16);
      HexDigitValue(b % 16);
      assert front + [b] == bs;
    }
  }

  /** Distinct byte strings have distinct hexadecimal forms. */
  lemma BytesToHexInjective(a: seq<byte>, b: seq<byte>)
    requires BytesToHex(a) == BytesToHex(b)
    ensures a == b
  {
    HexRoundTrip(a);
    HexRoundTrip(b);
  }

  /** `bytes_to_hex(b'\xff\x00\xaa') == 'ff00aa'` and `bytes_to_hex(b'') == ''`. */
  lemma BytesToHexExamples()
    ensures BytesToHex([]) == ""
    ensures BytesToHex([255, 0, 170]) == "ff00aa"
  {
    var bs: seq<byte> := [255, 0, 170];
    assert bs[..2] == [255, 0] && bs[..2][..1] == [255] && bs[..2][..1][..0] == [];
  }

  // ---------------------------------------------------------------------------
  // generate_aes_key_from_bits

  /** `generate_aes_key_from_bits`: a `ValueError` when the string is shorter
      than the key, otherwise `bits_to_bytes(bitstr[:key_size_bits])` (which
      fails in turn on a non-binary prefix). */
  function AesKeyFromBits(s: string, keySizeBits: int): (r: Option<seq<byte>>)
    ensures |s| < keySizeBits ==> r.None?
    ensures r.Some? <==> |s| >= keySizeBits && IsBinary(PyPrefix(s, keySizeBits))
  {
    if |s| < keySizeBits then None else BitsToBytes(PyPrefix(s, keySizeBits))
  }

  /** For a whole number of bytes of key, enough binary input gives a key of
      `key_size_bits / 8` bytes, byte `k` being bits `8k … 8k + 7`. */
  lemma AesKeyShape(s: string, keySizeBits: nat)
    requires keySizeBits % 8 == 0 && |s| >= keySizeBits && IsBinary(s)
    ensures AesKeyFromBits(s, keySizeBits).Some?
    ensures |AesKeyFromBits(s, keySizeBits).value| == keySizeBits / 8
    ensures forall k :: 0 <= k < keySizeBits / 8 ==>
      AesKeyFromBits(s, keySizeBits).value[k] == BinValue(Chunk(s, k))
  {
    var p := s[..keySizeBits];
    assert IsBinary(p) by {
      forall i | 0 <= i < |p|
        ensures p[i] == '0' || p[i] == '1'
      {
        assert p[i] == s[i];
      }
    }
    BitsToBytesChunks(p);
    assert PadToBytes(p) == p;
    forall k | 0 <= k < keySizeBits / 8
      ensures Chunk(p, k) == Chunk(s, k)
    {
    }
  }

  /** Only the first `key_size_bits` bits matter. */
  lemma AesKeyUsesPrefix(s: string, t: string, keySizeBits: nat)
    requires |s| >= keySizeBits && |t| >= keySizeBits
    requires s[..keySizeBits] == t[..keySizeBits]
    ensures AesKeyFromBits(s, keySizeBits) == AesKeyFromBits(t, keySizeBits)
  {
    assert PyPrefix(s, keySizeBits) == s[..keySizeBits];
    assert PyPrefix(t, keySizeBits) == t[..keySizeBits];
  }

  /** With whole-byte keys, distinct binary prefixes give distinct keys. */
  lemma AesKeyInjective(s: string, t: string, keySizeBits: nat)
    requires keySizeBits % 8 == 0 && |s| >= keySizeBits && |t| >= keySizeBits
    requires IsBinary(s) && IsBinary(t)
    requires AesKeyFromBits(s, keySizeBits) == AesKeyFromBits(t, keySizeBits)
    ensures s[..keySizeBits] == t[..keySizeBits]
  {
    var p, q := s[..keySizeBits], t[..keySizeBits];
    assert IsBinary(p) && IsBinary(q) by {
      forall i | 0 <= i < keySizeBits
        ensures (p[i] == '0' || p[i] == '1') && (q[i] == '0' || q[i] == '1')
      {
        assert p[i] == s[i] && q[i] == t[i];
      }
    }
    BitsToBytesInjective(p, q);
  }

  /** `'0' * 256` and `'1' * 256` give different 256-bit keys, and 128 bits
      are too few for one. */
  lemma AesKeyExamples()
    ensures AesKeyFromBits(Zeros(256), 256) != AesKeyFromBits(Ones(256), 256)
    ensures AesKeyFromBits(Ones(128), 256).None?
  {
    AesKeyShape(Zeros(256), 256);
    AesKeyShape(Ones(256), 256);
    assert Chunk(Zeros(256), 0) == Zeros(8);
    assert Chunk(Ones(256), 0) == Ones(8);
    AllZeros(8);
    AllOnes(8);
  }

  /** Padding a nonempty string to whole bytes does not change its bytes:
      `bits_to_bytes(s) == bits_to_bytes(s + '0' * pad)`. */
  lemma BitsToBytesPadding(s: string)
    ensures BitsToBytes(PadToBytes(s)) == BitsToBytes(s)
  {
    var p := PadToBytes(s);
    assert PadToBytes(p) == p;
    if s == [] {
      assert p == [];
    }
  }

  // ---------------------------------------------------------------------------
  // generate_aes_key_from_bits_kdf

  /** A SHA-256 digest: 32 bytes. */
  type Digest = d: seq<byte> | |d| == 32 witness seq(32, _ => 0)

  /** `hmac.new(key, msg, hashlib.sha256).digest()`, taken as a parameter. */
  type Mac = (seq<byte>, seq<byte>) -> Digest

  /** `hashlib.sha256().digest_size`. */
  const HashLen: nat := 32

  /** `b'qrng-aes-key-derivation'`. */
  const Info: seq<byte> :=
    [113, 114, 110, 103, 45, 97, 101, 115, 45, 107, 101, 121, 45,
     100, 101, 114, 105, 118, 97, 116, 105, 111, 110]

  /** The `ValueError`s the derivation raises. */
  datatype KdfError =
    | BadKeySize  // key_size_bits is not 128, 192 or 256
    | NotBinary   // bits_to_bytes rejects the bitstring
    | NoBits      // the bitstring gives no input keying material

  /** `(key_bytes, salt_hex)`, or the error raised. */
  datatype KdfResult = Derived(key: seq<byte>, saltHex: string) | Failed(error: KdfError)

  predicate ValidKeySize(keySizeBits: int)
  {
    keySizeBits == 128 || keySizeBits == 192 || keySizeBits == 256
  }

  /** Expansion block `i`: `T(0)` is empty and
      `T(i) = HMAC(prk, T(i - 1) + info + bytes([i]))`. */
  function Block(mac: Mac, prk: seq<byte>, i: nat): seq<byte>
    requires i < 256
  {
    if i == 0 then [] else mac(prk, Block(mac, prk, i - 1) + Info + [i as byte])
  }

  /** The output keying material after `n` blocks: `T(1) + … + T(n)`. */
  function Okm(mac: Mac, prk: seq<byte>, n: nat): (o: seq<byte>)
    requires n < 256
    ensures |o| == HashLen * n
  {
    if n == 0 then [] else Okm(mac, prk, n - 1) + Block(mac, prk, n)
  }

  /** `(key_size_bits // 8 + hash_len - 1) // hash_len`. */
  function BlockCount(keySizeBits: int): (n: int)
    ensures keySizeBits >= 0 ==> HashLen * (n - 1) < keySizeBits / 8 <= HashLen * n
    ensures ValidKeySize(keySizeBits) ==> n == 1
  {
    (keySizeBits / 8 + HashLen - 1) / HashLen
  }

  /** The salt actually used: the caller's, or the 16 random bytes drawn
      when there is none. */
  function SaltUsed(salt: Option<seq<byte>>, randomSalt: seq<byte>): seq<byte>
  {
    if salt.None? then randomSalt else salt.value
  }

  /** `generate_aes_key_from_bits_kdf` as a value: the key-size check, then
      the input keying material, then extract and expand. `randomSalt`
      stands for `get_random_bytes(16)`. */
  function Kdf(bits: string, keySizeBits: int, salt: Option<seq<byte>>,
               randomSalt: seq<byte>, mac: Mac): (r: KdfResult)
    requires |randomSalt| == 16
    ensures r == Failed(BadKeySize) <==> !ValidKeySize(keySizeBits)
    ensures r == Failed(NotBinary) <==> ValidKeySize(keySizeBits) && !IsBinary(bits)
    ensures r == Failed(NoBits) <==> ValidKeySize(keySizeBits) && bits == []
    ensures r.Derived? ==> |r.key| == keySizeBits / 8
    ensures r.Derived? ==> HexToBytes(r.saltHex) == Some(SaltUsed(salt, randomSalt))
    ensures r.Derived? && salt.None? ==> |r.saltHex| == 32
  {
    if !ValidKeySize(keySizeBits) then Failed(BadKeySize)
    else
      match BitsToBytes(bits)
      case None => Failed(NotBinary)
      case Some(ikm) =>
        if ikm == [] then Failed(NoBits)
        else
          var saltUsed := SaltUsed(salt, randomSalt);
          var prk := mac(saltUsed, ikm);
          HexRoundTrip(saltUsed);
          Derived(PyPrefix(Okm(mac, prk, BlockCount(keySizeBits)), keySizeBits / 8),
                  BytesToHex(saltUsed))
  }

  /** The derivation, step by step: one HMAC per expansion block. */
  method DeriveKey(bits: string, keySizeBits: int, salt: Option<seq<byte>>,
                   randomSalt: seq<byte>, mac: Mac) returns (r: KdfResult)
    requires |randomSalt| == 16
    ensures r == Kdf(bits, keySizeBits, salt, randomSalt, mac)
  {
    if !ValidKeySize(keySizeBits) {
      return Failed(BadKeySize);
    }
    var ikm := BitsToBytes(bits);
    if ikm.None? {
      return Failed(NotBinary);
    }
    if ikm.value == [] {
      return Failed(NoBits);
    }
    var saltUsed := if salt.None? then randomSalt else salt.value;
    var prk := mac(saltUsed, ikm.value);
    var nBlocks := (keySizeBits / 8 + HashLen - 1) / HashLen;
    assert nBlocks == BlockCount(keySizeBits) == 1;
    var okm: seq<byte> := [];
    var previous: seq<byte> := [];
    var i := 1;
    while i <= nBlocks
      invariant 1 <= i <= nBlocks + 1
      invariant okm == Okm(mac, prk, i - 1)
      invariant previous == Block(mac, prk, i - 1)
    {
      previous := mac(prk, previous + Info + [i as byte]);
      okm := okm + previous;
      i := i + 1;
    }
    return Derived(PyPrefix(okm, keySizeBits / 8), BytesToHex(saltUsed));
  }

  /** A valid key size needs a single block, so the key is a prefix of
      `HMAC(prk, info + b'\x01')` with `prk = HMAC(salt, ikm)`. */
  lemma KdfSingleBlock(bits: string, keySizeBits: int, salt: Option<seq<byte>>,
                       randomSalt: seq<byte>, mac: Mac)
    requires |randomSalt| == 16
    requires ValidKeySize(keySizeBits) && IsBinary(bits) && bits != []
    ensures Kdf(bits, keySizeBits, salt, randomSalt, mac).Derived?
    ensures Kdf(bits, keySizeBits, salt, randomSalt, mac).key ==
      mac(mac(SaltUsed(salt, randomSalt), BitsToBytes(bits).value), Info + [1])[..keySizeBits / 8]
  {
    var prk := mac(SaltUsed(salt, randomSalt), BitsToBytes(bits).value);
    assert Block(mac, prk, 1) == mac(prk, Info + [1]) by {
      assert [] + Info + [1 as byte] == Info + [1];
    }
    assert Okm(mac, prk, 1) == Block(mac, prk, 1);
  }

  /** A shorter key of the same derivation is a prefix of a longer one. */
  lemma KdfKeyPrefix(bits: string, shorter: int, longer: int, salt: seq<byte>,
                     randomSalt: seq<byte>, mac: Mac)
    requires |randomSalt| == 16
    requires ValidKeySize(shorter) && ValidKeySize(longer) && shorter <= longer
    requires IsBinary(bits) && bits != []
    ensures Kdf(bits, shorter, Some(salt), randomSalt, mac).key <=
            Kdf(bits, longer, Some(salt), randomSalt, mac).key
  {
    KdfSingleBlock(bits, shorter, Some(salt), randomSalt, mac);
    KdfSingleBlock(bits, longer, Some(salt), randomSalt, mac);
  }

  /** The bits enter only through `bits_to_bytes`, so a bitstring and its
      zero-padded form derive the same key: `'1'` and `'10000000'` agree. */
  lemma KdfIgnoresPadding(bits: string, keySizeBits: int, salt: Option<seq<byte>>,
                          randomSalt: seq<byte>, mac: Mac)
    requires |randomSalt| == 16
    ensures Kdf(PadToBytes(bits), keySizeBits, salt, randomSalt, mac) ==
            Kdf(bits, keySizeBits, salt, randomSalt, mac)
  {
    BitsToBytesPadding(bits);
  }

  /** `'1'` and `'10000000'` derive the same key. */
  lemma KdfPaddingExample(keySizeBits: int, salt: Option<seq<byte>>,
                          randomSalt: seq<byte>, mac: Mac)
    requires |randomSalt| == 16
    ensures Kdf("1", keySizeBits, salt, randomSalt, mac) ==
            Kdf("10000000", keySizeBits, salt, randomSalt, mac)
  {
    assert PadToBytes("1") == "10000000";
    KdfIgnoresPadding("1", keySizeBits, salt, randomSalt, mac);
  }
}
