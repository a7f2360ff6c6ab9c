/** The encrypted-payload layer of the chapter reader (`utils.py`): OpenSSL's `EVP_BytesToKey`
    with MD5 and one iteration, and the OpenSSL `enc` framing
    `"Salted__" ++ salt ++ ciphertext` around AES-256-CBC with a lenient PKCS#7 strip
    (section 6.3 of RFC 5652).

    MD5 (RFC 1321), AES-256-CBC (FIPS 197 with section 6.2 of NIST SP 800-38A), UTF-8 and base64
    are not modelled: they arrive as function-valued parameters, so everything proved here holds
    whatever those primitives compute. */
module Payload {
  import opened Wrappers

  type byte = b: int | 0 <= b < 256

  /** An MD5 digest is always sixteen bytes. */
  type Digest = d: seq<byte> | |d| == 16 witness seq(16, i => 0)

  const DigestSize: nat := 16
  /** The AES block size, which is also the largest PKCS#7 pad. */
  const BlockSize: nat := 16
  const KeyLength: nat := 32
  const IvLength: nat := 16

  /** The ASCII bytes of `Salted__`, the marker OpenSSL's `enc` puts before the salt. */
  const SaltedMagic: seq<byte> := [0x53, 0x61, 0x6C, 0x74, 0x65, 0x64, 0x5F, 0x5F]

  /** The foreign primitives `decrypt_batoto` calls. */
  datatype Crypto = Crypto(
    md5: seq<byte> -> Digest,
    /** AES-256-CBC decryption of whole blocks: key, IV, ciphertext. */
    aesCbcDecrypt: (seq<byte>, seq<byte>, seq<byte>) -> seq<byte>,
    /** `str.encode("utf-8")` */
    utf8Encode: string -> seq<byte>,
    /** `bytes.decode("utf-8", errors="ignore")` */
    utf8DecodeIgnoringErrors: seq<byte> -> string)

  /** Real CBC decryption returns exactly as many bytes as it is given. */
  ghost predicate PreservesLength(c: Crypto) {
    forall key, iv, data :: |c.aesCbcDecrypt(key, iv, data)| == |data|
  }

  /** What `decrypt_batoto` can raise: the base64 decoder's error, the `ValueError` for a
      missing marker, the cipher's `ValueError` for a partial block, and the `IndexError`
      of `decrypted[-1]` on an empty plaintext. */
  datatype DecryptError =
    | Base64Invalid
    | MissingSaltedHeader
    | CiphertextNotBlockAligned
    | EmptyPlaintext

  datatype KeyIv = KeyIv(key: seq<byte>, iv: seq<byte>)

  // ----- EVP_BytesToKey ---------------------------------------------------------------------

  /** Digest number `i + 1` of the chain: `D1 = MD5(data)`, `D(i+1) = MD5(D(i) ++ data)`,
      where `data` is the password followed by the salt. */
  function Chain(md5: seq<byte> -> Digest, data: seq<byte>, i: nat): Digest
    decreases i
  {
    if i == 0 then md5([] + data) else md5(Chain(md5, data, i - 1) + data)
  }

  /** `D1 ++ D2 ++ ... ++ Dn` */
  function KeyStream(md5: seq<byte> -> Digest, data: seq<byte>, n: nat): (s: seq<byte>)
    ensures |s| == DigestSize * n
  {
    if n == 0 then [] else KeyStream(md5, data, n - 1) + Chain(md5, data, n - 1)
  }

  /** Bytes `16i .. 16i+16` of the stream are digest `i + 1` of the chain. */
  lemma {:induction false} KeyStreamBlock(md5: seq<byte> -> Digest, data: seq<byte>, n: nat, i: nat)
    requires i < n
    ensures KeyStream(md5, data, n)[DigestSize * i..DigestSize * i + DigestSize] == Chain(md5, data, i)
  {
    if i < n - 1 {
      KeyStreamBlock(md5, data, n - 1, i);
      var prior := KeyStream(md5, data, n - 1);
      assert KeyStream(md5, data, n)[..|prior|] == prior;
    }
  }

  /** A shorter stream is a prefix of a longer one: asking for more key material never
      changes the bytes already produced. */
  lemma {:induction false} KeyStreamPrefix(md5: seq<byte> -> Digest, data: seq<byte>, m: nat, n: nat)
    requires m <= n
    ensures KeyStream(md5, data, m) == KeyStream(md5, data, n)[..DigestSize * m]
  {
    if m < n {
      KeyStreamPrefix(md5, data, m, n - 1);
      var prior := KeyStream(md5, data, n - 1);
      assert KeyStream(md5, data, n)[..|prior|] == prior;
    }
  }

  /** The number of digests the derivation loop computes for `length` bytes: the least `n`
      with `16 n >= length`. */
  function BlocksFor(length: nat): (n: nat)
    ensures length <= DigestSize * n < length + DigestSize
  {
    (length + DigestSize - 1) / DigestSize
  }

  /** The key and IV `evp_bytes_to_key` returns, read off the digest stream: the key is its
      first `keyLen` bytes and the IV the `ivLen` bytes right after. */
  function DeriveKey(md5: seq<byte> -> Digest, password: seq<byte>, salt: seq<byte>, keyLen: nat, ivLen: nat): (r: KeyIv)
    ensures |r.key| == keyLen && |r.iv| == ivLen
    ensures r.key + r.iv == KeyStream(md5, password + salt, BlocksFor(keyLen + ivLen))[..keyLen + ivLen]
  {
    var stream := KeyStream(md5, password + salt, BlocksFor(keyLen + ivLen));
    assert stream[..keyLen + ivLen] == stream[..keyLen] + stream[keyLen..keyLen + ivLen];
    KeyIv(stream[..keyLen], stream[keyLen..keyLen + ivLen])
  }

  /** Any stream long enough carries the same key and IV at its front. */
  lemma DeriveKeyFromLongerStream(md5: seq<byte> -> Digest, password: seq<byte>, salt: seq<byte>, keyLen: nat, ivLen: nat, n: nat)
    requires keyLen + ivLen <= DigestSize * n
    ensures var r := DeriveKey(md5, password, salt, keyLen, ivLen);
            r.key + r.iv == KeyStream(md5, password + salt, n)[..keyLen + ivLen]
  {
    var m := BlocksFor(keyLen + ivLen);
    var data := password + salt;
    KeyStreamPrefix(md5, data, m, n);
  }

  /** The key does not depend on how much IV is requested after it. */
  lemma KeyIgnoresIvLength(md5: seq<byte> -> Digest, password: seq<byte>, salt: seq<byte>, keyLen: nat, ivLen1: nat, ivLen2: nat)
    ensures DeriveKey(md5, password, salt, keyLen, ivLen1).key == DeriveKey(md5, password, salt, keyLen, ivLen2).key
  {
    var n := BlocksFor(keyLen + ivLen1) + BlocksFor(keyLen + ivLen2);
    DeriveKeyFromLongerStream(md5, password, salt, keyLen, ivLen1, n);
    DeriveKeyFromLongerStream(md5, password, salt, keyLen, ivLen2, n);
    var r1 := DeriveKey(md5, password, salt, keyLen, ivLen1);
    var r2 := DeriveKey(md5, password, salt, keyLen, ivLen2);
    assert r1.key == (r1.key + r1.iv)[..keyLen];
    assert r2.key == (r2.key + r2.iv)[..keyLen];
  }

  /** With the lengths `decrypt_batoto` asks for, the key is `D1 ++ D2` and the IV is `D3`. */
  lemma AesKeyIvShape(md5: seq<byte> -> Digest, password: seq<byte>, salt: seq<byte>)
    ensures var data := password + salt;
            DeriveKey(md5, password, salt, KeyLength, IvLength)
              == KeyIv(Chain(md5, data, 0) + Chain(md5, data, 1), Chain(md5, data, 2))
  {
    var data := password + salt;
    var stream := KeyStream(md5, data, 3);
    assert BlocksFor(KeyLength + IvLength) == 3;
    assert stream == Chain(md5, data, 0) + Chain(md5, data, 1) + Chain(md5, data, 2) by {
      assert KeyStream(md5, data, 1) == [] + Chain(md5, data, 0);
      assert KeyStream(md5, data, 2) == KeyStream(md5, data, 1) + Chain(md5, data, 1);
      assert stream == KeyStream(md5, data, 2) + Chain(md5, data, 2);
    }
    var r := DeriveKey(md5, password, salt, KeyLength, IvLength);
    assert r.key == stream[..32];
    assert r.iv == stream[32..48];
  }

  /** `evp_bytes_to_key`: chain MD5 digests until at least `keyLen + ivLen` bytes exist, then
      cut the key and the IV out of the front. */
  method EvpBytesToKey(md5: seq<byte> -> Digest, password: seq<byte>, salt: seq<byte>, keyLen: nat, ivLen: nat)
    returns (key: seq<byte>, iv: seq<byte>)
    ensures |key| == keyLen && |iv| == ivLen
    ensures KeyIv(key, iv) == DeriveKey(md5, password, salt, keyLen, ivLen)
  {
    var generated: seq<byte> := [];
    var prev: seq<byte> := [];
    ghost var rounds: nat := 0;
    while |generated| < keyLen + ivLen
      invariant generated == KeyStream(md5, password + salt, rounds)
      invariant prev == if rounds == 0 then [] else Chain(md5, password + salt, rounds - 1)
      invariant rounds <= BlocksFor(keyLen + ivLen)
      decreases keyLen + ivLen - |generated|
    {
      assert prev + password + salt == prev + (password + salt);
      prev := md5(prev + password + salt);
      generated := generated + prev;
      rounds := rounds + 1;
    }
    assert rounds == BlocksFor(keyLen + ivLen);
    key := generated[..keyLen];
    iv := generated[keyLen..keyLen + ivLen];
  }

  // ----- the enc framing and the padding strip ----------------------------------------------

  predicate HasSaltedHeader(data: seq<byte>) {
    |SaltedMagic| <= |data| && data[..|SaltedMagic|] == SaltedMagic
  }

  /** `cipher_data[8:16]` and `cipher_data[16:]`, with Python's clamping of slices that run
      past the end: a payload shorter than sixteen bytes gives a short salt and no ciphertext. */
  function SplitPayload(data: seq<byte>): (r: (seq<byte>, seq<byte>))
    requires HasSaltedHeader(data)
    ensures r.0 + r.1 == data[8..]
    ensures |r.0| == if |data| < 16 then |data| - 8 else 8
    ensures r.1 != [] ==> |r.0| == 8
  {
    var cut := if |data| < 16 then |data| else 16;
    assert data[8..] == data[8..cut] + data[cut..];
    (data[8..cut], data[cut..])
  }

  /** The padding strip of `decrypt_batoto`. An empty plaintext fails at `decrypted[-1]`. A last
      byte `n` in 1..16 drops the last `n` bytes (all of them when `n` exceeds the length), and
      the pad bytes themselves are never compared with `n`; any other last byte leaves the
      plaintext as it is. */
  function StripPadding(plain: seq<byte>): (r: Result<seq<byte>, DecryptError>)
    ensures r.Failure? <==> plain == []
    ensures r.Failure? ==> r.error == EmptyPlaintext
    ensures r.Success? ==> |r.value| <= |plain| && r.value == plain[..|r.value|]
    ensures r.Success? ==> var n := plain[|plain| - 1];
              if 1 <= n <= BlockSize
              then |r.value| == (if n <= |plain| then |plain| - n else 0)
              else r.value == plain
  {
    if plain == [] then Failure(EmptyPlaintext)
    else
      var n := plain[|plain| - 1];
      if n < 1 || n > BlockSize then Success(plain)
      else if n <= |plain| then Success(plain[..|plain| - n])
      else Success([])
  }

  /** PKCS#7 padding, the encryptor's side: 1..16 copies of the pad length, up to a whole
      number of blocks. */
  function Pad(m: seq<byte>): (p: seq<byte>)
    ensures |p| % BlockSize == 0 && |m| < |p| <= |m| + BlockSize
    ensures p[..|m|] == m
  {
    var n := BlockSize - |m| % BlockSize;
    m + seq(n, i => n)
  }

  /** The strip undoes PKCS#7 padding. */
  lemma {:induction false} StripPaddingUndoesPad(m: seq<byte>)
    ensures StripPadding(Pad(m)) == Success(m)
  {
    var p := Pad(m);
    var n := BlockSize - |m| % BlockSize;
    assert p[|p| - 1] == n;
    assert p[..|p| - n] == m;
  }

  /** The strip is lenient: a pad whose bytes disagree with its length is still removed. */
  lemma StripPaddingIsLenient()
    ensures StripPadding([0x41, 0x07, 0x02]) == Success([0x41])
  {
    var plain: seq<byte> := [0x41, 0x07, 0x02];
    assert plain[..|plain| - 2] == [0x41];
  }

  // ----- decrypt_batoto ---------------------------------------------------------------------

  /** `decrypt_batoto(encrypted_b64, password, decode_base64_fn)`: the checks run in the order
      base64, marker, block alignment, so each error is reported exactly when the earlier checks
      pass and its own fails. A payload of at most sixteen bytes has an empty ciphertext, which
      counts as aligned. */
  function DecryptBatoto(encrypted: string, password: string, decodeBase64: string -> Option<seq<byte>>, c: Crypto)
    : (r: Result<string, DecryptError>)
    ensures decodeBase64(encrypted).None? <==> r == Failure(Base64Invalid)
    ensures decodeBase64(encrypted).Some? && !HasSaltedHeader(decodeBase64(encrypted).value)
            <==> r == Failure(MissingSaltedHeader)
    ensures var d := decodeBase64(encrypted);
            d.Some? && HasSaltedHeader(d.value) && |d.value| > 16 && (|d.value| - 16) % BlockSize != 0
            <==> r == Failure(CiphertextNotBlockAligned)
  {
    match decodeBase64(encrypted)
    case None => Failure(Base64Invalid)
    case Some(data) =>
      if !HasSaltedHeader(data) then Failure(MissingSaltedHeader)
      else
        var (salt, ciphertext) := SplitPayload(data);
        var keyIv := DeriveKey(c.md5, c.utf8Encode(password), salt, KeyLength, IvLength);
        if |ciphertext| % BlockSize != 0 then Failure(CiphertextNotBlockAligned)
        else
          match StripPadding(c.aesCbcDecrypt(keyIv.key, keyIv.iv, ciphertext))
          case Failure(e) => Failure(e)
          case Success(unpadded) => Success(c.utf8DecodeIgnoringErrors(unpadded))
  }

  /** Without the marker the call fails before any key is derived or block decrypted: the
      outcome is the same whatever the cryptographic primitives do. */
  lemma HeaderCheckedFirst(encrypted: string, password: string, decodeBase64: string -> Option<seq<byte>>, c1: Crypto, c2: Crypto)
    requires decodeBase64(encrypted).Some? && !HasSaltedHeader(decodeBase64(encrypted).value)
    ensures DecryptBatoto(encrypted, password, decodeBase64, c1) == Failure(MissingSaltedHeader)
    ensures DecryptBatoto(encrypted, password, decodeBase64, c2) == DecryptBatoto(encrypted, password, decodeBase64, c1)
  {
  }

  /** A well-framed payload: the salt is bytes 8..16, the ciphertext bytes 16..end, the key and
      IV come from the UTF-8 password and that salt with lengths 32 and 16, and the plaintext
      is the padding-stripped decryption. */
  lemma DecryptWellFramed(encrypted: string, password: string, decodeBase64: string -> Option<seq<byte>>, c: Crypto,
                          salt: seq<byte>, ciphertext: seq<byte>)
    requires |salt| == 8 && |ciphertext| % BlockSize == 0
    requires decodeBase64(encrypted) == Some(SaltedMagic + salt + ciphertext)
    ensures var k := DeriveKey(c.md5, c.utf8Encode(password), salt, KeyLength, IvLength);
            var plain := c.aesCbcDecrypt(k.key, k.iv, ciphertext);
            DecryptBatoto(encrypted, password, decodeBase64, c)
              == if plain == [] then Failure(EmptyPlaintext)
                 else Success(c.utf8DecodeIgnoringErrors(StripPadding(plain).value))
  {
    var data := SaltedMagic + salt + ciphertext;
    assert data[..8] == SaltedMagic;
    if |ciphertext| == 0 {
      assert data == SaltedMagic + salt;
      assert data[8..16] == salt;
    } else {
      assert data[8..16] == salt;
      assert data[16..] == ciphertext;
    }
  }

  /** Decryption round trip: if the cipher maps the ciphertext back to the padded message, the
      call returns the message's text. */
  lemma DecryptRoundTrip(encrypted: string, password: string, decodeBase64: string -> Option<seq<byte>>, c: Crypto,
                         salt: seq<byte>, ciphertext: seq<byte>, message: seq<byte>)
    requires |salt| == 8 && |ciphertext| % BlockSize == 0
    requires decodeBase64(encrypted) == Some(SaltedMagic + salt + ciphertext)
    requires var k := DeriveKey(c.md5, c.utf8Encode(password), salt, KeyLength, IvLength);
             c.aesCbcDecrypt(k.key, k.iv, ciphertext) == Pad(message)
    ensures DecryptBatoto(encrypted, password, decodeBase64, c) == Success(c.utf8DecodeIgnoringErrors(message))
  {
    DecryptWellFramed(encrypted, password, decodeBase64, c, salt, ciphertext);
    StripPaddingUndoesPad(message);
  }

  /** A marked payload of at most sixteen bytes has no ciphertext, so the real cipher returns
      nothing and the strip fails at `decrypted[-1]`. */
  lemma ShortPayloadFails(encrypted: string, password: string, decodeBase64: string -> Option<seq<byte>>, c: Crypto)
    requires PreservesLength(c)
    requires decodeBase64(encrypted).Some?
    requires var data := decodeBase64(encrypted).value; HasSaltedHeader(data) && |data| <= 16
    ensures DecryptBatoto(encrypted, password, decodeBase64, c) == Failure(EmptyPlaintext)
  {
    var data := decodeBase64(encrypted).value;
    var (salt, ciphertext) := SplitPayload(data);
    assert ciphertext == [];
    var k := DeriveKey(c.md5, c.utf8Encode(password), salt, KeyLength, IvLength);
    assert |c.aesCbcDecrypt(k.key, k.iv, ciphertext)| == 0;
  }
}
