/** RSA signature checking (signature/rsa.go). The library primitives it
    calls are parameters: base64 decoding (section 4 of RFC 4648), SHA-1, and
    RSASSA-PKCS1-v1_5 verification (section 8.2.2 of RFC 8017). What is
    modelled is the defaulting of the configuration, the buffer the
    signature is decoded into, and the order in which the steps can fail. */
module Signature {
  import opened ByteText
  import opened Failures
  import opened Wrappers

  /** `crypto.SHA1` among Go's hash identifiers; 0 means none configured. */
  const SHA1: nat := 3

  /** A base64 encoding. Only whether it pads matters to the buffer size;
      the alphabet is the decoder's business. */
  datatype Encoding = Encoding(alphabet: string, padded: bool)

  const StdEncoding: Encoding :=
    Encoding("ABCDEFGHIJKLMNOPQRSTUVWXYZabcdefghijklmnopqrstuvwxyz0123456789+/", true)

  datatype PublicKey = PublicKey(modulus: nat, exponent: nat)

  /** The `RSA` configuration: a nil encoding is `None`, an unset hash 0. */
  datatype RSA = RSA(publicKey: PublicKey, encoding: Option<Encoding>, hash: nat)

  /** The library calls: `Encoding.Decode` (the bytes it produces and its
      error), SHA-1 of a message, and `rsa.VerifyPKCS1v15`. */
  datatype Crypto = Crypto(
    decode: (Encoding, Bytes) -> (Bytes, Option<Err>),
    sha1: Bytes -> Bytes,
    verifyPKCS1v15: (PublicKey, nat, Bytes, Bytes) -> Option<Err>)

  /** A hash object as `hashFunc` hands it out. */
  datatype Hasher = Sha1Hasher

  const EmptySignature: Err := Plain("empty signature")
  const UnimplementedHash: Err := Plain("unimplemented hash")

  /** `hash()`: the configured hash, SHA-1 when none is. */
  function HashId(r: RSA): (h: nat)
    ensures h != 0
    ensures r.hash != 0 ==> h == r.hash
    ensures r.hash == 0 ==> h == SHA1
  {
    if r.hash == 0 then SHA1 else r.hash
  }

  /** `hashFunc()`: every configured hash, SHA-1 or not, falls through to
      a SHA-1 hasher, so the result is never nil. */
  function HashFunc(r: RSA): (h: Option<Hasher>)
    ensures h == Some(Sha1Hasher)
  {
    if HashId(r) == SHA1 then Some(Sha1Hasher) else Some(Sha1Hasher)
  }

  /** `encoding()`: the configured encoding, standard base64 when nil. */
  function EncodingOf(r: RSA): (e: Encoding)
    ensures r.encoding.Some? ==> e == r.encoding.value
    ensures r.encoding.None? ==> e == StdEncoding
  {
    match r.encoding
    case None => StdEncoding
    case Some(e) => e
  }

  /** `DecodedLen`: the most bytes `n` base64 bytes decode to. */
  function DecodedLen(enc: Encoding, n: nat): (m: nat)
    ensures 4 * m <= 3 * n
    ensures n % 4 == 0 ==> 4 * m == 3 * n
  {
    if enc.padded then n / 4 * 3 else n * 6 / 8
  }

  /** `getSignature`: an empty signature is an error; otherwise the
      decoder writes into a buffer of `DecodedLen` bytes, and the bytes it
      wrote are returned with its error. */
  function GetSignature(r: RSA, c: Crypto, b64sig: Bytes): (res: (Bytes, Option<Err>))
    ensures b64sig == [] ==> res == ([], Some(EmptySignature))
    ensures |res.0| <= DecodedLen(EncodingOf(r), |b64sig|)
    ensures b64sig != [] ==> res.1 == c.decode(EncodingOf(r), b64sig).1
    ensures b64sig != [] ==> res.0 <= c.decode(EncodingOf(r), b64sig).0
  {
    if |b64sig| == 0 then ([], Some(EmptySignature))
    else
      var enc := EncodingOf(r);
      var n := DecodedLen(enc, |b64sig|);
      var (out, err) := c.decode(enc, b64sig);
      (if |out| <= n then out else out[..n], err)
  }

  /** `hashData`: the SHA-1 digest of the data. The nil-hasher branch and
      the write error cannot happen with a SHA-1 hasher. */
  function HashData(r: RSA, c: Crypto, data: Bytes): (res: Outcome<Bytes>)
    ensures res == Ok(c.sha1(data))
  {
    match HashFunc(r)
    case None => Fail(UnimplementedHash)
    case Some(Sha1Hasher) => Ok(c.sha1(data))
  }

  /** `Verify`: decode the signature, hash the data, check. */
  function Verify(r: RSA, c: Crypto, data: Bytes, b64sig: Bytes): (err: Option<Err>)
    ensures b64sig == [] ==> err == Some(EmptySignature)
    ensures b64sig != [] && c.decode(EncodingOf(r), b64sig).1.Some? ==>
      err == c.decode(EncodingOf(r), b64sig).1
    ensures b64sig != [] && c.decode(EncodingOf(r), b64sig).1.None? ==>
      err == c.verifyPKCS1v15(r.publicKey, HashId(r), c.sha1(data), GetSignature(r, c, b64sig).0)
  {
    var (sig, decodeErr) := GetSignature(r, c, b64sig);
    if decodeErr.Some? then decodeErr
    else
      match HashData(r, c, data)
      case Fail(e) => Some(e)
      case Ok(hashed) => c.verifyPKCS1v15(r.publicKey, HashId(r), hashed, sig)
  }

  /** A decoding failure is reported whatever the data: nothing is hashed
      before the signature is decoded. */
  lemma DecodeFailsFirst(r: RSA, c: Crypto, d1: Bytes, d2: Bytes, b64sig: Bytes)
    requires GetSignature(r, c, b64sig).1.Some?
    ensures Verify(r, c, d1, b64sig) == Verify(r, c, d2, b64sig) == GetSignature(r, c, b64sig).1
  {
  }

  /** With the default or an explicit SHA-1 hash and standard base64, a
      signature made over exactly the message verifies, given that the
      decoder returns the signature its encoding was made from and that
      PKCS #1 v1.5 accepts a signature over the SHA-1 digest. */
  lemma SignedMessageVerifies(r: RSA, c: Crypto, m: Bytes, sig: Bytes, b64sig: Bytes)
    requires r.hash == 0 || r.hash == SHA1
    requires r.encoding == None || r.encoding == Some(StdEncoding)
    requires b64sig != [] && c.decode(StdEncoding, b64sig) == (sig, None)
    requires |sig| <= DecodedLen(StdEncoding, |b64sig|)
    requires c.verifyPKCS1v15(r.publicKey, SHA1, c.sha1(m), sig) == None
    ensures Verify(r, c, m, b64sig) == None
  {
    assert GetSignature(r, c, b64sig).0 == sig;
  }
}
