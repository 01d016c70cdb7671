/** The event interface and the RSA verifier over it (events/event.go).
    A record is its kind, the form fields it was decoded from, and its
    `p_signature` field. `Serialize` is `phpserialize.Marshal` of the record,
    a library call and therefore a parameter; `PSignature` carries the tag
    `php:"-"`, so the marshaller is never given it. */
module Events {
  import opened ByteText
  import opened Failures
  import opened Wrappers
  import opened Kinds
  import Signature

  datatype Record = Record(kind: Kind, fields: map<Bytes, Bytes>, pSignature: Bytes)

  /** `phpserialize.Marshal` of a record without its signature field. */
  type Marshal = (Kind, map<Bytes, Bytes>) -> Outcome<Bytes>

  /** The `Verifier` interface: a check of a record. */
  datatype Verifier = Verifier(verify: Record -> Option<Err>)

  function Serialize(marshal: Marshal, e: Record): Outcome<Bytes>
  {
    marshal(e.kind, e.fields)
  }

  /** `Signature()` of every record: its `PSignature`, never an error. */
  function SignatureOf(e: Record): Outcome<Bytes>
  {
    Ok(e.pSignature)
  }

  /** `RSAVerifier.Verify`: serialise, take the signature, check it; the
      first failure is returned wrapped as a verification error. */
  function RSAVerify(r: Signature.RSA, c: Signature.Crypto, marshal: Marshal, e: Record): (err: Option<Err>)
    ensures err.Some? ==> err.value.Verification?
    ensures marshal(e.kind, e.fields).Fail? ==> err == Some(Verification(marshal(e.kind, e.fields).err))
    ensures marshal(e.kind, e.fields).Ok? ==>
      var v := Signature.Verify(r, c, marshal(e.kind, e.fields).value, e.pSignature);
      err == if v.Some? then Some(Verification(v.value)) else None
  {
    match Serialize(marshal, e)
    case Fail(cause) => Some(Verification(cause))
    case Ok(data) =>
      match SignatureOf(e)
      case Fail(cause) => Some(Verification(cause))
      case Ok(sig) =>
        match Signature.Verify(r, c, data, sig)
        case Some(cause) => Some(Verification(cause))
        case None => None
  }

  /** `RSAVerifier` as a `Verifier`. */
  function RSAVerifier(r: Signature.RSA, c: Signature.Crypto, marshal: Marshal): (v: Verifier)
    ensures forall e :: v.verify(e) == RSAVerify(r, c, marshal, e)
  {
    Verifier(e => RSAVerify(r, c, marshal, e))
  }

  /** A record passes exactly when its serialisation succeeds and its own
      `p_signature` is a valid signature of that serialisation. */
  lemma RSAVerifyPasses(r: Signature.RSA, c: Signature.Crypto, marshal: Marshal, e: Record)
    ensures RSAVerify(r, c, marshal, e) == None <==>
      marshal(e.kind, e.fields).Ok? && Signature.Verify(r, c, marshal(e.kind, e.fields).value, e.pSignature) == None
  {
  }

  /** The signature field is not covered by what is signed: changing it
      changes only the signature that is checked. */
  lemma SignatureNotSigned(r: Signature.RSA, c: Signature.Crypto, marshal: Marshal, e: Record, s: Bytes)
    requires marshal(e.kind, e.fields).Ok?
    ensures RSAVerify(r, c, marshal, e.(pSignature := s)).None? <==>
      Signature.Verify(r, c, marshal(e.kind, e.fields).value, s).None?
  {
  }

  /** A record whose `p_signature` is the base64 of a PKCS #1 v1.5
      signature over its serialisation passes a default-configured verifier. */
  lemma SignedRecordVerifies(r: Signature.RSA, c: Signature.Crypto, marshal: Marshal, e: Record, sig: Bytes)
    requires r.hash == 0 && r.encoding == None
    requires marshal(e.kind, e.fields).Ok?
    requires e.pSignature != [] && c.decode(Signature.StdEncoding, e.pSignature) == (sig, None)
    requires |sig| <= Signature.DecodedLen(Signature.StdEncoding, |e.pSignature|)
    requires c.verifyPKCS1v15(r.publicKey, Signature.SHA1, c.sha1(marshal(e.kind, e.fields).value), sig) == None
    ensures RSAVerify(r, c, marshal, e) == None
  {
    Signature.SignedMessageVerifies(r, c, marshal(e.kind, e.fields).value, sig, e.pSignature);
  }
}
