/** Body decoding (events/decode.go): the content type of a request, the
    pool of form decoders, and `UnmarshalForm`. The pools of this file and
    of the middleware hand out buffers the same way, so both use `Buffer`
    and `BufferPool`. The `urldecode` form decoder is a library and is a
    parameter. */
module Decode {
  import opened ByteText
  import opened Failures
  import opened Wrappers
  import opened Kinds
  import opened Events

  /** An `io.Reader`: the bytes it yields, then either EOF or an error. */
  datatype Reader = Reader(data: Bytes, failure: Option<Err>)

  /** What the form decoder makes of a body for a record of a given kind. */
  type FormDecoder = (Kind, Bytes) -> Outcome<Record>

  /** The form decoder fills a record of the type it is given, so what it
      returns is of the kind it was asked for. */
  ghost predicate KeepsKind(decode: FormDecoder)
  {
    forall k, b :: decode(k, b).Ok? ==> decode(k, b).value.kind == k
  }

  /** `reqContentType`: the Content-Type header up to its first comma. */
  function ReqContentType(header: Bytes): (ct: Bytes)
    ensures header == [] ==> ct == []
    ensures ct <= header && ',' !in ct
    ensures |ct| < |header| ==> header[|ct|] == ','
  {
    if header == [] then []
    else
      SplitHead(header, ',');
      Split(header, ',')[0]
  }

  /** A `bytes.Buffer`. */
  class Buffer {
    var contents: Bytes

    constructor ()
      ensures contents == []
    {
      contents := [];
    }

    method Reset()
      modifies this
      ensures contents == []
    {
      contents := [];
    }

    /** `io.Copy` into the buffer: what the reader yields is appended, and
        its error, if any, returned. */
    method ReadFrom(r: Reader) returns (err: Option<Err>)
      modifies this
      ensures contents == old(contents) + r.data
      ensures err == r.failure
    {
      contents := contents + r.data;
      err := r.failure;
    }
  }

  /** A `sync.Pool` of buffers. Which idle buffer `Get` hands out is the
      pool's choice; the model takes the one put back last. */
  class BufferPool {
    var idle: seq<Buffer>

    constructor ()
      ensures idle == []
    {
      idle := [];
    }

    /** The buffer `Get` would hand out next, if any. */
    function Top(): set<Buffer>
      reads this
    {
      if idle == [] then {} else {idle[|idle| - 1]}
    }

    /** `Get`: an idle buffer or a new one, reset before it is handed out. */
    method Get() returns (b: Buffer)
      modifies this, Top()
      ensures b.contents == []
      ensures old(idle) == [] ==> fresh(b) && idle == []
      ensures old(idle) != [] ==> b == old(idle)[|old(idle)| - 1] && idle == old(idle)[..|old(idle)| - 1]
    {
      if idle == [] {
        b := new Buffer();
      } else {
        b := idle[|idle| - 1];
        idle := idle[..|idle| - 1];
      }
      b.Reset();
    }

    method Put(b: Buffer)
      modifies this
      ensures idle == old(idle) + [b]
    {
      idle := idle + [b];
    }
  }

  /** `schemaDecoder.Decode`: copy the body into the decoder's buffer, then
      decode the buffer; a read error stops before decoding. */
  method SchemaDecode(dec: Buffer, r: Reader, k: Kind, decode: FormDecoder) returns (res: Outcome<Record>)
    modifies dec
    ensures dec.contents == old(dec.contents) + r.data
    ensures r.failure.Some? ==> res == Fail(r.failure.value)
    ensures r.failure.None? ==> res == decode(k, old(dec.contents) + r.data)
  {
    var err := dec.ReadFrom(r);
    if err.Some? {
      return Fail(err.value);
    }
    res := decode(k, dec.contents);
  }

  /** `UnmarshalForm`: a decoder is taken from the pool, used, and put back
      whether or not decoding failed. As it is reset when taken, exactly
      this body is decoded, whatever an earlier use left in it. */
  method UnmarshalForm(sp: BufferPool, r: Reader, k: Kind, decode: FormDecoder) returns (res: Outcome<Record>)
    modifies sp, sp.Top()
    ensures r.failure.Some? ==> res == Fail(r.failure.value)
    ensures r.failure.None? ==> res == decode(k, r.data)
    ensures old(sp.idle) != [] ==> sp.idle == old(sp.idle)
    ensures old(sp.idle) == [] ==> |sp.idle| == 1 && fresh(sp.idle[0])
  {
    var dec := sp.Get();
    assert [] + r.data == r.data;
    res := SchemaDecode(dec, r, k, decode);
    sp.Put(dec);
  }
}
