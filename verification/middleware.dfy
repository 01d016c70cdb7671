/** The event middleware (middleware/event.go): it reads the webhook body,
    finds the alert name, decodes the matching record, verifies it, and
    either hands the request on or answers with an error. The alert-name
    scanner itself is the module `Sniffer`; the middleware uses it with the
    bound checked before the read (see `Sniffer.CheckedSniffAgrees`).

    An `http.Request` is a `Request` object holding its Content-Type header,
    its body and its context; what the next handler is given, or the error
    reply written instead, is a `Served` value. Context keys are strings. */
module Middleware {
  import opened ByteText
  import opened Failures
  import opened HttpErrors
  import opened Wrappers
  import opened Kinds
  import opened Events
  import opened Decode
  import Sniffer

  const DefaultContextErrKey: Bytes := "paddle-event-middleware-error"
  const DefaultContextKey: Bytes := "paddle-event-middleware"

  /** `mime.ApplicationForm` (the mime package is not part of this model). */
  const ApplicationForm: Bytes := "application/x-www-form-urlencoded"

  const UnsupportedEvent: Bytes := " is not a supported event type"
  const UnsupportedMime: Bytes := " is not supported mime type"

  /** What a request context can hold under a key. */
  datatype ContextValue = EventValue(event: Record) | ErrorValue(err: Err) | OtherValue

  type Context = map<Bytes, ContextValue>

  /** The outcome of the handler: an error reply, or a call of `next` with
      the request's context. */
  datatype Served = Wrote(reply: Reply) | Next(context: Context)

  datatype EventConfig = EventConfig(
    verifier: Option<Verifier>,
    contextKey: Option<Bytes>,
    contextErrKey: Option<Bytes>,
    copyBody: bool,
    continueOnError: bool,
    skipContext: bool)

  /** A request body after it has been read to the end (or to its error). */
  function Drained(r: Reader): Reader
  {
    Reader([], r.failure)
  }

  /** The request body `readEventFromRequest` leaves behind: the bytes it
      read when it kept them for the next handler, else the drained body. */
  function BodyAfter(contentType: Bytes, body: Reader, copyBody: bool): Reader
  {
    if Accepted(contentType, body) && copyBody then Reader(body.data, None) else Drained(body)
  }

  /** The two pools after `readEventFromRequest`. The body buffer goes back
      only when the request was accepted without copy-body; otherwise the
      buffer it took stays out. The decoder pool gets its decoder back, and
      an empty one keeps a new decoder exactly when a supported name
      reached it. */
  twostate predicate PoolsAfter(bodyPool: BufferPool, sp: BufferPool, contentType: Bytes, body: Reader, copyBody: bool)
    reads bodyPool, sp
  {
    var returned := Accepted(contentType, body) && !copyBody;
    var decoded := Accepted(contentType, body) && KindOfName(EventName(body.data)).Some?;
    (old(bodyPool.idle) != [] ==>
       bodyPool.idle == if returned then old(bodyPool.idle) else old(bodyPool.idle)[..|old(bodyPool.idle)| - 1])
    && (old(bodyPool.idle) == [] ==>
          if returned then |bodyPool.idle| == 1 && fresh(bodyPool.idle[0]) else bodyPool.idle == [])
    && (old(sp.idle) != [] ==> sp.idle == old(sp.idle))
    && (old(sp.idle) == [] ==> if decoded then |sp.idle| == 1 && fresh(sp.idle[0]) else sp.idle == [])
  }

  // ---------------------------------------------------------------------------
  // What the middleware computes.

  /** The alert name of a form body, as the corrected scanner reads it. */
  function EventName(body: Bytes): (name: Bytes)
    ensures '&' !in name
  {
    Sniffer.Sniff(body, Sniffer.CheckThenRead).name
  }

  /** `unmarshalEvent` on a body that has been read: the switch selects the
      record kind, and only a selected kind reaches the decoder. */
  function EventOfName(ename: Bytes, data: Bytes, decode: FormDecoder): Outcome<Record>
  {
    match KindOfName(ename)
    case None => Fail(BadRequest(ename + UnsupportedEvent))
    case Some(k) => decode(k, data)
  }

  /** Whether a request gets past reading and the content-type gate. */
  predicate Accepted(contentType: Bytes, body: Reader)
  {
    body.failure.None? && ApplicationForm <= contentType
  }

  /** `readEventFromRequest`: read the body, check the content type, find
      the name, decode. */
  function ReadEvent(contentType: Bytes, body: Reader, decode: FormDecoder): Outcome<Record>
  {
    if body.failure.Some? then Fail(body.failure.value)
    else if !(ApplicationForm <= contentType) then Fail(BadRequest(contentType + UnsupportedMime))
    else EventOfName(EventName(body.data), body.data, decode)
  }

  /** Whether the context already holds an event the handler reuses. */
  predicate Cached(cfg: EventConfig, ctx: Context)
  {
    !cfg.skipContext && cfg.contextKey.Some? && cfg.contextKey.value in ctx
    && ctx[cfg.contextKey.value].EventValue?
  }

  /** The function `EventFromRequest` returns: an event already in the
      context, or the event read from the request and, when a verifier is
      configured, verified. */
  function GetEvent(cfg: EventConfig, ctx: Context, contentType: Bytes, body: Reader, decode: FormDecoder): Outcome<Record>
  {
    if Cached(cfg, ctx) then Ok(ctx[cfg.contextKey.value].event)
    else
      match ReadEvent(contentType, body, decode)
      case Fail(err) => Fail(err)
      case Ok(ev) =>
        if cfg.verifier.Some? && cfg.verifier.value.verify(ev).Some? then Fail(cfg.verifier.value.verify(ev).value)
        else Ok(ev)
  }

  /** `onError`. */
  function ErrorServed(cfg: EventConfig, ctx: Context, err: Err): (s: Served)
    requires cfg.contextErrKey.Some?
    ensures !cfg.continueOnError ==> s.Wrote? && s.reply.status == (if err.Http? then err.e.status else 500)
    ensures !cfg.continueOnError ==> s.reply.message == Message(err)
    ensures cfg.continueOnError ==> s.Next? && (cfg.skipContext ==> s.context == ctx)
    ensures cfg.continueOnError && !cfg.skipContext ==>
      s.context == ctx[cfg.contextErrKey.value := ErrorValue(err)]
  {
    if !cfg.continueOnError then
      if err.Http? then Wrote(WriteTo(err.e)) else Wrote(Reply(StatusInternalServerError, Message(err)))
    else if !cfg.skipContext then Next(ctx[cfg.contextErrKey.value := ErrorValue(err)])
    else Next(ctx)
  }

  /** The handler `Handle` returns. */
  function HandleServed(cfg: EventConfig, ctx: Context, got: Outcome<Record>): Served
    requires cfg.contextKey.Some? && cfg.contextErrKey.Some?
  {
    match got
    case Fail(err) => ErrorServed(cfg, ctx, err)
    case Ok(ev) => if cfg.skipContext then Next(ctx) else Next(ctx[cfg.contextKey.value := EventValue(ev)])
  }

  // ---------------------------------------------------------------------------
  // The request and the middleware object.

  class Request {
    var contentType: Bytes
    var body: Reader
    var context: Context

    constructor (contentType: Bytes, body: Reader, context: Context)
      ensures this.contentType == contentType && this.body == body && this.context == context
    {
      this.contentType := contentType;
      this.body := body;
      this.context := context;
    }
  }

  /** `unmarshalEvent` with `unmarshalForm`: an unsupported name is
      answered without touching the decoder pool. */
  method UnmarshalEvent(ename: Bytes, r: Reader, sp: BufferPool, decode: FormDecoder) returns (res: Outcome<Record>)
    requires r.failure.None?
    modifies sp, sp.Top()
    ensures res == EventOfName(ename, r.data, decode)
    ensures KindOfName(ename).None? ==> unchanged(sp) && unchanged(old(sp.Top()))
    ensures old(sp.idle) != [] ==> sp.idle == old(sp.idle)
    ensures old(sp.idle) == [] && KindOfName(ename).Some? ==> |sp.idle| == 1 && fresh(sp.idle[0])
  {
    var kind := KindOfName(ename);
    if kind.None? {
      return Fail(BadRequest(ename + UnsupportedEvent));
    }
    res := UnmarshalForm(sp, r, kind.value, decode);
  }

  /** The `io.Copy` of the request body into a buffer from the pool: the
      buffer holds the body's bytes and the body is left drained. */
  method CopyBody(req: Request, bodyPool: BufferPool) returns (buf: Buffer, err: Option<Err>)
    modifies req, bodyPool, bodyPool.Top()
    ensures buf.contents == old(req.body).data && err == old(req.body).failure
    ensures req.body == Drained(old(req.body))
    ensures req.contentType == old(req.contentType) && req.context == old(req.context)
    ensures old(bodyPool.idle) != [] ==>
      buf == old(bodyPool.idle)[|old(bodyPool.idle)| - 1] && bodyPool.idle == old(bodyPool.idle)[..|old(bodyPool.idle)| - 1]
    ensures old(bodyPool.idle) == [] ==> fresh(buf) && bodyPool.idle == []
  {
    buf := bodyPool.Get();
    err := buf.ReadFrom(req.body);
    req.body := Drained(req.body);
  }

  /** `readEventFromRequest`. The body is copied into a pooled buffer;
      with `copyBody` the request gets the buffer as its new body, otherwise
      the buffer goes back to the pool. A failed read or a rejected content
      type returns early, and the buffer is then not put back. The decoder
      pool gets back the decoder it lent, or keeps a new one when it was
      empty and a supported name reached the decoder. */
  method ReadEventFromRequest(req: Request, copyBody: bool, bodyPool: BufferPool, sp: BufferPool, decode: FormDecoder)
    returns (res: Outcome<Record>)
    requires bodyPool != sp
    modifies req, bodyPool, bodyPool.Top(), sp, sp.Top()
    ensures res == ReadEvent(old(req.contentType), old(req.body), decode)
    ensures req.contentType == old(req.contentType) && req.context == old(req.context)
    ensures Accepted(old(req.contentType), old(req.body)) && copyBody ==> req.body == Reader(old(req.body).data, None)
    ensures !(Accepted(old(req.contentType), old(req.body)) && copyBody) ==> req.body == Drained(old(req.body))
    ensures Accepted(old(req.contentType), old(req.body)) && !copyBody && old(bodyPool.idle) != [] ==>
      bodyPool.idle == old(bodyPool.idle)
    ensures !(Accepted(old(req.contentType), old(req.body)) && !copyBody) && old(bodyPool.idle) != [] ==>
      bodyPool.idle == old(bodyPool.idle)[..|old(bodyPool.idle)| - 1]
    ensures old(bodyPool.idle) == [] ==>
      if Accepted(old(req.contentType), old(req.body)) && !copyBody then |bodyPool.idle| == 1 && fresh(bodyPool.idle[0])
      else bodyPool.idle == []
    ensures old(sp.idle) != [] ==> sp.idle == old(sp.idle)
    ensures old(sp.idle) == [] ==>
      if Accepted(old(req.contentType), old(req.body)) && KindOfName(EventName(old(req.body).data)).Some? then
        |sp.idle| == 1 && fresh(sp.idle[0])
      else sp.idle == []
  {
    var buf, err := CopyBody(req, bodyPool);
    if err.Some? {
      return Fail(err.value);
    }
    if !(ApplicationForm <= req.contentType) {
      return Fail(BadRequest(req.contentType + UnsupportedMime));
    }
    var data := buf.contents;
    var sniffed := Sniffer.EventNameFromURLEncoded(data, Sniffer.CheckThenRead);
    var ename := sniffed.name;
    res := UnmarshalEvent(ename, Reader(data, None), sp, decode);
    if copyBody {
      req.body := Reader(data, None);
    } else {
      bodyPool.Put(buf);
    }
  }

  /** The `Event` middleware with its embedded `EventConfig`. */
  class Event {
    var verifier: Option<Verifier>
    var contextKey: Option<Bytes>
    var contextErrKey: Option<Bytes>
    var copyBody: bool
    var continueOnError: bool
    var skipContext: bool

    constructor (cfg: EventConfig)
      ensures Config() == cfg
    {
      verifier := cfg.verifier;
      contextKey := cfg.contextKey;
      contextErrKey := cfg.contextErrKey;
      copyBody := cfg.copyBody;
      continueOnError := cfg.continueOnError;
      skipContext := cfg.skipContext;
    }

    function Config(): EventConfig
      reads this
    {
      EventConfig(verifier, contextKey, contextErrKey, copyBody, continueOnError, skipContext)
    }

    /** `Handle`: unset context keys get their defaults; nothing else
        changes. The handler it returns is `Serve`. */
    method Handle()
      modifies this
      ensures contextErrKey == if old(contextErrKey).None? then Some(DefaultContextErrKey) else old(contextErrKey)
      ensures contextKey == if old(contextKey).None? then Some(DefaultContextKey) else old(contextKey)
      ensures Config() == old(Config()).(contextKey := contextKey, contextErrKey := contextErrKey)
    {
      if contextErrKey.None? {
        contextErrKey := Some(DefaultContextErrKey);
      }
      if contextKey.None? {
        contextKey := Some(DefaultContextKey);
      }
    }

    /** The function `EventFromRequest` returns, applied to a request. */
    method EventFromRequest(req: Request, bodyPool: BufferPool, sp: BufferPool, decode: FormDecoder)
      returns (res: Outcome<Record>)
      requires bodyPool != sp
      modifies req, bodyPool, bodyPool.Top(), sp, sp.Top()
      ensures res == GetEvent(Config(), old(req.context), old(req.contentType), old(req.body), decode)
      ensures req.context == old(req.context) && req.contentType == old(req.contentType)
      ensures Cached(Config(), old(req.context)) ==> unchanged(req) && unchanged(bodyPool) && unchanged(sp)
      ensures !Cached(Config(), old(req.context)) ==> req.body == BodyAfter(old(req.contentType), old(req.body), copyBody)
      ensures !Cached(Config(), old(req.context)) ==> PoolsAfter(bodyPool, sp, old(req.contentType), old(req.body), copyBody)
    {
      if Cached(Config(), req.context) {
        return Ok(req.context[contextKey.value].event);
      }
      var ev := ReadEventFromRequest(req, copyBody, bodyPool, sp, decode);
      if ev.Fail? {
        return ev;
      }
      if verifier.Some? {
        var err := verifier.value.verify(ev.value);
        if err.Some? {
          return Fail(err.value);
        }
      }
      res := ev;
    }

    /** The handler returned by `Handle`. */
    method Serve(req: Request, bodyPool: BufferPool, sp: BufferPool, decode: FormDecoder) returns (s: Served)
      requires contextKey.Some? && contextErrKey.Some?
      requires bodyPool != sp
      modifies req, bodyPool, bodyPool.Top(), sp, sp.Top()
      ensures s == HandleServed(Config(), old(req.context),
                                GetEvent(Config(), old(req.context), old(req.contentType), old(req.body), decode))
      ensures req.context == old(req.context) && req.contentType == old(req.contentType)
      ensures Cached(Config(), old(req.context)) ==> unchanged(req) && unchanged(bodyPool) && unchanged(sp)
      ensures !Cached(Config(), old(req.context)) ==> req.body == BodyAfter(old(req.contentType), old(req.body), copyBody)
      ensures !Cached(Config(), old(req.context)) ==> PoolsAfter(bodyPool, sp, old(req.contentType), old(req.body), copyBody)
    {
      var got := EventFromRequest(req, bodyPool, sp, decode);
      if got.Fail? {
        s := ErrorServed(Config(), req.context, got.err);
        return;
      }
      if skipContext {
        s := Next(req.context);
      } else {
        s := Next(req.context[contextKey.value := EventValue(got.value)]);
      }
    }
  }

  // ---------------------------------------------------------------------------
  // Properties.

  /** Every one of the seventeen alert names reaches the decoder with its own
      kind, and nothing else does: any other name, "" included, is a bad
      request naming it, whatever the decoder would have done. */
  lemma EventOfNameDispatch(ename: Bytes, data: Bytes, decode: FormDecoder)
    ensures forall k :: ename == AlertName(k) ==> EventOfName(ename, data, decode) == decode(k, data)
    ensures (forall k :: ename != AlertName(k)) ==>
      EventOfName(ename, data, decode) == Fail(BadRequest(ename + UnsupportedEvent))
  {
    forall k | ename == AlertName(k)
      ensures EventOfName(ename, data, decode) == decode(k, data)
    {
      KindOfAlertName(k);
    }
    if KindOfName(ename).Some? {
      KindOfNameExact(ename, KindOfName(ename).value);
    }
  }

  /** A form body whose only `alert_name=` field names a kind is decoded as
      that kind. */
  lemma FormBodyDispatch(contentType: Bytes, xs: seq<Bytes>, k: Kind, ys: seq<Bytes>, decode: FormDecoder)
    requires ApplicationForm <= contentType
    requires forall x :: x in xs + ys ==> Sniffer.Diverges(x, Sniffer.AlertKey)
    requires NoSep(xs + [Sniffer.AlertKey + AlertName(k)] + ys, '&')
    ensures var body := Join(xs + [Sniffer.AlertKey + AlertName(k)] + ys, '&');
      ReadEvent(contentType, Reader(body, None), decode) == decode(k, body)
  {
    Sniffer.SniffSingleKey(xs, AlertName(k), ys, Sniffer.CheckThenRead);
    KindOfAlertName(k);
  }

  /** Wherever the scanner as written does not panic, it reads the same
      name as the corrected one. */
  lemma EventNameAsWritten(body: Bytes)
    ensures Sniffer.Sniff(body, Sniffer.ReadThenCheck).Name? ==>
      Sniffer.Sniff(body, Sniffer.ReadThenCheck).name == EventName(body)
  {
    Sniffer.CheckedSniffAgrees(body);
  }

  /** A body on which the loop as written panics can still name a kind: the
      field after `alert_name=K` is skipped and the empty last field is then
      examined, so the program panics where the model decodes the body as
      K. */
  lemma PanickingBodyNamesKind(k: Kind, y: Bytes, decode: FormDecoder)
    requires NoSep([Sniffer.AlertKey + AlertName(k), y], '&')
    ensures var body := Join([Sniffer.AlertKey + AlertName(k), y, []], '&');
      Sniffer.Sniff(body, Sniffer.ReadThenCheck) == Sniffer.IndexPanic
      && ReadEvent(ApplicationForm, Reader(body, None), decode) == decode(k, body)
  {
    var key := Sniffer.AlertKey + AlertName(k);
    assert '&' !in key && '&' !in y by {
      assert [key, y][0] == key && [key, y][1] == y;
    }
    assert '&' !in AlertName(k) by {
      forall i | 0 <= i < |AlertName(k)|
        ensures AlertName(k)[i] != '&'
      {
        assert AlertName(k)[i] == key[|Sniffer.AlertKey| + i];
      }
    }
    var body := Join([key, y, []], '&');
    Sniffer.KeyThenEmptyLastField(AlertName(k), y);
    assert EventName(body) == AlertName(k);
    KindOfAlertName(k);
    assert EventOfName(EventName(body), body, decode) == decode(k, body);
  }

  /** A read event reaches the next handler only if the configured verifier
      accepted it. */
  lemma OnlyVerifiedEventsPass(cfg: EventConfig, ctx: Context, contentType: Bytes, body: Reader, decode: FormDecoder)
    requires cfg.verifier.Some? && !Cached(cfg, ctx)
    requires GetEvent(cfg, ctx, contentType, body, decode).Ok?
    ensures var ev := GetEvent(cfg, ctx, contentType, body, decode).value;
      ReadEvent(contentType, body, decode) == Ok(ev) && cfg.verifier.value.verify(ev) == None
  {
  }

  /** Without `ContinueOnError` an error never reaches `next`: an HTTP error
      answers with its own status, any other with 500. With it, `next` is
      always called. */
  lemma ErrorPolicy(cfg: EventConfig, ctx: Context, got: Outcome<Record>)
    requires cfg.contextKey.Some? && cfg.contextErrKey.Some?
    ensures got.Fail? && !cfg.continueOnError ==>
      HandleServed(cfg, ctx, got) == Wrote(if got.err.Http? then WriteTo(got.err.e) else Reply(500, Message(got.err)))
    ensures got.Ok? || cfg.continueOnError ==> HandleServed(cfg, ctx, got).Next?
  {
  }

  /** An event already in the context is reused: the body is not read, so
      whatever it holds does not matter. */
  lemma CachedEventReused(cfg: EventConfig, ctx: Context, ct1: Bytes, b1: Reader, ct2: Bytes, b2: Reader, decode: FormDecoder)
    requires Cached(cfg, ctx)
    ensures GetEvent(cfg, ctx, ct1, b1, decode) == GetEvent(cfg, ctx, ct2, b2, decode) == Ok(ctx[cfg.contextKey.value].event)
  {
  }
}
