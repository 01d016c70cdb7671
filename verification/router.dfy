/** The type router (router/router.go, router/handlers.go): one handler
    slot per record kind, filled from the configuration or with a fallback
    that answers 404, and a handler that runs the event middleware and
    dispatches the event to the slot of its kind.

    An application handler is opaque here; the model names it by a number
    and records that it was invoked, and with which event. */
module Router {
  import opened ByteText
  import opened Failures
  import opened HttpErrors
  import opened Wrappers
  import opened Kinds
  import opened Events
  import opened Decode
  import Middleware
  import Sniffer

  /** A handler the application supplied for one kind. */
  datatype Handler = Handler(id: nat)

  /** A resolved slot: the configured handler, or the `...NotFound`
      fallback of the slot's kind. */
  datatype Slot = Registered(h: Handler) | NotFound(kind: Kind)

  /** What serving a request did: a handler was invoked with the event, or
      a reply was written. */
  datatype Response = Invoked(h: Handler, event: Record) | Replied(reply: Reply)

  /** `Config`: the seventeen handler fields become a map; a kind missing
      from it is a nil field. */
  datatype Config = Config(verifier: Option<Verifier>, copyBody: bool, handlers: map<Kind, Handler>)

  /** What the closure returned by `Handler()` captures: the resolved slots
      and the middleware's configuration. */
  datatype Dispatcher = Dispatcher(slots: map<Kind, Slot>, ev: Middleware.EventConfig)

  /** The zero `middleware.Event` a new router holds. */
  const ZeroEvent := Middleware.EventConfig(None, None, None, false, false, false)

  const MissingHandler: Bytes := "missing handler for event "

  const AllKinds: set<Kind> := {
    SubscriptionCancelled, SubscriptionCreated, SubscriptionPaymentFailed,
    SubscriptionPaymentRefunded, SubscriptionPaymentSucceeded, SubscriptionUpdated,
    HighRiskTransactionCreated, HighRiskTransactionUpdated, LockerProcessed,
    NewAudienceMember, PaymentDisputeClosed, PaymentDisputeCreated, PaymentRefunded,
    PaymentSucceeded, TransferCreated, TransferPaid, UpdateAudienceMember}

  /** The seventeen kinds are all there are. */
  lemma AllKindsComplete()
    ensures forall k: Kind :: k in AllKinds
  {
    forall k: Kind
      ensures k in AllKinds
    {
      match k
      case SubscriptionCancelled =>
      case SubscriptionCreated =>
      case SubscriptionPaymentFailed =>
      case SubscriptionPaymentRefunded =>
      case SubscriptionPaymentSucceeded =>
      case SubscriptionUpdated =>
      case HighRiskTransactionCreated =>
      case HighRiskTransactionUpdated =>
      case LockerProcessed =>
      case NewAudienceMember =>
      case PaymentDisputeClosed =>
      case PaymentDisputeCreated =>
      case PaymentRefunded =>
      case PaymentSucceeded =>
      case TransferCreated =>
      case TransferPaid =>
      case UpdateAudienceMember =>
    }
  }

  /** `handlerNotFound`: status 404 and a message naming the event. */
  function HandlerNotFound(ename: Bytes): (r: Reply)
    ensures r.status == StatusNotFound
    ensures MissingHandler <= r.message && r.message[|MissingHandler|..] == ename
  {
    Reply(StatusNotFound, MissingHandler + ename)
  }

  /** The `...NotFound` fallback of a kind, serving any event of that kind:
      the event itself is ignored. */
  function Fallback(k: Kind, ev: Record): Reply
  {
    HandlerNotFound(AlertName(k))
  }

  /** The slot `Handler()` gives a kind. */
  function Resolve(handlers: map<Kind, Handler>, k: Kind): Slot
  {
    if k in handlers then Registered(handlers[k]) else NotFound(k)
  }

  /** The reply to an error from the middleware: an HTTP error answers
      itself, a verification error and any other error a 400 with its
      message. */
  function ErrorReply(err: Err): Reply
  {
    match err
    case Http(e) => WriteTo(e)
    case Verification(_) => WriteTo(NewBadRequestError(Message(err)))
    case Plain(_) => WriteTo(NewBadRequestError(Message(err)))
  }

  /** The closure's reaction to what the middleware returned. */
  function Dispatch(d: Dispatcher, got: Outcome<Record>): Response
    requires forall k :: k in d.slots
  {
    match got
    case Fail(err) => Replied(ErrorReply(err))
    case Ok(ev) =>
      match d.slots[ev.kind]
      case Registered(h) => Invoked(h, ev)
      case NotFound(k) => Replied(Fallback(k, ev))
  }

  class Router {
    var config: Config
    var slots: map<Kind, Slot>
    var ev: Middleware.EventConfig

    /** `NewRouter`: the configuration is stored; the slots stay unset and the
        middleware zero until `Handler()` resolves them. */
    constructor (c: Config)
      ensures config == c && slots == map[] && ev == ZeroEvent
    {
      config := c;
      slots := map[];
      ev := ZeroEvent;
    }

    /** `Handler()`. The receiver is a copy, so the router itself does not
        change (the method modifies nothing). Every kind's slot holds its
        configured handler, or else its own fallback; the middleware reads
        no context, and takes the verifier and body copying from the
        configuration. */
    method Handler() returns (d: Dispatcher)
      ensures forall k :: k in d.slots
      ensures forall k :: k in config.handlers ==> d.slots[k] == Registered(config.handlers[k])
      ensures forall k :: k !in config.handlers ==> d.slots[k] == NotFound(k)
      ensures d.ev == ev.(verifier := config.verifier, skipContext := true, copyBody := config.copyBody)
    {
      AllKindsComplete();
      var resolved := map k | k in AllKinds :: Resolve(config.handlers, k);
      d := Dispatcher(resolved, ev.(verifier := config.verifier, skipContext := true, copyBody := config.copyBody));
    }
  }

  /** The handler returned by `Handler()`, serving one request. */
  method ServeHTTP(d: Dispatcher, req: Middleware.Request, bodyPool: BufferPool, sp: BufferPool, decode: FormDecoder)
    returns (r: Response)
    requires forall k :: k in d.slots
    requires bodyPool != sp
    modifies req, bodyPool, bodyPool.Top(), sp, sp.Top()
    ensures r == Dispatch(d, Middleware.GetEvent(d.ev, old(req.context), old(req.contentType), old(req.body), decode))
    ensures req.context == old(req.context) && req.contentType == old(req.contentType)
    ensures Middleware.Cached(d.ev, old(req.context)) ==> unchanged(req) && unchanged(bodyPool) && unchanged(sp)
    ensures !Middleware.Cached(d.ev, old(req.context)) ==>
      req.body == Middleware.BodyAfter(old(req.contentType), old(req.body), d.ev.copyBody)
    ensures !Middleware.Cached(d.ev, old(req.context)) ==>
      Middleware.PoolsAfter(bodyPool, sp, old(req.contentType), old(req.body), d.ev.copyBody)
  {
    var mw := new Middleware.Event(d.ev);
    var got := mw.EventFromRequest(req, bodyPool, sp, decode);
    r := Dispatch(d, got);
  }

  // ---------------------------------------------------------------------------
  // Properties.

  /** No two fallbacks write the same reply: each names its own kind. */
  lemma FallbackNamesOwnKind(j: Kind, k: Kind, e1: Record, e2: Record)
    requires Fallback(j, e1) == Fallback(k, e2)
    ensures j == k
  {
    assert AlertName(j) == Fallback(j, e1).message[|MissingHandler|..];
    AlertNameInjective(j, k);
  }

  /** An error from the middleware invokes no handler; it is answered with
      its own status when it is an HTTP error and with 400 otherwise, and
      with its message. */
  lemma ErrorsInvokeNoHandler(d: Dispatcher, err: Err)
    requires forall k :: k in d.slots
    ensures Dispatch(d, Fail(err)).Replied?
    ensures Dispatch(d, Fail(err)).reply.status == if err.Http? then err.e.status else StatusBadRequest
    ensures Dispatch(d, Fail(err)).reply.message == Message(err)
  {
  }

  /** An event of kind K reaches exactly the handler configured for K, or,
      when none is, the fallback of K. */
  lemma EventReachesOwnSlot(c: Config, ev0: Middleware.EventConfig, e: Record)
    ensures var d := Dispatcher(map k | k in AllKinds :: Resolve(c.handlers, k), ev0);
      (forall k :: k in d.slots) &&
      Dispatch(d, Ok(e)) == if e.kind in c.handlers then Invoked(c.handlers[e.kind], e)
                            else Replied(Reply(404, MissingHandler + AlertName(e.kind)))
  {
    AllKindsComplete();
  }

  /** Through the router, a handler is invoked only with an event that was
      read from the request, is of the handler's kind, and, when a verifier
      is configured, passed it. */
  lemma InvokedOnlyAfterVerification(d: Dispatcher, ctx: Middleware.Context, contentType: Bytes, body: Reader,
                                     decode: FormDecoder, h: Handler, e: Record)
    requires forall k :: k in d.slots
    requires d.ev.skipContext
    requires Dispatch(d, Middleware.GetEvent(d.ev, ctx, contentType, body, decode)) == Invoked(h, e)
    ensures Middleware.ReadEvent(contentType, body, decode) == Ok(e)
    ensures d.slots[e.kind] == Registered(h)
    ensures d.ev.verifier.Some? ==> d.ev.verifier.value.verify(e) == None
  {
  }

  /** End to end: a form body whose only `alert_name=` field names K, read
      by the handler `Handler()` returns, is decoded as K; it gets through
      exactly when decoding and the configured verifier accept it, and then
      it reaches the handler configured for K, or K's fallback. */
  lemma FormBodyReachesNamedSlot(c: Config, ev0: Middleware.EventConfig, ctx: Middleware.Context, contentType: Bytes,
                                 xs: seq<Bytes>, k: Kind, ys: seq<Bytes>, decode: FormDecoder)
    requires KeepsKind(decode)
    requires Middleware.ApplicationForm <= contentType
    requires forall x :: x in xs + ys ==> Sniffer.Diverges(x, Sniffer.AlertKey)
    requires NoSep(xs + [Sniffer.AlertKey + AlertName(k)] + ys, '&')
    ensures var d := Dispatcher(map j | j in AllKinds :: Resolve(c.handlers, j),
                                ev0.(verifier := c.verifier, skipContext := true, copyBody := c.copyBody));
      var body := Join(xs + [Sniffer.AlertKey + AlertName(k)] + ys, '&');
      var got := Middleware.GetEvent(d.ev, ctx, contentType, Reader(body, None), decode);
      (forall j :: j in d.slots)
      && (got.Ok? <==> decode(k, body).Ok? && (c.verifier.Some? ==> c.verifier.value.verify(decode(k, body).value).None?))
      && (got.Ok? ==>
            got.value == decode(k, body).value && got.value.kind == k
            && Dispatch(d, got) == if k in c.handlers then Invoked(c.handlers[k], got.value)
                                   else Replied(Reply(404, MissingHandler + AlertName(k))))
  {
    var d := Dispatcher(map j | j in AllKinds :: Resolve(c.handlers, j),
                        ev0.(verifier := c.verifier, skipContext := true, copyBody := c.copyBody));
    var body := Join(xs + [Sniffer.AlertKey + AlertName(k)] + ys, '&');
    Middleware.FormBodyDispatch(contentType, xs, k, ys, decode);
    var got := Middleware.GetEvent(d.ev, ctx, contentType, Reader(body, None), decode);
    if got.Ok? {
      EventReachesOwnSlot(c, d.ev, got.value);
    } else {
      AllKindsComplete();
    }
  }
}
