# go-paddle webhook pipeline in Dafny

This project models how go-paddle authenticates and dispatches Paddle webhooks.
Paddle posts an `application/x-www-form-urlencoded` body. The event middleware
scans it for `alert_name`, picks the record kind announced under that name and
decodes the record. It then checks the RSA signature over the record's PHP
serialisation and either passes the request on or answers with an HTTP error.
The type router places the middleware in front of seventeen handler slots, one
per record kind. An unconfigured slot answers 404.

The model also covers the supporting pieces:
- the test helper that builds the canonical signing string and the JSON and
  form bodies;
- the product-list codec of `new_audience_member`;
- the fixed date layouts;
- the decoder pool;
- the HTTP error values.

Modules, one per source file or concern:

- `ByteText`: bytes as `seq<Byte>`. It holds decimal text (`strconv.Itoa`), Go's
  int64 wrap-around, the fixed-width digits of date layouts, and splitting and
  joining at a separator.
- `Kinds`: the seventeen record kinds and their alert-name constants.
- `HttpErrors`, `Failures`: `httperrors/http.go`, and the three kinds of Go error
  the code tells apart: HTTP error, verification error and any other error.
- `Signature`: `signature/rsa.go`. Base64 decoding (section 4 of RFC 4648),
  SHA-1 and RSASSA-PKCS1-v1_5 verification (section 8.2.2 of RFC 8017) are
  parameters (`Crypto`).
- `Events`: `events/event.go`. A record is its kind, its form fields and its
  `p_signature`. `phpserialize.Marshal` is a parameter.
- `Decode`: `events/decode.go`. A `Buffer` class and a `BufferPool` class stand
  for the pooled decoders. The pool is a stack of idle buffers.
- `Sniffer`: `eventNameFromURLEncoded`. It is modelled twice:
  - the imperative loop, `EventNameFromURLEncoded`;
  - its step-by-step specification, `Scan`.

  `SniffFields` is an independent field-level reading of the body split at `&`,
  and `SniffIsFieldWalk` proves that it agrees with `Scan` on every input.
- `Middleware`: `unmarshalEvent`, `readEventFromRequest`, `onError`, `Handle` and
  `EventFromRequest`. A request is a `Request` object; serving yields a `Served`
  value.
- `Router`: `router/router.go` and `router/handlers.go`.
- `Products`: `AudienceMemberProducts`, with the parse loop over a `seq`.
- `Sorting`: `sort.Strings` as an insertion sort specified by "sorted
  permutation", plus the uniqueness of that result.
- `SignHelper`: the test helper `Sign`, loop by loop.
- `Types`: the date layouts and `PhpBool`.

## Model

| member | source | states |
|---|---|---|
| Kinds.KindOfName | middleware/event.go:118-155 | a name selects a kind only if it is that kind's alert-name constant |
| Kinds.KindOfAlertName | middleware/event.go:118-152 | each of the seventeen alert names selects its own kind; no earlier case shadows it |
| Kinds.AlertNameInjective | middleware/event.go:118-152 | no two kinds share an alert name |
| Kinds.KindOfNameExact | middleware/event.go:118-155 | a name selects kind k exactly when it is k's alert name; every other name, "" included, selects none |
| Kinds.NameLengths | events/subscription/created.go:8 | the length of every alert-name constant |
| HttpErrors.WriteTo | httperrors/http.go:15-17 | the reply carries exactly the stored status and message (`Error()`) |
| HttpErrors.NewHttpError | httperrors/http.go:23-25 | message and status are stored unchanged and written back unchanged |
| HttpErrors.NewBadRequestError | httperrors/http.go:27-29 | the message is kept and is written with status 400 |
| HttpErrors.NewUnauthorizedError | httperrors/http.go:31-33 | the message is kept and is written with status 401 |
| HttpErrors.NewInternalServerError | httperrors/http.go:35-37 | the message is kept and is written with status 500 |
| Failures.BadRequest | middleware/event.go:154 | a bad-request error writes 400 with the message, and its `Error()` is the message |
| Signature.HashId | signature/rsa.go:20-25 | the configured hash when set, SHA-1 when it is 0; never 0 |
| Signature.HashFunc | signature/rsa.go:27-34 | a SHA-1 hasher whatever hash is configured |
| Signature.EncodingOf | signature/rsa.go:36-41 | the configured encoding, or standard base64 when none is set |
| Signature.DecodedLen | signature/rsa.go:47 | the decode buffer holds at most 3/4 of the input length, exactly 3/4 for whole quanta |
| Signature.GetSignature | signature/rsa.go:43-50 | an empty input fails with "empty signature"; otherwise the result is a prefix of the decoder's output, no longer than the buffer, with the decoder's error |
| Signature.HashData | signature/rsa.go:52-62 | hashing always succeeds, with the SHA-1 digest of the data |
| Signature.Verify | signature/rsa.go:64-74 | an empty signature and a decode error are returned before hashing; otherwise the result is the PKCS#1 v1.5 check of the SHA-1 digest under `hash()` |
| Signature.DecodeFailsFirst | signature/rsa.go:65-68 | when decoding fails, Verify returns that error whatever the data |
| Signature.SignedMessageVerifies | signature/rsa.go:64-74 | with the default or explicit SHA-1 and standard base64, a signature valid over exactly the message verifies |
| Events.RSAVerify | events/event.go:9-22 | every failure is a verification error; a serialisation failure comes first; otherwise the result is the wrapped result of RSA verification of the serialised bytes against `p_signature` |
| Events.RSAVerifier | events/event.go:7-9 | the `Verifier` built from an RSA configuration verifies every record with RSAVerify |
| Events.RSAVerifyPasses | events/event.go:21 | verification passes if and only if serialisation succeeds and the RSA check of its output against `p_signature` passes |
| Events.SignatureNotSigned | events/event.go:10-18 | the signature field is not part of the signed bytes: replacing it changes only which signature is checked |
| Events.SignedRecordVerifies | events/event.go:9-22 | a record whose `p_signature` is a valid signature of its serialisation passes under the default configuration |
| Decode.ReqContentType | events/decode.go:58-64 | "" for an empty header; otherwise the prefix of the header up to its first comma, itself comma-free |
| Decode.Buffer.constructor | events/decode.go:34-38 | a new buffer is empty |
| Decode.Buffer.Reset | events/decode.go:46 | the buffer is emptied |
| Decode.Buffer.ReadFrom | events/decode.go:21 | the reader's bytes are appended to the buffer, and its error is returned |
| Decode.BufferPool.constructor | events/decode.go:31-42 | a new pool holds no idle buffer |
| Decode.BufferPool.Get | events/decode.go:44-48 | the buffer handed out is always empty: a fresh one, or the most recently returned one after a reset |
| Decode.BufferPool.Put | events/decode.go:50-52 | the buffer joins the idle ones |
| Decode.SchemaDecode | events/decode.go:20-25 | the body is copied into the buffer; a read error is returned before decoding, otherwise the decoder sees the buffer's bytes |
| Decode.UnmarshalForm | events/decode.go:66-71 | the result is the decode of the body (or its read error), and the decoder goes back to the pool whether or not decoding failed |
| Sniffer.MatchKey | middleware/event.go:88-94 | a match consumes exactly the key's bytes; a read past the end happens only in the as-written order |
| Sniffer.ValueEnd | middleware/event.go:97-100 | the value runs to the next `&` or the end and holds no `&` |
| Sniffer.Scan | middleware/event.go:80-106 | with the bound checked first the scan always names a value; any value named holds no `&` |
| Sniffer.ExamineAt | middleware/event.go:85-101 | one examination of a possible key never yields a value holding `&` |
| Sniffer.Sniff | middleware/event.go:75-107 | "" on an empty body; no panic with the bound checked first; the value never holds `&` |
| Sniffer.EventNameFromURLEncoded | middleware/event.go:75-107 | the loop computes `Sniff` of the body, including the panic of the as-written order |
| Sniffer.ExamineFrom | middleware/event.go:85-101 | one pass of the loop body advances the index and preserves the scan's result, or panics exactly when the key comparison reads past the end |
| Sniffer.CompareKey | middleware/event.go:88-94 | the key loop's position and match count agree with `MatchKey` |
| Sniffer.ValueEndFrom | middleware/event.go:97-100 | the value loop stops where `ValueEnd` says |
| Sniffer.SniffIsFieldWalk | middleware/event.go:75-107 | the byte scan equals the field-level reading of the body split at `&`, on every body |
| Sniffer.WalkOrdersAgree | middleware/event.go:89 | the corrected order never panics, and wherever the as-written order does not panic the two orders agree |
| Sniffer.WalkPanicsOnlyAtPrefixEnd | middleware/event.go:89 | the as-written order panics only when the last field is a proper prefix of `alert_name=` (the empty field after a trailing `&` included) |
| Sniffer.SniffValueIsField | middleware/event.go:95-104 | a non-empty result is the rest of some field that starts with `alert_name=` |
| Sniffer.SniffFieldsSingleKey | middleware/event.go:75-107 | among fields that diverge from the key, the one `alert_name=V` field names V wherever it stands |
| Sniffer.SniffSingleKey | middleware/event.go:75-107 | the same on the joined body bytes: `alert_name=V`, `alert_name=V&k=v` and `k=v&alert_name=V&k2=v2` all give V |
| Sniffer.LaterKeyOverwrites | middleware/event.go:95-101 | a later `alert_name=` field overwrites an earlier one |
| Sniffer.AdjacentKeyHidden | middleware/event.go:80-101 | an `alert_name=` field right after a matched one is stepped over, because the outer `i++` consumed its `&` |
| Sniffer.FormFieldDiverges | middleware/event.go:88-94 | a field whose key has no `=` and is not `alert_name` is passed over |
| Sniffer.CheckedSniffAgrees | middleware/event.go:89 | the corrected scan never panics and agrees with the as-written scan wherever that one does not panic |
| Sniffer.KeyThenEmptyLastField | middleware/event.go:80-101 | after a matched `alert_name=V` field the next field is skipped, so an empty field after it panics as written and yields V with the bound checked first |
| Sniffer.TrailingAmpersandPanics | middleware/event.go:85-89 | as written, ordinary fields followed by a trailing `&` read past the end; checked first, they name nothing |
| Sniffer.TrailingAmpersandExample | middleware/event.go:85-89 | `foo=bar&` panics as written and gives "" checked first |
| Middleware.EventName | middleware/event.go:168 | the name the middleware sniffs never contains `&` |
| Middleware.ErrorServed | middleware/event.go:188-201 | without continue-on-error, an HTTP error writes its own status and any other error writes 500 with its message; with it, next is called, with the error in the context unless the context is skipped |
| Middleware.Request.constructor | middleware/event.go:159 | a request holds its content type, body and context |
| Middleware.UnmarshalEvent | middleware/event.go:116-157 | a known name decodes the body as that kind; any other name is a bad request "<name> is not a supported event type" and touches no decoder; the decoder pool gets its decoder back, or keeps a new one |
| Middleware.EventNameAsWritten | middleware/event.go:75-107 | wherever the loop as written does not panic, it reads the same name as the corrected scanner the middleware uses |
| Middleware.PanickingBodyNamesKind | middleware/event.go:80-101 | a body `alert_name=K&y&` panics as written, since `y` is skipped and the empty last field examined, yet the model decodes it as kind K |
| Middleware.CopyBody | middleware/event.go:160-163 | a pooled buffer receives the whole body and the body's error; the request body is drained |
| Middleware.ReadEventFromRequest | middleware/event.go:159-186 | the result is `ReadEvent` of the content type and body; with copy-body on an accepted request, the body is replaced by the read bytes and the buffer stays out of the pool; without copy-body the buffer goes back to the pool; a failed read or a rejected content type returns early and keeps the buffer out; an empty pool ends holding one new buffer exactly when the buffer went back, and is otherwise still empty; the decoder pool gets its decoder back, and an empty one gains a new decoder exactly when a supported name reached it |
| Middleware.Event.constructor | middleware/event.go:30-41 | the middleware holds the given configuration |
| Middleware.Event.Handle | middleware/event.go:203-209 | unset context keys get their defaults and nothing else changes |
| Middleware.Event.EventFromRequest | middleware/event.go:224-243 | the result is `GetEvent`: a cached event is reused without reading the request, otherwise the read event, verified when a verifier is set; a cached event leaves the request and both pools untouched; otherwise the request keeps the bytes read as its body under copy-body and is left drained without it, and the pools end as `PoolsAfter` says |
| Middleware.Event.Serve | middleware/event.go:210-221 | serving combines GetEvent with the error policy and context storage of `HandleServed`; the request `next` receives carries the body bytes again under copy-body and a drained body without it, and the pools end as for `EventFromRequest` |
| Middleware.EventOfNameDispatch | middleware/event.go:116-157 | an alert name decodes its kind; every other name fails with the bad-request message |
| Middleware.FormBodyDispatch | middleware/event.go:166-178 | a form body with one `alert_name=K` field among diverging fields is decoded as kind K |
| Middleware.OnlyVerifiedEventsPass | middleware/event.go:232-241 | with a verifier, an event is returned only if it was read from the request and passed verification |
| Middleware.ErrorPolicy | middleware/event.go:188-220 | an error without continue-on-error writes its own status or 500 and never calls next; otherwise next is called |
| Middleware.CachedEventReused | middleware/event.go:227-231 | an event already in the context is returned whatever the request holds |
| Router.AllKindsComplete | router/router.go:62-129 | the seventeen slots cover every kind |
| Router.HandlerNotFound | router/handlers.go:180-182 | status 404 and the message "missing handler for event " followed by the name |
| Router.Router.constructor | router/router.go:185-187 | the configuration is stored and the slots stay unresolved |
| Router.Router.Handler | router/router.go:58-129 | every slot holds its configured handler or else its own fallback; the middleware skips the context and takes the verifier and copy-body setting from the configuration; the router is unchanged |
| Router.ServeHTTP | router/router.go:130-182 | serving a request dispatches whatever the middleware returned; the request the handler receives carries the body bytes again when the configuration copies the body, and the pools end as for `EventFromRequest` |
| Router.FallbackNamesOwnKind | router/handlers.go:184-252 | two fallbacks reply alike only if they belong to the same kind, whatever the event |
| Router.ErrorsInvokeNoHandler | router/router.go:132-145 | an error invokes no handler; an HTTP error writes its own status, any other error 400 with its message |
| Router.EventReachesOwnSlot | router/router.go:146-181 | an event of kind K reaches exactly the handler configured for K, or else K's 404 fallback |
| Router.FormBodyReachesNamedSlot | router/router.go:146-181 | end to end, with a decoder that returns the kind it is asked for: a form body whose only `alert_name=` field names K gets through exactly when decoding and the verifier accept it, and then reaches the handler configured for K, or else K's 404 fallback |
| Router.InvokedOnlyAfterVerification | router/router.go:130-182 | a handler runs only for the event read from the request, in its own kind's slot, and only after verification passed |
| Products.ListLength | events/alerts/new_audience_member.go:21-26 | the list length is one more than the number of commas |
| Products.ReadValues | events/alerts/new_audience_member.go:28-40 | succeeds exactly when every byte is a digit or a comma; then each element is its segment's int64 value; on failure, the elements before the bad byte are set and the rest are 0 |
| Products.AudienceMemberProducts.constructor | events/alerts/new_audience_member.go:14 | a new list is empty |
| Products.AudienceMemberProducts.UnmarshalText | events/alerts/new_audience_member.go:16-42 | "" gives the empty list; a digit-and-comma text gives its values; any other byte gives "not a number" and leaves the values read so far |
| Products.AudienceMemberProducts.UnmarshalJSON | events/alerts/new_audience_member.go:44-49 | fewer than 2 bytes leave the list unchanged with no error; otherwise the bytes between the first and the last are parsed, and on a bad byte the list holds the values before it, padded with zeros to one per comma-separated field |
| Products.AudienceMemberProducts.String | events/alerts/new_audience_member.go:51-57 | the elements in base 10 joined with commas |
| Products.PushDigit | events/alerts/new_audience_member.go:34-35 | one digit multiplies the current element by ten and adds, with int64 wrap-around |
| Products.ValuesAreSegments | events/alerts/new_audience_member.go:28-40 | element k is the value of the k-th comma-separated segment; an empty segment is 0 |
| Products.SegmentValueExact | events/alerts/new_audience_member.go:34-35 | a segment whose value fits in int64 parses without wrap-around |
| Products.TextRoundTrip | events/alerts/new_audience_member.go:16-57 | parsing the printed text of a list of non-negative int64 values gives back the list |
| Products.CanonicalRoundTrip | events/alerts/new_audience_member.go:16-57 | printing a parsed canonical digit list gives back the text |
| Products.ParsedLength | events/alerts/new_audience_member.go:21-27 | a non-empty parsed text has one more element than it has commas |
| Products.FailsOnlyOnBadByte | events/alerts/new_audience_member.go:31-33 | parsing fails if and only if some byte is neither a digit nor a comma |
| Sorting.LessEqTotal | events/test/helper.go:45 | byte-wise string order is total |
| Sorting.LessEqAntisymmetric | events/test/helper.go:45 | and antisymmetric |
| Sorting.LessEqTransitive | events/test/helper.go:45 | and transitive |
| Sorting.Insert | events/test/helper.go:45 | inserting into a sorted list keeps it sorted and adds exactly one element |
| Sorting.SortStrings | events/test/helper.go:45 | the result is sorted and a permutation of the input |
| Sorting.SortedUnique | events/test/helper.go:45 | two sorted permutations of the same keys are equal, so the output order does not depend on map iteration order |
| Sorting.SortIsAscending | events/test/helper.go:36-45 | sorting any order of the gathered keys gives the same sequence |
| SignHelper.FirstBool | events/test/helper.go:55-64 | the value of the first boolean map holding the key, present exactly when some map holds it |
| SignHelper.AppendKeys | events/test/helper.go:37-43 | every key of the map is appended once |
| SignHelper.GatherKeys | events/test/helper.go:36-44 | the gathered keys are the string map's keys plus each boolean map's keys, with duplicates kept |
| SignHelper.WriteValue | events/test/helper.go:51-64 | the value written for a key in each rendering |
| SignHelper.WritePhp | events/test/helper.go:48-67 | the canonical string is `a:N:{`, then `s:len:"key";` followed by the string value or `s:1:"1";`/`s:1:"0";` for each key in order, then `}` |
| SignHelper.WriteJson | events/test/helper.go:74-96 | the JSON body renders bools as "true"/"false" and ends with `p_signature` |
| SignHelper.WriteUrl | events/test/helper.go:97-117 | the form body is `k=v&` per key with bools as 1/0, ending in `p_signature=<sig>` |
| SignHelper.FillMap | events/test/helper.go:118-129 | M holds each string value, each boolean as "true"/"false" (a boolean overriding a string value), and the signature under `p_signature` |
| SignHelper.Sign | events/test/helper.go:35-131 | the four outputs over the ascending key order, with the signature taken over the canonical string |
| SignHelper.KeyBagMembers | events/test/helper.go:36-44 | a key is gathered exactly when it is in the string map or in some boolean map |
| SignHelper.UrlFields | events/test/helper.go:98-114 | one field per key, in key order |
| SignHelper.UrlFormIsJoin | events/test/helper.go:97-117 | the form body is its fields joined with `&`, the signature field last, with no trailing `&` |
| SignHelper.FormNamesEvent | events/test/helper.go:97-117 | the sniffer reads the escaped `alert_name` value back from the form body |
| SignHelper.SignedFormNamesEvent | events/test/helper.go:35-117 | the same for the body `Sign` produces |
| SignHelper.SignedFormDispatch | events/test/helper.go:35-117 | a signed form body naming kind K is decoded by the middleware as kind K |
| SignHelper.KeyCount | events/test/helper.go:36-48 | the count in the `a:N:{` header is the number of string keys plus each boolean map's keys |
| Types.Triple | events/types/types.go:5-8 | a fixed-width three-part layout has width plus six bytes |
| Types.TripleParsesBack | events/types/types.go:5-8 | a formatted triple reads back as its three numbers |
| Types.TripleFormatsBack | events/types/types.go:5-8 | a text matching the layout is the format of the numbers read from it |
| Types.Format | events/types/types.go:29-31 | formatting gives exactly the layout's length |
| Types.Parse | events/types/types.go:23-27 | a parsed time fits the layout and the text matches it |
| Types.ParseQuoted | events/types/types.go:14-21 | the JSON form parses the layout inside double quotes |
| Types.ParseFormat | events/types/types.go:23-31 | a time at the layout's precision round-trips through its text |
| Types.FormatParse | events/types/types.go:23-31 | a text that parses is the format of its own parse |
| Types.ParseFormatWhenFits | events/types/types.go:23-31 | format then parse is the identity for every time that fits the layout |
| Types.DateLayoutIsReferenceTime | events/types/types.go:6 | the date layout is Go's reference date `2006-01-02` |
| Types.DateTimeLayoutIsReferenceTime | events/types/types.go:7 | the date-time layout is Go's reference time `2006-01-02 15:04:05` |
| Types.TimeYYYYMMDD.constructor | events/types/types.go:10-12 | a new value is the zero time |
| Types.TimeYYYYMMDD.UnmarshalJSON | events/types/types.go:14-21 | "null" leaves the value unchanged with no error; a quoted date sets it; anything else is an error and sets the zero time |
| Types.TimeYYYYMMDD.UnmarshalText | events/types/types.go:23-27 | a date sets the value and its String is the text; anything else is an error |
| Types.TimeYYYYMMDD.String | events/types/types.go:29-31 | the text parses back to the value |
| Types.TimeYYYYMMDDHHmmSS.constructor | events/types/types.go:33-35 | a new value is the zero time |
| Types.TimeYYYYMMDDHHmmSS.UnmarshalJSON | events/types/types.go:37-44 | the same for the date-time layout |
| Types.TimeYYYYMMDDHHmmSS.UnmarshalText | events/types/types.go:46-50 | the same for the date-time layout |
| Types.TimeYYYYMMDDHHmmSS.String | events/types/types.go:52-54 | the text parses back to the value |
| Types.PhpBoolString | events/types/types.go:70-75 | "1" for true and "0" for false, as canonical decimals |
| ByteText.DecimalTextValue | events/alerts/new_audience_member.go:54 | base-10 text reads back as its number |
| ByteText.DecimalValueText | events/alerts/new_audience_member.go:54 | canonical digits are the base-10 text of their value |
| ByteText.DecimalTextInjective | events/test/helper.go:48 | different numbers have different decimal texts |
| ByteText.WrapTwice | events/alerts/new_audience_member.go:35 | int64 wrap-around is idempotent and leaves int64 values alone |
| ByteText.SplitJoin | middleware/event.go:80-101 | splitting fields joined at a separator they do not contain gives back the fields |

## Left out

- Base64 decoding, SHA-1 and `rsa.VerifyPKCS1v15` are parameters (`Signature.Crypto`), not interpreted.
- Key generation and signing in the test helper are one parameter, `signFn`, from the canonical string to the signature text (events/test/helper.go:20-26, 68-73).
- `url.QueryEscape` is the parameter `esc`. The form-body lemmas assume three things of it, gathered in `SignHelper.EscapesSeparators`: its output never holds `&` or `=`; it leaves `alert_name` as it is; and no other text escapes to `alert_name`. `url.QueryEscape` has all three properties, but the model does not derive them from its definition.
- `phpserialize.Marshal` is the parameter `Events.Marshal`. The record types' own field layouts are left out; a record is its kind, its form fields and `p_signature`.
- The urldecode decoder is the parameter `Decode.FormDecoder`. The urldecode package is not part of this model.
- `events.UnmarshalJSON` (events/decode.go:73-75) needs the JSON library and is left out. The middleware only uses the form decoder.
- The mime package is not part of this model. Its `ApplicationForm` constant is written out, and the header lookup is the request's `contentType` field.
- signature/errors.go is not part of this model. A `VerificationError` is the `Verification` case of `Failures.Err` and reads as its cause.
- `sync.Pool` hands out an arbitrary idle object or a new one. The model picks the most recently returned one (a stack), which satisfies every caller. Concurrency is not modelled.
- Middleware.EventName, Middleware.ReadEventFromRequest: the loop as written (middleware/event.go:80-101) panics with an index out of range when the last field of the body is examined and is a proper prefix of `alert_name=`. The empty field after a trailing `&` counts as such a prefix. A field goes unexamined when it follows an `alert_name=…` field, or a field that is itself a proper prefix of the key, because the outer `i++` then consumes its leading `&` (`Sniffer.Walk`, `Sniffer.WalkPanicsOnlyAtPrefixEnd`). So `foo=bar&`, `a` and `x=1&alert` panic, while `alert_name=transfer_paid&` and `alert_name&` do not. The middleware uses the corrected scanner. On a body that panics as written, it returns the value of the last examined `alert_name=` field before the end. When that value names a kind, the model decodes, verifies and dispatches a request the program never serves: `Middleware.PanickingBodyNamesKind` shows this with `alert_name=K&y&`, for example `alert_name=transfer_paid&x=1&`. When the value names no kind, or there is no such field, the model answers 400 `"<name> is not a supported event type"`. In every one of these cases the program panics and `net/http` drops the connection. `Middleware.EventNameAsWritten` states that on every body that does not panic, the two scanners read the same name.
- `req.Body.Close()` and the `*Func` adapters (router/handlers.go:10-178) only forward. An invoked handler is recorded as `Invoked(handler, event)`, and the response writer and request are not modelled.
- `http.Error` also writes headers and a trailing newline. A reply is modelled as status and message only.
- Context keys are strings, and `context.WithValue` is a map update.
- `Types`: `time.Parse`/`Format` are modelled only for the two fixed layouts, on a date with no time zone; other layouts are not modelled. An unparsable text sets the zero time, as `time.Parse` returns it.
- Types.Parse: the model reads every element at its fixed width and rejects anything after the seconds. `time.Parse` also accepts a one-digit hour for the `15` element (`2020-01-02 3:04:05`) and fractional seconds after `05` (`2020-01-02 15:04:05.5`). The model rejects both texts. The date-only layout has no such element and is modelled in full.
- Types.FormatParse: holds only for the fixed-width spelling without a fraction. A one-digit hour or a fraction is accepted by `time.Parse` but is not the format of its own parse.
- Types.TimeYYYYMMDDHHmmSS.UnmarshalJSON: inherits the gap of `Types.Parse`. A quoted date-time with a one-digit hour or fractional seconds is an error in the model but is accepted by Go, so `String() == data` holds only for the fixed-width spelling.
- Types.TimeYYYYMMDDHHmmSS.UnmarshalText: the same gap as `UnmarshalJSON`, on unquoted text.
- `Types.ParseError`: the error text of `time.Parse` is not modelled. Go's `*time.ParseError` adds `: cannot parse "<rest>" as "<element>"` or a range message, and under `UnmarshalJSON` it quotes the layout with its double quotes. No contract in the model depends on the text.
- `Types.MarketingConsent` is a constant pair (REFUSED = 0, GRANTED = 1) with no operations.
- The test helpers `ParseTime` and the other functions after `Sign` (events/test/helper.go:133-172) are left out.
- `Signature.Verify`: the digest is always SHA-1 (`hashFunc`), while the hash identifier given to the RSA check is the configured one. The model passes both as the source does.
- `Sniffer.ExamineFrom`, `Sniffer.CompareKey`: these are written for any key, while the source uses only `alert_name=`.
- `Products`: int64 arithmetic is modelled by `ByteText.Wrap64`. `Products.TextRoundTrip` is stated for non-negative values below 2^63, because `String` of a negative value prints a `-` that the parser rejects.

## Findings

| source | as written | input that shows it | evidently intended | confidence | as-written member | corrected member |
|---|---|---|---|---|---|---|
| middleware/event.go:89 | the key comparison reads `b[i]` before it checks `i >= len(b)`, so when the last field of the body is examined and is a proper prefix of `alert_name=` (an empty field after a trailing `&` included), it indexes one past the end and panics; a last field right after an `alert_name=` field or a key-prefix field is skipped by the outer `i++` and does not panic | `foo=bar&` | check the bound before reading the byte | not executed | Sniffer.TrailingAmpersandPanics | Sniffer.CheckedSniffAgrees |
