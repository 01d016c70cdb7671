/** The signing helper of the tests (events/test/helper.go, `Sign`): the
    only code that spells out the bytes the webhook signature covers. From a
    map of string fields and any number of maps of boolean fields it builds
    the canonical string (PHP's `serialize()` of the fields in ascending key
    order), signs it, and renders the same fields as a JSON body, a form body
    and a plain map, each with the signature under `p_signature`.

    Hashing, RSA signing and base64 are one parameter, `signFn`, from the
    canonical string to the signature text; `url.QueryEscape` is the
    parameter `esc`. A Go map is iterated in no fixed order; the model picks
    each next key with `:|`, so nothing may depend on that order. */
module SignHelper {
  import opened ByteText
  import opened Wrappers
  import opened Sorting
  import opened Kinds
  import opened Decode
  import Sniffer
  import Middleware

  const PSignature: Bytes := "p_signature"
  const AlertField: Bytes := "alert_name"

  datatype Data = Data(json: Bytes, url: Bytes, php: Bytes, m: map<Bytes, Bytes>)

  // ---------------------------------------------------------------------------
  // The keys.

  /** The keys of the boolean maps, each map contributing its own. */
  function BoolKeys(bools: seq<map<Bytes, bool>>): multiset<Bytes>
  {
    if bools == [] then multiset{} else multiset(bools[0].Keys) + BoolKeys(bools[1..])
  }

  /** Every key gathered: a key present in several maps is gathered once per
      map. */
  function KeyBag(m: map<Bytes, Bytes>, bools: seq<map<Bytes, bool>>): multiset<Bytes>
  {
    multiset(m.Keys) + BoolKeys(bools)
  }

  /** The keys in the order every output is written in. */
  ghost function SignKeys(m: map<Bytes, Bytes>, bools: seq<map<Bytes, bool>>): seq<Bytes>
  {
    Ascending(KeyBag(m, bools))
  }

  /** The value of the first boolean map holding `k`. */
  function BoolValue(k: Bytes, bools: seq<map<Bytes, bool>>): Option<bool>
  {
    if bools == [] then None
    else if k in bools[0] then Some(bools[0][k])
    else BoolValue(k, bools[1..])
  }

  /** strconv.FormatBool. */
  function FormatBool(b: bool): Bytes
  {
    if b then "true" else "false"
  }

  // ---------------------------------------------------------------------------
  // The three renderings.

  /** PHP's serialization of a string. */
  function PhpString(s: Bytes): Bytes
  {
    "s:" + DecimalText(|s|) + ":\"" + s + "\";"
  }

  /** The canonical value of a key: the string value when there is one,
      otherwise the first boolean as "1" or "0". */
  function PhpValue(k: Bytes, m: map<Bytes, Bytes>, bools: seq<map<Bytes, bool>>): Bytes
  {
    if k in m then PhpString(m[k])
    else
      match BoolValue(k, bools)
      case Some(b) => if b then PhpString("1") else PhpString("0")
      case None => []
  }

  /** The three renderings of the fields; the form body escapes with `esc`. */
  datatype Format = Php | Json | Form(esc: Bytes -> Bytes)

  /** What each rendering writes for one key. */
  function Entry(f: Format, m: map<Bytes, Bytes>, bools: seq<map<Bytes, bool>>, k: Bytes): Bytes
  {
    match f
    case Php => PhpString(k) + PhpValue(k, m, bools)
    case Json => JsonMember(k, JsonValue(k, m, bools))
    case Form(esc) => esc(k) + "=" + UrlValue(k, m, bools, esc)
  }

  /** The entries of `ks` one after the other. */
  function Entries(f: Format, m: map<Bytes, Bytes>, bools: seq<map<Bytes, bool>>, ks: seq<Bytes>): Bytes
  {
    if ks == [] then [] else Entries(f, m, bools, ks[..|ks| - 1]) + Entry(f, m, bools, ks[|ks| - 1])
  }

  lemma AppendAssoc(a: Bytes, b: Bytes, c: Bytes)
    ensures (a + b) + c == a + (b + c)
  {
  }

  lemma AppendStep(before: Bytes, field: Bytes, sep: Bytes, e: Bytes)
    requires e == field + sep
    ensures before + e == (before + field) + sep
  {
  }

  /** The loops write one more entry at a time. */
  lemma EntriesSnoc(f: Format, m: map<Bytes, Bytes>, bools: seq<map<Bytes, bool>>, ks: seq<Bytes>, i: nat)
    requires i < |ks|
    ensures Entries(f, m, bools, ks[..i + 1]) == Entries(f, m, bools, ks[..i]) + Entry(f, m, bools, ks[i])
  {
    assert ks[..i + 1][..i] == ks[..i];
  }

  /** The canonical string: an array header counting the keys, one entry per
      key in order, and the closing brace. */
  function PhpForm(ks: seq<Bytes>, m: map<Bytes, Bytes>, bools: seq<map<Bytes, bool>>): Bytes
  {
    "a:" + DecimalText(|ks|) + ":{" + Entries(Php, m, bools, ks) + "}"
  }

  /** The JSON value of a key: a string, or "true"/"false". */
  function JsonValue(k: Bytes, m: map<Bytes, Bytes>, bools: seq<map<Bytes, bool>>): Bytes
  {
    if k in m then "\"" + m[k] + "\","
    else
      match BoolValue(k, bools)
      case Some(b) => "\"" + FormatBool(b) + "\","
      case None => []
  }

  /** A JSON member: the quoted key, a colon and the value. */
  function JsonMember(k: Bytes, value: Bytes): Bytes
  {
    "\"" + k + "\":" + value
  }

  /** The closing member of the JSON body: the signature. */
  function JsonSignature(sig: Bytes): Bytes
  {
    "\"" + PSignature + "\":\"" + sig + "\"}"
  }

  function JsonForm(ks: seq<Bytes>, m: map<Bytes, Bytes>, bools: seq<map<Bytes, bool>>, sig: Bytes): Bytes
  {
    "{" + Entries(Json, m, bools, ks) + JsonSignature(sig)
  }

  /** The form value of a key with its `&`: the escaped string, or "1"/"0". */
  function UrlValue(k: Bytes, m: map<Bytes, Bytes>, bools: seq<map<Bytes, bool>>, esc: Bytes -> Bytes): Bytes
  {
    if k in m then esc(m[k]) + "&"
    else
      match BoolValue(k, bools)
      case Some(b) => if b then "1&" else "0&"
      case None => []
  }

  /** The closing field of the form body: the signature. */
  function SignatureField(esc: Bytes -> Bytes, sig: Bytes): Bytes
  {
    PSignature + "=" + esc(sig)
  }

  function UrlForm(ks: seq<Bytes>, m: map<Bytes, Bytes>, bools: seq<map<Bytes, bool>>, esc: Bytes -> Bytes, sig: Bytes): Bytes
  {
    Entries(Form(esc), m, bools, ks) + SignatureField(esc, sig)
  }

  // ---------------------------------------------------------------------------
  // The helper, loop by loop.

  /** The first loop over the boolean maps: the first one holding `k`. */
  method FirstBool(k: Bytes, bools: seq<map<Bytes, bool>>) returns (b: Option<bool>)
    ensures b == BoolValue(k, bools)
    ensures b.Some? <==> exists i :: 0 <= i < |bools| && k in bools[i]
  {
    var i := 0;
    while i < |bools|
      invariant 0 <= i <= |bools|
      invariant BoolValue(k, bools) == BoolValue(k, bools[i..])
      invariant forall j :: 0 <= j < i ==> k !in bools[j]
    {
      assert bools[i..][1..] == bools[i + 1..];
      if k in bools[i] {
        return Some(bools[i][k]);
      }
      i := i + 1;
    }
    b := None;
  }

  /** `for k := range mp { keys = append(keys, k) }`: the keys of one map
      appended in map iteration order. */
  method AppendKeys(keys: seq<Bytes>, ks: set<Bytes>) returns (r: seq<Bytes>)
    ensures multiset(r) == multiset(keys) + multiset(ks)
  {
    r := keys;
    var rest := ks;
    while rest != {}
      invariant multiset(r) + multiset(rest) == multiset(keys) + multiset(ks)
      decreases |rest|
    {
      var k :| k in rest;
      assert multiset(rest) == multiset(rest - {k}) + multiset{k};
      r := r + [k];
      rest := rest - {k};
    }
  }

  /** Lines 36-44: every key of every map. */
  method GatherKeys(m: map<Bytes, Bytes>, bools: seq<map<Bytes, bool>>) returns (keys: seq<Bytes>)
    ensures multiset(keys) == KeyBag(m, bools)
  {
    keys := AppendKeys([], m.Keys);
    for i := 0 to |bools|
      invariant multiset(keys) + BoolKeys(bools[i..]) == KeyBag(m, bools)
    {
      assert bools[i..][1..] == bools[i + 1..];
      keys := AppendKeys(keys, bools[i].Keys);
    }
    assert bools[|bools|..] == [];
  }

  /** The value part of one key's entry, as each rendering writes it: the
      string value when the key has one, otherwise the first boolean. */
  method WriteValue(f: Format, k: Bytes, m: map<Bytes, Bytes>, bools: seq<map<Bytes, bool>>) returns (v: Bytes)
    ensures f.Php? ==> v == PhpValue(k, m, bools)
    ensures f.Json? ==> v == JsonValue(k, m, bools)
    ensures f.Form? ==> v == UrlValue(k, m, bools, f.esc)
  {
    if k in m {
      match f {
        case Php => v := PhpString(m[k]);
        case Json => v := "\"" + m[k] + "\",";
        case Form(esc) => v := esc(m[k]) + "&";
      }
      return;
    }
    var b := FirstBool(k, bools);
    if b.None? {
      return [];
    }
    match f
    case Php => v := if b.value then PhpString("1") else PhpString("0");
    case Json => v := "\"" + FormatBool(b.value) + "\",";
    case Form(_) => v := if b.value then "1&" else "0&";
  }

  /** Lines 48-67: the canonical string. */
  method WritePhp(keys: seq<Bytes>, m: map<Bytes, Bytes>, bools: seq<map<Bytes, bool>>) returns (php: Bytes)
    ensures php == PhpForm(keys, m, bools)
  {
    var header := "a:" + DecimalText(|keys|) + ":{";
    php := header;
    for i := 0 to |keys|
      invariant php == header + Entries(Php, m, bools, keys[..i])
    {
      var v := WriteValue(Php, keys[i], m, bools);
      var entry := PhpString(keys[i]) + v;
      assert entry == Entry(Php, m, bools, keys[i]);
      EntriesSnoc(Php, m, bools, keys, i);
      AppendAssoc(header, Entries(Php, m, bools, keys[..i]), entry);
      php := php + entry;
    }
    assert keys[..|keys|] == keys;
    php := php + "}";
  }

  /** Lines 74-96: the JSON body. */
  method WriteJson(keys: seq<Bytes>, m: map<Bytes, Bytes>, bools: seq<map<Bytes, bool>>, sig: Bytes) returns (json: Bytes)
    ensures json == JsonForm(keys, m, bools, sig)
  {
    var open: Bytes := "{";
    json := open;
    for i := 0 to |keys|
      invariant json == open + Entries(Json, m, bools, keys[..i])
    {
      var v := WriteValue(Json, keys[i], m, bools);
      var entry := JsonMember(keys[i], v);
      EntriesSnoc(Json, m, bools, keys, i);
      AppendAssoc(open, Entries(Json, m, bools, keys[..i]), entry);
      json := json + entry;
    }
    assert keys[..|keys|] == keys;
    json := json + JsonSignature(sig);
  }

  /** Lines 97-117: the form body. */
  method WriteUrl(keys: seq<Bytes>, m: map<Bytes, Bytes>, bools: seq<map<Bytes, bool>>, esc: Bytes -> Bytes, sig: Bytes)
    returns (url: Bytes)
    ensures url == UrlForm(keys, m, bools, esc, sig)
  {
    url := [];
    for i := 0 to |keys|
      invariant url == Entries(Form(esc), m, bools, keys[..i])
    {
      var v := WriteValue(Form(esc), keys[i], m, bools);
      var entry := esc(keys[i]) + "=" + v;
      assert entry == Entry(Form(esc), m, bools, keys[i]);
      EntriesSnoc(Form(esc), m, bools, keys, i);
      url := url + entry;
    }
    assert keys[..|keys|] == keys;
    url := url + SignatureField(esc, sig);
  }

  /** Lines 118-129: the plain map. A boolean overrides a string value of the
      same key, as there is no `continue` after the string. */
  method FillMap(keys: seq<Bytes>, m: map<Bytes, Bytes>, bools: seq<map<Bytes, bool>>, sig: Bytes)
    returns (mm: map<Bytes, Bytes>)
    ensures PSignature in mm && mm[PSignature] == sig
    ensures forall k :: k != PSignature ==> (k in mm <==> k in keys && (k in m || BoolValue(k, bools).Some?))
    ensures forall k :: k != PSignature && k in mm ==>
      mm[k] == if BoolValue(k, bools).Some? then FormatBool(BoolValue(k, bools).value) else m[k]
  {
    mm := map[];
    for i := 0 to |keys|
      invariant forall k :: k in mm <==> k in keys[..i] && (k in m || BoolValue(k, bools).Some?)
      invariant forall k :: k in mm ==>
        mm[k] == if BoolValue(k, bools).Some? then FormatBool(BoolValue(k, bools).value) else m[k]
    {
      var k := keys[i];
      if k in m {
        mm := mm[k := m[k]];
      }
      var b := FirstBool(k, bools);
      if b.Some? {
        mm := mm[k := FormatBool(b.value)];
      }
      assert keys[..i + 1] == keys[..i] + [k];
    }
    assert keys[..|keys|] == keys;
    mm := mm[PSignature := sig];
  }

  /** `Sign`. The keys are gathered, sorted, and every rendering follows the
      sorted order; the signature covers the canonical string only and comes
      last in the JSON and form bodies. */
  method Sign(m: map<Bytes, Bytes>, bools: seq<map<Bytes, bool>>, signFn: Bytes -> Bytes, esc: Bytes -> Bytes)
    returns (d: Data)
    ensures d.php == PhpForm(SignKeys(m, bools), m, bools)
    ensures d.json == JsonForm(SignKeys(m, bools), m, bools, signFn(d.php))
    ensures d.url == UrlForm(SignKeys(m, bools), m, bools, esc, signFn(d.php))
    ensures PSignature in d.m && d.m[PSignature] == signFn(d.php)
    ensures forall k :: k != PSignature ==> (k in d.m <==> k in m || BoolValue(k, bools).Some?)
    ensures forall k :: k != PSignature && k in d.m ==>
      d.m[k] == if BoolValue(k, bools).Some? then FormatBool(BoolValue(k, bools).value) else m[k]
  {
    var gathered := GatherKeys(m, bools);
    var keys := SortStrings(gathered);
    SortIsAscending(gathered);
    assert keys == SignKeys(m, bools);
    var php := WritePhp(keys, m, bools);
    var sig := signFn(php);
    var json := WriteJson(keys, m, bools, sig);
    var url := WriteUrl(keys, m, bools, esc, sig);
    var mm := FillMap(keys, m, bools, sig);
    forall k | k != PSignature
      ensures k in mm <==> k in m || BoolValue(k, bools).Some?
    {
      KeyBagMembers(m, bools, k);
      assert k in keys <==> k in multiset(keys);
    }
    d := Data(json, url, php, mm);
  }

  // ---------------------------------------------------------------------------
  // Properties.

  /** A key is gathered exactly when the string map or a boolean map has it. */
  lemma {:induction false} KeyBagMembers(m: map<Bytes, Bytes>, bools: seq<map<Bytes, bool>>, k: Bytes)
    ensures k in KeyBag(m, bools) <==> k in m || BoolValue(k, bools).Some?
    decreases |bools|
  {
    if bools != [] {
      KeyBagMembers(m, bools[1..], k);
    }
  }

  /** A key no boolean map has is gathered once per string map entry. */
  lemma {:induction false} BoolKeysAbsent(bools: seq<map<Bytes, bool>>, k: Bytes)
    requires forall i :: 0 <= i < |bools| ==> k !in bools[i]
    ensures BoolKeys(bools)[k] == 0
    decreases |bools|
  {
    if bools != [] {
      BoolKeysAbsent(bools[1..], k);
    }
  }

  /** The form value of a present key without its `&`. */
  function UrlFieldValue(k: Bytes, m: map<Bytes, Bytes>, bools: seq<map<Bytes, bool>>, esc: Bytes -> Bytes): Bytes
  {
    if k in m then esc(m[k])
    else if BoolValue(k, bools) == Some(true) then "1"
    else "0"
  }

  /** The `k=v` field of one key of the form body. */
  function UrlField(k: Bytes, m: map<Bytes, Bytes>, bools: seq<map<Bytes, bool>>, esc: Bytes -> Bytes): Bytes
  {
    esc(k) + "=" + UrlFieldValue(k, m, bools, esc)
  }

  /** The fields of the form body, one per key. */
  function UrlFields(ks: seq<Bytes>, m: map<Bytes, Bytes>, bools: seq<map<Bytes, bool>>, esc: Bytes -> Bytes): (fs: seq<Bytes>)
    ensures |fs| == |ks|
    ensures forall i :: 0 <= i < |ks| ==> fs[i] == UrlField(ks[i], m, bools, esc)
  {
    seq(|ks|, i requires 0 <= i < |ks| => UrlField(ks[i], m, bools, esc))
  }

  lemma FieldsSnoc(ks: seq<Bytes>, m: map<Bytes, Bytes>, bools: seq<map<Bytes, bool>>, esc: Bytes -> Bytes)
    requires |ks| > 0
    ensures UrlFields(ks, m, bools, esc) == UrlFields(ks[..|ks| - 1], m, bools, esc) + [UrlField(ks[|ks| - 1], m, bools, esc)]
  {
    var r := UrlFields(ks[..|ks| - 1], m, bools, esc) + [UrlField(ks[|ks| - 1], m, bools, esc)];
    forall j | 0 <= j < |ks| - 1
      ensures r[j] == UrlFields(ks, m, bools, esc)[j]
    {
      assert ks[..|ks| - 1][j] == ks[j];
    }
  }

  /** The form body is its fields joined at `&`, the signature field last:
      every key's `&` is followed by another field, so the body never ends
      in `&`. */
  lemma {:induction false} UrlFormIsJoin(ks: seq<Bytes>, m: map<Bytes, Bytes>, bools: seq<map<Bytes, bool>>,
                                         esc: Bytes -> Bytes, last: Bytes)
    requires forall k :: k in ks ==> k in m || BoolValue(k, bools).Some?
    ensures Entries(Form(esc), m, bools, ks) + last == Join(UrlFields(ks, m, bools, esc) + [last], '&')
    decreases |ks|
  {
    if ks == [] {
      assert [] + last == last;
    } else {
      var init := ks[..|ks| - 1];
      var k := ks[|ks| - 1];
      var field := UrlField(k, m, bools, esc);
      var amp: Bytes := ['&'];
      var e := Entry(Form(esc), m, bools, k);
      assert e == field + amp;
      forall x | x in init ensures x in m || BoolValue(x, bools).Some? {
        var i :| 0 <= i < |init| && init[i] == x;
        assert ks[i] == x;
      }
      UrlFormIsJoin(init, m, bools, esc, field);
      var fs := UrlFields(ks, m, bools, esc);
      var parts := fs + [last];
      FieldsSnoc(ks, m, bools, esc);
      assert parts[..|parts| - 1] == fs && parts[|parts| - 1] == last;
      var before := Entries(Form(esc), m, bools, init);
      assert Join(parts, '&') == (Join(fs, '&') + amp) + last;
      assert Join(fs, '&') == before + field;
      assert Entries(Form(esc), m, bools, ks) == before + e;
      AppendStep(before, field, amp, e);
      assert Entries(Form(esc), m, bools, ks) + last == Join(parts, '&');
    }
  }


  /** What the form body needs from `url.QueryEscape`: its output has no
      `&` and no `=`, it leaves `alert_name` as it is and gives no other
      key that text. */
  ghost predicate EscapesSeparators(esc: Bytes -> Bytes)
  {
    (forall s :: '&' !in esc(s) && '=' !in esc(s))
    && esc(AlertField) == AlertField
    && (forall s :: esc(s) == AlertField ==> s == AlertField)
  }

  /** The fields of keys other than `alert_name` all diverge from the key the
      sniffer looks for. */
  lemma FieldsDiverge(ks: seq<Bytes>, m: map<Bytes, Bytes>, bools: seq<map<Bytes, bool>>, esc: Bytes -> Bytes)
    requires EscapesSeparators(esc) && AlertField !in ks
    ensures forall x :: x in UrlFields(ks, m, bools, esc) ==> Sniffer.Diverges(x, Sniffer.AlertKey)
  {
    assert Sniffer.AlertKey[..|Sniffer.AlertKey| - 1] == AlertField;
    var fs := UrlFields(ks, m, bools, esc);
    forall x | x in fs
      ensures Sniffer.Diverges(x, Sniffer.AlertKey)
    {
      var i :| 0 <= i < |fs| && fs[i] == x;
      Sniffer.FormFieldDiverges(esc(ks[i]), UrlFieldValue(ks[i], m, bools, esc));
      assert x == esc(ks[i]) + "=" + UrlFieldValue(ks[i], m, bools, esc);
    }
  }

  /** No field of the form body holds a `&`. */
  lemma FieldsNoAmpersand(ks: seq<Bytes>, m: map<Bytes, Bytes>, bools: seq<map<Bytes, bool>>, esc: Bytes -> Bytes)
    requires EscapesSeparators(esc)
    ensures forall x :: x in UrlFields(ks, m, bools, esc) ==> '&' !in x
  {
  }

  /** The signature field neither holds a `&` nor starts like `alert_name=`. */
  lemma SignatureFieldSafe(esc: Bytes -> Bytes, sig: Bytes)
    requires EscapesSeparators(esc)
    ensures '&' !in SignatureField(esc, sig)
    ensures Sniffer.Diverges(SignatureField(esc, sig), Sniffer.AlertKey)
  {
    assert Sniffer.AlertKey[..|Sniffer.AlertKey| - 1] == AlertField;
    Sniffer.FormFieldDiverges(PSignature, esc(sig));
  }

  /** The field of `alert_name` is the sniffer's key followed by the escaped
      value. */
  lemma AlertFieldShape(m: map<Bytes, Bytes>, bools: seq<map<Bytes, bool>>, esc: Bytes -> Bytes)
    requires EscapesSeparators(esc) && AlertField in m
    ensures UrlField(AlertField, m, bools, esc) == Sniffer.AlertKey + esc(m[AlertField])
  {
    assert Sniffer.AlertKey == AlertField + "=";
  }

  /** A string occurring once in a sequence sits at one index, with no
      other copy before or after it. */
  lemma OnceAt(ks: seq<Bytes>, k: Bytes) returns (i: nat)
    requires multiset(ks)[k] == 1
    ensures i < |ks| && ks[i] == k && k !in ks[..i] && k !in ks[i + 1..]
  {
    assert k in multiset(ks);
    i :| 0 <= i < |ks| && ks[i] == k;
    assert ks == ks[..i] + [k] + ks[i + 1..];
    assert multiset(ks) == multiset(ks[..i]) + multiset{k} + multiset(ks[i + 1..]);
    assert multiset(ks[..i])[k] == 0 && multiset(ks[i + 1..])[k] == 0;
  }

  /** The fields of a key sequence, cut around one key. */
  lemma FieldsAround(ks: seq<Bytes>, i: nat, m: map<Bytes, Bytes>, bools: seq<map<Bytes, bool>>, esc: Bytes -> Bytes)
    requires i < |ks|
    ensures UrlFields(ks, m, bools, esc)
         == UrlFields(ks[..i], m, bools, esc) + [UrlFields(ks, m, bools, esc)[i]] + UrlFields(ks[i + 1..], m, bools, esc)
  {
    var fs := UrlFields(ks, m, bools, esc);
    var pre := UrlFields(ks[..i], m, bools, esc);
    var post := UrlFields(ks[i + 1..], m, bools, esc);
    var r := pre + [fs[i]] + post;
    forall j | 0 <= j < |fs|
      ensures r[j] == fs[j]
    {
      if j < i {
        assert ks[..i][j] == ks[j];
      } else if j > i {
        assert ks[i + 1..][j - i - 1] == ks[j];
      }
    }
  }


  /** The form body as the fields before one key, that key's field, and the
      fields after it with the signature field last. */
  lemma FormAround(ks: seq<Bytes>, i: nat, m: map<Bytes, Bytes>, bools: seq<map<Bytes, bool>>, esc: Bytes -> Bytes, sig: Bytes)
    requires i < |ks|
    requires forall k :: k in ks ==> k in m || BoolValue(k, bools).Some?
    ensures UrlForm(ks, m, bools, esc, sig)
         == Join(UrlFields(ks[..i], m, bools, esc) + [UrlFields(ks, m, bools, esc)[i]]
                 + (UrlFields(ks[i + 1..], m, bools, esc) + [SignatureField(esc, sig)]), '&')
  {
    var sf := SignatureField(esc, sig);
    var fs := UrlFields(ks, m, bools, esc);
    var pre := UrlFields(ks[..i], m, bools, esc) + [fs[i]];
    var post := UrlFields(ks[i + 1..], m, bools, esc);
    UrlFormIsJoin(ks, m, bools, esc, sf);
    FieldsAround(ks, i, m, bools, esc);
    PartsAssoc(pre, post, [sf]);
  }

  lemma NoSepOfMembers(parts: seq<Bytes>, sep: Byte)
    requires forall x :: x in parts ==> sep !in x
    ensures NoSep(parts, sep)
  {
    forall j | 0 <= j < |parts|
      ensures sep !in parts[j]
    {
      assert parts[j] in parts;
    }
  }

  lemma PartsAssoc(a: seq<Bytes>, b: seq<Bytes>, c: seq<Bytes>)
    ensures (a + b) + c == a + (b + c)
  {
  }

  /** A form body whose keys all have a value, with `alert_name` among
      them exactly once, names the escaped value of that key. */
  lemma FormNamesEvent(ks: seq<Bytes>, m: map<Bytes, Bytes>, bools: seq<map<Bytes, bool>>, esc: Bytes -> Bytes, sig: Bytes)
    requires EscapesSeparators(esc) && AlertField in m
    requires forall k :: k in ks ==> k in m || BoolValue(k, bools).Some?
    requires multiset(ks)[AlertField] == 1
    ensures Sniffer.Sniff(UrlForm(ks, m, bools, esc, sig), Sniffer.CheckThenRead) == Sniffer.Name(esc(m[AlertField]))
  {
    var i := OnceAt(ks, AlertField);
    var xs := UrlFields(ks[..i], m, bools, esc);
    var ys := UrlFields(ks[i + 1..], m, bools, esc) + [SignatureField(esc, sig)];
    FormAround(ks, i, m, bools, esc, sig);
    AlertFieldShape(m, bools, esc);
    FieldsDiverge(ks[..i], m, bools, esc);
    FieldsDiverge(ks[i + 1..], m, bools, esc);
    SignatureFieldSafe(esc, sig);
    FieldsNoAmpersand(ks, m, bools, esc);
    FieldsNoAmpersand(ks[..i], m, bools, esc);
    FieldsNoAmpersand(ks[i + 1..], m, bools, esc);
    var a := Sniffer.AlertKey + esc(m[AlertField]);
    assert a == UrlFields(ks, m, bools, esc)[i];
    var parts := xs + [a] + ys;
    forall x | x in xs + ys
      ensures Sniffer.Diverges(x, Sniffer.AlertKey)
    {
    }
    forall x | x in parts
      ensures '&' !in x
    {
    }
    NoSepOfMembers(parts, '&');
    Sniffer.SniffSingleKey(xs, esc(m[AlertField]), ys, Sniffer.CheckThenRead);
  }

  /** The form body `Sign` produces names the event of its `alert_name`
      string field, as the corrected sniffer reads it, provided no boolean
      map also has that key. */
  lemma SignedFormNamesEvent(m: map<Bytes, Bytes>, bools: seq<map<Bytes, bool>>, esc: Bytes -> Bytes, sig: Bytes)
    requires EscapesSeparators(esc)
    requires AlertField in m && forall i :: 0 <= i < |bools| ==> AlertField !in bools[i]
    ensures Sniffer.Sniff(UrlForm(SignKeys(m, bools), m, bools, esc, sig), Sniffer.CheckThenRead)
         == Sniffer.Name(esc(m[AlertField]))
  {
    var ks := SignKeys(m, bools);
    BoolKeysAbsent(bools, AlertField);
    assert multiset(ks)[AlertField] == 1;
    forall k | k in ks
      ensures k in m || BoolValue(k, bools).Some?
    {
      assert k in multiset(ks);
      KeyBagMembers(m, bools, k);
    }
    FormNamesEvent(ks, m, bools, esc, sig);
  }



  /** End to end: the middleware decodes the form body `Sign` produces as
      the kind its `alert_name` field names. */
  lemma SignedFormDispatch(m: map<Bytes, Bytes>, bools: seq<map<Bytes, bool>>, esc: Bytes -> Bytes, sig: Bytes,
                           k: Kind, contentType: Bytes, decode: FormDecoder)
    requires EscapesSeparators(esc)
    requires AlertField in m && forall i :: 0 <= i < |bools| ==> AlertField !in bools[i]
    requires esc(m[AlertField]) == AlertName(k)
    requires Middleware.ApplicationForm <= contentType
    ensures var body := UrlForm(SignKeys(m, bools), m, bools, esc, sig);
      Middleware.ReadEvent(contentType, Reader(body, None), decode) == decode(k, body)
  {
    SignedFormNamesEvent(m, bools, esc, sig);
    KindOfAlertName(k);
  }

  /** The count in the canonical header is the number of keys over all the
      maps: a key present in two maps is counted, and written, twice. */
  lemma KeyCount(m: map<Bytes, Bytes>, bools: seq<map<Bytes, bool>>)
    ensures |SignKeys(m, bools)| == |m.Keys| + BoolCount(bools)
  {
    BoolKeysCount(bools);
  }

  function BoolCount(bools: seq<map<Bytes, bool>>): nat
  {
    if bools == [] then 0 else |bools[0].Keys| + BoolCount(bools[1..])
  }

  lemma {:induction false} BoolKeysCount(bools: seq<map<Bytes, bool>>)
    ensures |BoolKeys(bools)| == BoolCount(bools)
    decreases |bools|
  {
    if bools != [] {
      BoolKeysCount(bools[1..]);
    }
  }
}
