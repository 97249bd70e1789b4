/**
 * The SMS client (`class Alidayu` of index.js): option defaulting in the
 * constructor, the parameter merge and signing of `_sendMessage`, and the
 * field renaming and response classification of `sms`.
 *
 * The HTTP round trip, `JSON.stringify`, HMAC-SHA1, `Math.random()` and the
 * clock are parameters: `post`, `stringify`, `hmac`, `nonce`, `timestamp`.
 */
module DySms {
  import opened Wrappers
  import opened JsStrings
  import opened KeyOrder
  import opened UriComponent
  import opened Signer

  // Property names the client reads or writes.
  const ACCESS_KEY_ID: JsString := Lit("AccessKeyId")
  const ACCESS_KEY_SECRET: JsString := Lit("AccessKeySecret")
  const FORMAT: JsString := Lit("Format")
  const SIGNATURE_METHOD: JsString := Lit("SignatureMethod")
  const SIGNATURE_VERSION: JsString := Lit("SignatureVersion")
  const ACTION: JsString := Lit("Action")
  const VERSION: JsString := Lit("Version")
  const REGION_ID: JsString := Lit("RegionId")
  const SIGNATURE_NONCE: JsString := Lit("SignatureNonce")
  const TIMESTAMP: JsString := Lit("Timestamp")
  const SIGNATURE: JsString := Lit("Signature")
  const PHONE_NUMBERS: JsString := Lit("PhoneNumbers")
  const SIGN_NAME: JsString := Lit("SignName")
  const TEMPLATE_CODE: JsString := Lit("TemplateCode")
  const TEMPLATE_PARAM: JsString := Lit("TemplateParam")
  const PHONE: JsString := Lit("phone")
  const SIGN: JsString := Lit("sign")
  const TEMPLATE: JsString := Lit("template")
  const PARAMS: JsString := Lit("params")
  const MESSAGE: JsString := Lit("Message")

  /**
   * Lengths and first letters, enough to tell the property names apart
   * (`Format`/`Action`, `Timestamp`/`Signature`, `PhoneNumbers`/`TemplateCode`, ...).
   */
  lemma NamesDistinct()
    ensures |ACCESS_KEY_ID| == 11 && ACCESS_KEY_ID[0] == 0x41
    ensures |ACCESS_KEY_SECRET| == 15 && ACCESS_KEY_SECRET[0] == 0x41
    ensures |FORMAT| == 6 && FORMAT[0] == 0x46
    ensures |SIGNATURE_METHOD| == 15 && SIGNATURE_METHOD[0] == 0x53
    ensures |SIGNATURE_VERSION| == 16 && SIGNATURE_VERSION[0] == 0x53
    ensures |ACTION| == 6 && ACTION[0] == 0x41
    ensures |VERSION| == 7 && VERSION[0] == 0x56
    ensures |REGION_ID| == 8 && REGION_ID[0] == 0x52
    ensures |SIGNATURE_NONCE| == 14 && SIGNATURE_NONCE[0] == 0x53
    ensures |TIMESTAMP| == 9 && TIMESTAMP[0] == 0x54
    ensures |SIGNATURE| == 9 && SIGNATURE[0] == 0x53
    ensures |PHONE_NUMBERS| == 12 && PHONE_NUMBERS[0] == 0x50
    ensures |SIGN_NAME| == 8 && SIGN_NAME[0] == 0x53
    ensures |TEMPLATE_CODE| == 12 && TEMPLATE_CODE[0] == 0x54
    ensures |TEMPLATE_PARAM| == 13 && TEMPLATE_PARAM[0] == 0x54
  {
  }

  /** The object literal the constructor's options are merged onto. */
  const DEFAULTS: map<JsString, Value> := map[
    ACCESS_KEY_ID := Str(Lit("***")),
    ACCESS_KEY_SECRET := Str(Lit("***")),
    FORMAT := Str(Lit("JSON")),
    SIGNATURE_METHOD := Str(Lit("HMAC-SHA1")),
    SIGNATURE_VERSION := Str(Lit("1.0")),
    ACTION := Str(Lit("SendSms")),
    VERSION := Str(Lit("2017-05-25")),
    REGION_ID := Str(Lit("cn-hangzhou"))
  ]

  /** `typeof o[k] === 'string'` */
  predicate IsString(o: map<JsString, Value>, k: JsString)
  {
    k in o && o[k].Str?
  }

  // ---------------------------------------------------------------------
  // Construction

  /** The two `assert`s of the constructor, in the order they run. */
  datatype ConfigError = AccessKeyIdNotString | AccessKeySecretNotString

  /**
   * What the constructor stores in `this.options`, or the assertion it
   * fails: both credentials must be strings, and then every supplied option
   * overrides the default of the same name.
   */
  function Configure(options: map<JsString, Value>): (r: Result<map<JsString, Value>, ConfigError>)
    ensures !IsString(options, ACCESS_KEY_ID) ==> r == Err(AccessKeyIdNotString)
    ensures IsString(options, ACCESS_KEY_ID) && !IsString(options, ACCESS_KEY_SECRET) ==>
      r == Err(AccessKeySecretNotString)
    ensures r.Ok? <==> IsString(options, ACCESS_KEY_ID) && IsString(options, ACCESS_KEY_SECRET)
    ensures r.Ok? ==> r.value.Keys == DEFAULTS.Keys + options.Keys
    ensures r.Ok? ==> forall k :: k in options ==> r.value[k] == options[k]
    ensures r.Ok? ==> forall k :: k in DEFAULTS && k !in options ==> r.value[k] == DEFAULTS[k]
  {
    if !IsString(options, ACCESS_KEY_ID) then Err(AccessKeyIdNotString)
    else if !IsString(options, ACCESS_KEY_SECRET) then Err(AccessKeySecretNotString)
    else Ok(DEFAULTS + options)
  }

  /**
   * A configured client always carries the caller's credentials (so the
   * `***` placeholders never survive) and, for each protocol option the
   * caller left out, its literal default.
   */
  lemma ConfiguredOptions(options: map<JsString, Value>)
    requires Configure(options).Ok?
    ensures var o := Configure(options).value;
      o[ACCESS_KEY_ID] == options[ACCESS_KEY_ID] && o[ACCESS_KEY_SECRET] == options[ACCESS_KEY_SECRET] &&
      o[FORMAT] == (if FORMAT in options then options[FORMAT] else Str(Lit("JSON"))) &&
      o[SIGNATURE_METHOD] == (if SIGNATURE_METHOD in options then options[SIGNATURE_METHOD] else Str(Lit("HMAC-SHA1"))) &&
      o[SIGNATURE_VERSION] == (if SIGNATURE_VERSION in options then options[SIGNATURE_VERSION] else Str(Lit("1.0"))) &&
      o[ACTION] == (if ACTION in options then options[ACTION] else Str(Lit("SendSms"))) &&
      o[VERSION] == (if VERSION in options then options[VERSION] else Str(Lit("2017-05-25"))) &&
      o[REGION_ID] == (if REGION_ID in options then options[REGION_ID] else Str(Lit("cn-hangzhou")))
  {
    NamesDistinct();
  }

  // ---------------------------------------------------------------------
  // The parameters of one request

  /**
   * `Object.assign(params, this.options, {SignatureNonce, Timestamp})`
   * followed by `delete _param.AccessKeySecret`: later sources win, and the
   * secret is gone.
   */
  function Assemble(business: map<JsString, Value>, options: map<JsString, Value>,
                    nonce: JsString, timestamp: JsString): (r: map<JsString, Value>)
    ensures r.Keys == business.Keys + options.Keys + {SIGNATURE_NONCE, TIMESTAMP} - {ACCESS_KEY_SECRET}
    ensures ACCESS_KEY_SECRET !in r
    ensures r[SIGNATURE_NONCE] == Str(nonce) && r[TIMESTAMP] == Str(timestamp)
    ensures forall k :: k in options && k !in {ACCESS_KEY_SECRET, SIGNATURE_NONCE, TIMESTAMP} ==>
      r[k] == options[k]
    ensures forall k :: k in business && k !in options && k !in {ACCESS_KEY_SECRET, SIGNATURE_NONCE, TIMESTAMP} ==>
      r[k] == business[k]
  {
    NamesDistinct();
    (business + options + map[SIGNATURE_NONCE := Str(nonce), TIMESTAMP := Str(timestamp)]) - {ACCESS_KEY_SECRET}
  }

  /** `_param.Signature = this._signParameters(_param, secret)`: the map signed, plus its signature. */
  function Signed(assembled: map<JsString, Value>, secret: JsString, hmac: Hmac): Result<map<JsString, Value>, UriError>
  {
    var signature :- Signature(assembled, secret, hmac);
    Ok(assembled[SIGNATURE := Str(signature)])
  }

  /**
   * Signing fails exactly when a key or value of the assembled map holds a
   * lone surrogate; otherwise the request is the assembled map with the one
   * key `Signature` set to what was computed over the assembled map itself.
   */
  lemma SignedLayout(assembled: map<JsString, Value>, secret: JsString, hmac: Hmac)
    ensures Signed(assembled, secret, hmac).Ok? <==> Encodable(assembled)
    ensures Signed(assembled, secret, hmac).Ok? ==>
      var form := Signed(assembled, secret, hmac).value;
      form.Keys == assembled.Keys + {SIGNATURE} &&
      (forall k :: k in assembled && k != SIGNATURE ==> form[k] == assembled[k]) &&
      form[SIGNATURE] == Str(Signature(assembled, secret, hmac).value)
  {
    SignedOkIff(assembled, secret, hmac);
    SignatureLayout(assembled, secret, hmac);
  }

  /**
   * Which value the request carries for each key: the fresh signature,
   * nonce and timestamp first; then the stored options; then the business
   * parameters; the secret never.
   */
  lemma {:induction false} RequestFields(business: map<JsString, Value>, options: map<JsString, Value>,
                                         nonce: JsString, timestamp: JsString, secret: JsString, hmac: Hmac)
    requires Encodable(Assemble(business, options, nonce, timestamp))
    ensures var assembled := Assemble(business, options, nonce, timestamp);
      Signed(assembled, secret, hmac).Ok? &&
      var form := Signed(assembled, secret, hmac).value;
      form.Keys == business.Keys + options.Keys + {SIGNATURE_NONCE, TIMESTAMP, SIGNATURE} - {ACCESS_KEY_SECRET} &&
      ACCESS_KEY_SECRET !in form &&
      form[SIGNATURE] == Str(Signature(assembled, secret, hmac).value) &&
      form[SIGNATURE_NONCE] == Str(nonce) && form[TIMESTAMP] == Str(timestamp) &&
      (forall k :: k in options && k !in {ACCESS_KEY_SECRET, SIGNATURE_NONCE, TIMESTAMP, SIGNATURE} ==>
         form[k] == options[k]) &&
      (forall k :: k in business && k !in options && k !in {ACCESS_KEY_SECRET, SIGNATURE_NONCE, TIMESTAMP, SIGNATURE} ==>
         form[k] == business[k])
  {
    var assembled := Assemble(business, options, nonce, timestamp);
    SignedOkIff(assembled, secret, hmac);
    SignedValue(assembled, secret, hmac);
    StampedFields(business, options, nonce, timestamp, Signature(assembled, secret, hmac).value);
  }

  lemma SignedValue(assembled: map<JsString, Value>, secret: JsString, hmac: Hmac)
    requires Signed(assembled, secret, hmac).Ok?
    ensures Signature(assembled, secret, hmac).Ok?
    ensures Signed(assembled, secret, hmac).value == assembled[SIGNATURE := Str(Signature(assembled, secret, hmac).value)]
  {
  }

  /** The assembled map with some signature added. */
  lemma StampedFields(business: map<JsString, Value>, options: map<JsString, Value>,
                      nonce: JsString, timestamp: JsString, signature: JsString)
    ensures var form := Assemble(business, options, nonce, timestamp)[SIGNATURE := Str(signature)];
      form.Keys == business.Keys + options.Keys + {SIGNATURE_NONCE, TIMESTAMP, SIGNATURE} - {ACCESS_KEY_SECRET} &&
      ACCESS_KEY_SECRET !in form &&
      form[SIGNATURE] == Str(signature) &&
      form[SIGNATURE_NONCE] == Str(nonce) && form[TIMESTAMP] == Str(timestamp) &&
      (forall k :: k in options && k !in {ACCESS_KEY_SECRET, SIGNATURE_NONCE, TIMESTAMP, SIGNATURE} ==>
         form[k] == options[k]) &&
      (forall k :: k in business && k !in options && k !in {ACCESS_KEY_SECRET, SIGNATURE_NONCE, TIMESTAMP, SIGNATURE} ==>
         form[k] == business[k])
  {
    NamesDistinct();
  }

  /**
   * The signed input holds no `AccessKeySecret`, and holds no `Signature`
   * unless the business parameters or the stored options supplied one.
   */
  lemma SignedInputExcludesSecret(business: map<JsString, Value>, options: map<JsString, Value>,
                                  nonce: JsString, timestamp: JsString)
    ensures ACCESS_KEY_SECRET !in Assemble(business, options, nonce, timestamp)
    ensures SIGNATURE in Assemble(business, options, nonce, timestamp) <==> SIGNATURE in business || SIGNATURE in options
  {
    NamesDistinct();
  }

  // ---------------------------------------------------------------------
  // sms

  /** `JSON.stringify`, a parameter of the model. */
  type Stringify = Value -> JsString

  /**
   * The business parameters `sms` builds from its `option` argument:
   * `PhoneNumbers`, `SignName` and `TemplateCode` always (a missing field
   * reads as `undefined`), `TemplateParam` only when `option.params` is
   * truthy.
   */
  function SmsParams(option: map<JsString, Value>, stringify: Stringify): (r: map<JsString, Value>)
    ensures r.Keys == {PHONE_NUMBERS, SIGN_NAME, TEMPLATE_CODE} +
      (if Truthy(Get(option, PARAMS)) then {TEMPLATE_PARAM} else {})
    ensures r[PHONE_NUMBERS] == Get(option, PHONE)
    ensures r[SIGN_NAME] == Get(option, SIGN)
    ensures r[TEMPLATE_CODE] == Get(option, TEMPLATE)
    ensures TEMPLATE_PARAM in r ==> r[TEMPLATE_PARAM] == Str(stringify(Get(option, PARAMS)))
  {
    NamesDistinct();
    map[PHONE_NUMBERS := Get(option, PHONE), SIGN_NAME := Get(option, SIGN), TEMPLATE_CODE := Get(option, TEMPLATE)]
    + (if Truthy(Get(option, PARAMS)) then map[TEMPLATE_PARAM := Str(stringify(Get(option, PARAMS)))] else map[])
  }

  /** `SmsParams` as `sms` builds it: the three renamed fields, then `TemplateParam` when it applies. */
  lemma SmsParamsBuilt(option: map<JsString, Value>, stringify: Stringify)
    ensures var base := map[PHONE_NUMBERS := Get(option, PHONE), SIGN_NAME := Get(option, SIGN),
                            TEMPLATE_CODE := Get(option, TEMPLATE)];
      SmsParams(option, stringify) ==
        if Truthy(Get(option, PARAMS)) then base[TEMPLATE_PARAM := Str(stringify(Get(option, PARAMS)))] else base
  {
  }

  /** An error `request` reports; opaque to the client. */
  datatype TransportFault = TransportFault(description: JsString)

  /** What `JSON.parse(data)` gives: a syntax error, `null`, or an object with its top-level fields. */
  datatype Body = Unparseable | JsonNull | JsonObject(fields: map<JsString, Value>)

  /** What `request.post` hands its callback. */
  datatype HttpOutcome = TransportFailed(fault: TransportFault, raw: Value) | Received(body: Body)

  /** The HTTP round trip for a request's form parameters, a parameter of the model. */
  type Transport = map<JsString, Value> -> HttpOutcome

  datatype SmsError = TransportError(fault: TransportFault) | ServiceError(message: JsString)

  datatype Payload = Raw(raw: Value) | Parsed(fields: map<JsString, Value>)

  /**
   * How a call to `sms` ends: the callback receives `(err, data)`; or an
   * exception escapes the response handler (the callback is never called);
   * or signing throws before anything is sent.
   */
  datatype Completion = Settled(err: Option<SmsError>, data: Payload) | ThrownInHandler | Thrown(error: UriError)

  /** `json.Message === 'OK'` */
  predicate IsOk(fields: map<JsString, Value>)
  {
    MESSAGE in fields && fields[MESSAGE] == Str(Lit("OK"))
  }

  /** `new Error(m).message` */
  function ErrorMessage(m: Value): JsString
  {
    if m == Undefined then [] else ToStr(m)
  }

  /** The response handler of `sms`. */
  function Classify(h: HttpOutcome): (c: Completion)
    ensures h.TransportFailed? ==> c == Settled(Some(TransportError(h.fault)), Raw(h.raw))
    ensures h.Received? && h.body.JsonObject? ==>
      c.Settled? && c.data == Parsed(h.body.fields) &&
      (c.err.None? <==> IsOk(h.body.fields)) &&
      (c.err.Some? ==> c.err.value == ServiceError(ErrorMessage(Get(h.body.fields, MESSAGE))))
    ensures h.Received? && !h.body.JsonObject? ==> c == ThrownInHandler
  {
    match h
    case TransportFailed(fault, raw) => Settled(Some(TransportError(fault)), Raw(raw))
    case Received(Unparseable) => ThrownInHandler
    case Received(JsonNull) => ThrownInHandler
    case Received(JsonObject(fields)) =>
      if Get(fields, MESSAGE) == Str(Lit("OK")) then Settled(None, Parsed(fields))
      else Settled(Some(ServiceError(ErrorMessage(Get(fields, MESSAGE)))), Parsed(fields))
  }

  /** The whole of `sms` on a client whose options are `options`. */
  function SmsOutcome(options: map<JsString, Value>, option: map<JsString, Value>, stringify: Stringify,
                      nonce: JsString, timestamp: JsString, hmac: Hmac, post: Transport): Completion
    requires IsString(options, ACCESS_KEY_SECRET)
  {
    Completed(Signed(Assemble(SmsParams(option, stringify), options, nonce, timestamp), options[ACCESS_KEY_SECRET].s, hmac), post)
  }

  /** A request that signing threw on, or the handler's verdict on the response to it. */
  function Completed(sent: Result<map<JsString, Value>, UriError>, post: Transport): (c: Completion)
    ensures c.Thrown? <==> sent.Err?
    ensures sent.Ok? ==> c == Classify(post(sent.value))
  {
    match sent
    case Err(e) => Thrown(e)
    case Ok(form) => Classify(post(form))
  }

  /**
   * What `sms` sends: the renamed fields unless a stored option of the same
   * name overrides them, the stored options, the fresh nonce and timestamp,
   * the signature, and never the secret.  It throws exactly when a key or
   * value holds a lone surrogate.
   */
  lemma SmsRequest(options: map<JsString, Value>, option: map<JsString, Value>, stringify: Stringify,
                   nonce: JsString, timestamp: JsString, hmac: Hmac, post: Transport)
    requires IsString(options, ACCESS_KEY_SECRET)
    ensures var business := SmsParams(option, stringify);
      var assembled := Assemble(business, options, nonce, timestamp);
      var secret := options[ACCESS_KEY_SECRET].s;
      (SmsOutcome(options, option, stringify, nonce, timestamp, hmac, post).Thrown? <==> !Encodable(assembled)) &&
      (Encodable(assembled) ==>
        var form := Signed(assembled, secret, hmac).value;
        SmsOutcome(options, option, stringify, nonce, timestamp, hmac, post) == Classify(post(form)) &&
        ACCESS_KEY_SECRET !in form &&
        (SIGNATURE !in options ==> SIGNATURE !in assembled) &&
        form[SIGNATURE] == Str(Signature(assembled, secret, hmac).value) &&
        form[PHONE_NUMBERS] == Get(if PHONE_NUMBERS in options then options else option,
                                   if PHONE_NUMBERS in options then PHONE_NUMBERS else PHONE) &&
        form[SIGN_NAME] == Get(if SIGN_NAME in options then options else option,
                               if SIGN_NAME in options then SIGN_NAME else SIGN) &&
        form[TEMPLATE_CODE] == Get(if TEMPLATE_CODE in options then options else option,
                                   if TEMPLATE_CODE in options then TEMPLATE_CODE else TEMPLATE) &&
        (TEMPLATE_PARAM in form <==> TEMPLATE_PARAM in options || Truthy(Get(option, PARAMS))) &&
        (TEMPLATE_PARAM in form ==>
           form[TEMPLATE_PARAM] == if TEMPLATE_PARAM in options then options[TEMPLATE_PARAM]
                                   else Str(stringify(Get(option, PARAMS)))))
  {
    var business := SmsParams(option, stringify);
    var assembled := Assemble(business, options, nonce, timestamp);
    var secret := options[ACCESS_KEY_SECRET].s;
    SmsThrowsIff(options, option, stringify, nonce, timestamp, hmac, post);
    if Encodable(assembled) {
      SignedValue(assembled, secret, hmac);
      SmsFormFields(options, option, stringify, nonce, timestamp, Signature(assembled, secret, hmac).value);
    }
  }

  lemma SmsThrowsIff(options: map<JsString, Value>, option: map<JsString, Value>, stringify: Stringify,
                     nonce: JsString, timestamp: JsString, hmac: Hmac, post: Transport)
    requires IsString(options, ACCESS_KEY_SECRET)
    ensures var assembled := Assemble(SmsParams(option, stringify), options, nonce, timestamp);
      var outcome := SmsOutcome(options, option, stringify, nonce, timestamp, hmac, post);
      (outcome.Thrown? <==> !Encodable(assembled)) &&
      (Encodable(assembled) ==> outcome == Classify(post(Signed(assembled, options[ACCESS_KEY_SECRET].s, hmac).value)))
  {
    var assembled := Assemble(SmsParams(option, stringify), options, nonce, timestamp);
    var secret := options[ACCESS_KEY_SECRET].s;
    var outcome := SmsOutcome(options, option, stringify, nonce, timestamp, hmac, post);
    SignedOkIff(assembled, secret, hmac);
  }

  lemma SignedOkIff(assembled: map<JsString, Value>, secret: JsString, hmac: Hmac)
    ensures Signed(assembled, secret, hmac).Ok? <==> Encodable(assembled)
  {
    SignatureLayout(assembled, secret, hmac);
  }

  /**
   * The renamed fields in the assembled map, with some signature added:
   * each comes from the stored option of the same name when there is one,
   * and otherwise from the field of `option` it was renamed from.
   */
  lemma SmsFormFields(options: map<JsString, Value>, option: map<JsString, Value>, stringify: Stringify,
                      nonce: JsString, timestamp: JsString, signature: JsString)
    ensures var assembled := Assemble(SmsParams(option, stringify), options, nonce, timestamp);
      var form := assembled[SIGNATURE := Str(signature)];
      ACCESS_KEY_SECRET !in form &&
      (SIGNATURE !in options ==> SIGNATURE !in assembled) &&
      form[SIGNATURE] == Str(signature) &&
      form[PHONE_NUMBERS] == Get(if PHONE_NUMBERS in options then options else option,
                                 if PHONE_NUMBERS in options then PHONE_NUMBERS else PHONE) &&
      form[SIGN_NAME] == Get(if SIGN_NAME in options then options else option,
                             if SIGN_NAME in options then SIGN_NAME else SIGN) &&
      form[TEMPLATE_CODE] == Get(if TEMPLATE_CODE in options then options else option,
                                 if TEMPLATE_CODE in options then TEMPLATE_CODE else TEMPLATE) &&
      (TEMPLATE_PARAM in form <==> TEMPLATE_PARAM in options || Truthy(Get(option, PARAMS))) &&
      (TEMPLATE_PARAM in form ==>
         form[TEMPLATE_PARAM] == if TEMPLATE_PARAM in options then options[TEMPLATE_PARAM]
                                 else Str(stringify(Get(option, PARAMS))))
  {
    NamesDistinct();
    var business := SmsParams(option, stringify);
    StampedField(business, options, nonce, timestamp, signature, PHONE_NUMBERS);
    StampedField(business, options, nonce, timestamp, signature, SIGN_NAME);
    StampedField(business, options, nonce, timestamp, signature, TEMPLATE_CODE);
    StampedField(business, options, nonce, timestamp, signature, TEMPLATE_PARAM);
  }

  /** A key the client never sets itself comes from the stored options if there, else from the business parameters. */
  lemma StampedField(business: map<JsString, Value>, options: map<JsString, Value>,
                     nonce: JsString, timestamp: JsString, signature: JsString, key: JsString)
    requires key !in {ACCESS_KEY_SECRET, SIGNATURE_NONCE, TIMESTAMP, SIGNATURE}
    ensures var form := Assemble(business, options, nonce, timestamp)[SIGNATURE := Str(signature)];
      (key in form <==> key in options || key in business) &&
      (key in form ==> form[key] == if key in options then options[key] else business[key])
  {
  }

  // ---------------------------------------------------------------------
  // The objects

  /** A plain JavaScript object whose properties are updated in place. */
  class JsObject {
    var props: map<JsString, Value>

    constructor (init: map<JsString, Value>)
      ensures props == init
    {
      props := init;
    }
  }

  class Alidayu {
    /** `this.options`: set by the constructor, never changed afterwards. */
    const options: map<JsString, Value>

    ghost predicate Valid()
    {
      IsString(options, ACCESS_KEY_ID) && IsString(options, ACCESS_KEY_SECRET)
    }

    /** Succeeds on the options for which `Configure` does; on the others the source throws. */
    constructor (opts: map<JsString, Value>)
      requires Configure(opts).Ok?
      ensures options == Configure(opts).value
      ensures Valid()
    {
      options := Configure(opts).value;
    }

    /** `this.options.AccessKeySecret` */
    function Secret(): JsString
      requires Valid()
    {
      options[ACCESS_KEY_SECRET].s
    }

    /** `_signParameters(param, secret)` */
    method SignParameters(param: map<JsString, Value>, secret: JsString, hmac: Hmac)
      returns (r: Result<JsString, UriError>)
      ensures r == Signature(param, secret, hmac)
    {
      var keys := SortedKeys(param.Keys);
      var data: seq<JsString> := [];
      var i := 0;
      while i < |keys|
        invariant 0 <= i <= |keys|
        invariant EncodedPairs(param, keys[..i]) == Ok(data)
      {
        var k := Encode(keys[i]);
        var v := Encode(ToStr(param[keys[i]]));
        if k.Err? || v.Err? {
          // encodeURIComponent throws, and with it the whole signing
          SignatureFailsAt(param, secret, hmac, keys[i]);
          return Err(UriError);
        }
        EncodedPairsStep(param, keys, i, data);
        data := data + [k.value + [EQUALS] + v.value];
        i := i + 1;
      }
      assert keys[..i] == keys;
      SignatureOfPairs(param, secret, hmac, data);
      var text :- StringToSign(Join(data, AMP));
      r := Ok(hmac(secret + [AMP], text));
    }

    /**
     * `_sendMessage(params, callback)`: merges into the caller's object in
     * place, deletes the secret, signs, adds the signature and posts.  When
     * signing throws, the object keeps the merge and the deletion.
     */
    method SendMessage(params: JsObject, nonce: JsString, timestamp: JsString, hmac: Hmac, post: Transport)
      returns (r: Result<HttpOutcome, UriError>)
      requires Valid()
      modifies params
      ensures var assembled := Assemble(old(params.props), options, nonce, timestamp);
        match Signed(assembled, Secret(), hmac)
        case Err(e) => params.props == assembled && r == Err(e)
        case Ok(form) => params.props == form && r == Ok(post(form))
    {
      params.props := params.props + options + map[SIGNATURE_NONCE := Str(nonce), TIMESTAMP := Str(timestamp)];
      params.props := params.props - {ACCESS_KEY_SECRET};
      var signature :- SignParameters(params.props, Secret(), hmac);
      params.props := params.props[SIGNATURE := Str(signature)];
      r := Ok(post(params.props));
    }

    /** `sms(option, callback)` */
    method Sms(option: map<JsString, Value>, stringify: Stringify,
               nonce: JsString, timestamp: JsString, hmac: Hmac, post: Transport)
      returns (c: Completion)
      requires Valid()
      ensures c == SmsOutcome(options, option, stringify, nonce, timestamp, hmac, post)
    {
      var o := new JsObject(map[PHONE_NUMBERS := Get(option, PHONE), SIGN_NAME := Get(option, SIGN),
                                TEMPLATE_CODE := Get(option, TEMPLATE)]);
      if Truthy(Get(option, PARAMS)) {
        o.props := o.props[TEMPLATE_PARAM := Str(stringify(Get(option, PARAMS)))];
      }
      SmsParamsBuilt(option, stringify);
      var sent := SendMessage(o, nonce, timestamp, hmac, post);
      ghost var signed := Signed(Assemble(SmsParams(option, stringify), options, nonce, timestamp), Secret(), hmac);
      assert SmsOutcome(options, option, stringify, nonce, timestamp, hmac, post) == Completed(signed, post);
      match sent
      case Err(e) => c := Thrown(e);
      case Ok(h) => c := Classify(h);
    }
  }
}
