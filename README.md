# node-dysms: a verified model of the Alidayu SMS client

`index.js` defines one class, `Alidayu`, the client for the Alibaba Cloud
SMS service. This project models the client's core in Dafny:

- the constructor, which merges the caller's options over literal defaults
  and requires string credentials;
- `_signParameters`, which builds the canonical query string (parameter
  keys sorted, each key and value run through `encodeURIComponent`, pairs
  `k=v` joined with `&`), then the string-to-sign
  `POST&%2F&<encoded canonical string>`, then a keyed hash of that under
  `secret + '&'`;
- the part of `_sendMessage` that merges the options and a fresh nonce and
  timestamp into the caller's object, deletes `AccessKeySecret`, and adds
  the `Signature`;
- `sms`, which renames the caller's fields to the service's names and sorts
  the response into three outcomes: transport error, success, and service
  error.

The files:

| file | module | contents |
|---|---|---|
| `wrappers.dfy` | `Wrappers` | `Option` and `Result`, usable with `:-` |
| `js_strings.dfy` | `JsStrings` | JavaScript strings as UTF-16 code units, property values, `String()`, truthiness, `<` on strings |
| `key_order.dfy` | `KeyOrder` | `Object.keys(param).sort()` as the ascending enumeration of a key set |
| `uri_component.dfy` | `UriComponent` | `encodeURIComponent` as in ECMAScript 2015 (sections 18.2.6.1.1 and 18.2.6.5), with a `decodeURIComponent`-style inverse |
| `signer.dfy` | `Signer` | canonical query string, string-to-sign, signature; a parser that splits the canonical string back into its pairs |
| `dysms.dfy` | `DySms` | option defaulting, request assembly, `sms` field renaming, response classification, and the classes `JsObject` and `Alidayu` |

A JavaScript string is a `seq` of 16-bit code units. This makes two things
exact:

- the order that `Array.prototype.sort` uses with no comparator, which is
  lexicographic on code units;
- the `URIError` that `encodeURIComponent` throws on a lone surrogate. The
  model carries this error through `_signParameters` and `_sendMessage`
  out of `sms`.

A property value is a string, `undefined`, or any other value. The other
values carry what `String(v)` gives for them and whether they are truthy.

`Alidayu.SignParameters`, `Alidayu.SendMessage` and `Alidayu.Sms` are
methods written the way the source is written:

- `SignParameters` loops over the sorted keys and pushes onto `data`;
- `SendMessage` updates the caller's `JsObject` in place;
- `Sms` builds the object and then adds `TemplateParam` only when it
  applies.

Each method is proved equal to a function (`Signature`, `Signed` over
`Assemble`, `SmsOutcome`). The lemmas about those functions state what the
source promises.

Points where the code and a plain reading of the client's contract differ,
with the model following the code:

- Signing fails (`encodeURIComponent` throws `URIError`) when a key or
  value holds a lone surrogate. The exception escapes `_sendMessage` and
  `sms` before any request is sent. That is `Thrown` in the model.
- When a response body is not JSON, or is the JSON `null`, the response
  handler of `sms` throws (`JSON.parse` fails, or `json.Message` reads a
  property of `null`). The error is not passed to the callback, and the
  callback is never called. That is `ThrownInHandler`.
- The encoder is plain `encodeURIComponent`. It leaves
  `A-Z a-z 0-9 - _ . ! ~ * ' ( )` unescaped. It does not apply the stricter
  variant that also escapes `* ' ( )`.
- The business parameters, the stored options and
  `{SignatureNonce, Timestamp}` are merged in that order, and later
  sources win. So a stored option overrides a business field of the same
  name, and the fresh nonce and timestamp override both.
- The signed map holds no `AccessKeySecret`. It holds a `Signature` key
  only when the stored options or the business parameters supplied one.
  If they did, that value is signed and then replaced.
- The only public operation is `sms`. The source has no separate public
  method that takes a prepared parameter map. `_sendMessage` is the
  closest, and it is modelled as `Alidayu.SendMessage`.

## Model

| member | source | states |
|---|---|---|
| JsStrings.LessIrreflexive | index.js:69 | no string sorts before itself under the default sort order |
| JsStrings.LessTransitive | index.js:69 | the default sort order is transitive |
| JsStrings.LessTotal | index.js:69 | any two different strings are ordered one way or the other, so a sorted key list is unique |
| KeyOrder.SortedKeys | index.js:69 | `Object.keys(param).sort()`: lists each key exactly once (same members, same count) in strictly ascending code-unit order |
| KeyOrder.SortedArrangementUnique | index.js:69 | any strictly ascending list of exactly the keys is `SortedKeys`, so the key order of the canonical string does not depend on insertion order |
| UriComponent.Encode | index.js:70 | definition of `encodeURIComponent` (ECMAScript 2015 section 18.2.6.1.1 with `uriUnreserved`); its contract is stated by `EncodeSucceedsIff`, `EncodeIsEscaped`, `EncodeIdentityIff`, `EncodeUnit`, `EncodeLength` and `EncodeDecodeRoundTrip` |
| UriComponent.EncodeSucceedsIff | index.js:70 | `encodeURIComponent` succeeds exactly on strings without a lone surrogate, and throws `URIError` otherwise |
| UriComponent.EncodeIsEscaped | index.js:70 | the output consists of unreserved characters and `%XX` triples with uppercase hex digits; it holds no `&` or `=` and is ASCII |
| UriComponent.EncodeIdentityIff | index.js:70 | a string encodes to itself exactly when all its characters are in `A-Z a-z 0-9 - _ . ! ~ * ' ( )` |
| UriComponent.EncodeUnreserved | index.js:70 | a string of unreserved characters is passed through unchanged |
| UriComponent.EncodeUnit | index.js:70 | a single non-surrogate character is either kept (unreserved) or becomes the `%XX` escapes of its UTF-8 bytes, starting with `%` |
| UriComponent.EncodeLength | index.js:70 | encoding never shortens a string, and lengthens it by at least two when some character is escaped |
| UriComponent.EncodeDecodeRoundTrip | index.js:70 | for every string without a lone surrogate, decoding the encoding gives the string back |
| UriComponent.EncodeSlash | index.js:72 | `encodeURIComponent('/')` is `%2F` |
| UriComponent.AsciiWellFormed | index.js:72 | an ASCII string has no lone surrogate, so encoding the canonical string cannot throw |
| Signer.CanonicalQuery | index.js:67-71 | definition of `data.join('&')` over the sorted keys; its contract is stated by `EncodedPairsFacts`, `CanonicalQuerySucceedsIff`, `CanonicalQueryRoundTrip` and `CanonicalQueryInjective` |
| Signer.StringToSign | index.js:72 | definition of the string-to-sign; its contract is stated by `StringToSignLayout` |
| Signer.Signature | index.js:66-74 | definition of `_signParameters`; its contract is stated by `SignatureLayout`, `SignatureDependsOnStrings` and the method `Alidayu.SignParameters` |
| Signer.EncodedPairFacts | index.js:70 | one pair `enc(k)=enc(v)` can be built exactly when key and `String(value)` have no lone surrogate; it is then non-empty ASCII without `&` |
| Signer.EncodedPairsFacts | index.js:69-71 | the loop's `data` has one entry per key, the `i`-th being the pair of the `i`-th key; it fails exactly when some key or value has a lone surrogate |
| Signer.CanonicalQuerySucceedsIff | index.js:69-72 | the canonical string can be built exactly when every key and value of `param` is free of lone surrogates |
| Signer.SplitJoin | index.js:72 | pairs without `&` joined by `&` split back into the same pairs |
| Signer.CanonicalQueryRoundTrip | index.js:67-72 | splitting the canonical string on `&`, each part at its first `=`, and decoding both halves gives every (key, `String(value)`) of `param` once, in ascending key order; the string is ASCII |
| Signer.EntriesDetermine | index.js:69-71 | the ascending (key, `String(value)`) list determines the key set and every value's string |
| Signer.CanonicalQueryInjective | index.js:67-72 | two parameter maps with the same canonical string have the same keys and the same `String()` of every value |
| Signer.StringToSignLayout | index.js:72 | the string-to-sign is `POST&%2F&` followed by the encoded canonical string, and that encoding decodes back to the canonical string |
| Signer.SignatureLayout | index.js:66-74 | the signature exists exactly when `param` is encodable; it is then the hash under `secret + "&"` of `POST&%2F&` plus the encoded canonical string |
| Signer.SignatureFailsAt | index.js:70 | one key or value that `encodeURIComponent` rejects makes the whole signing throw |
| Signer.SignatureOfPairs | index.js:72-73 | once all pairs are built, the signature is the hash of the string-to-sign of their `&`-join |
| Signer.EncodedPairsAgree | index.js:70 | the pairs depend on the values only through `String(value)` |
| Signer.SignatureDependsOnStrings | index.js:69-73 | maps with the same keys and the same `String()` of every value get the same signature (or both throw) |
| DySms.Configure | index.js:45-57 | fails on the first credential that is not a string (`AccessKeyId` first); otherwise the keys are the defaults' plus the options', every supplied option wins, and every other default key keeps its default |
| DySms.ConfiguredOptions | index.js:46-57 | a configured client carries the caller's credentials, and for each of `Format`, `SignatureMethod`, `SignatureVersion`, `Action`, `Version`, `RegionId` either the supplied value or its literal default |
| DySms.Assemble | index.js:82-83 | after the merge and the delete: keys are business, options, nonce and timestamp minus `AccessKeySecret`; nonce and timestamp carry the fresh values; options win over business values; business keys absent from the options are unchanged |
| DySms.SignedInputExcludesSecret | index.js:82-84 | the signed map never holds `AccessKeySecret`, and holds `Signature` exactly when the business parameters or the options supplied one |
| DySms.Signed | index.js:84 | definition of `_param.Signature = this._signParameters(_param, secret)`; its contract is stated by `SignedLayout` and `RequestFields` |
| DySms.SignedLayout | index.js:84 | signing the assembled map fails exactly when it is not encodable; otherwise the request is the signed map plus the single key `Signature`, carrying the signature of the signed map |
| DySms.RequestFields | index.js:82-84 | when the assembled map is encodable, signing succeeds and the posted form has: its keys, no secret, the signature, the fresh nonce and timestamp, the options' values, then the business values |
| DySms.StampedFields | index.js:82-84 | the same field facts for the assembled map with any signature value added |
| DySms.SmsParams | index.js:107-112 | exactly `PhoneNumbers`, `SignName`, `TemplateCode` from `phone`, `sign`, `template` (absent reads as `undefined`), plus `TemplateParam` (the serialised `params`) only when `params` is truthy |
| DySms.ErrorMessage | index.js:120 | definition of `new Error(json.Message).message`: empty for `undefined`, `String(m)` otherwise; `Classify` states where it is used |
| DySms.Classify | index.js:114-122 | a transport error is passed on with the raw data; an object with `Message === 'OK'` is success with the object; one with any other `Message` is an error with that message and the object; a body that does not parse, or parses to `null`, throws in the handler |
| DySms.SmsOutcome | index.js:106-124 | definition of the whole of `sms`; its contract is stated by `SmsThrowsIff`, `SmsFormFields`, `SmsRequest` and the method `Alidayu.Sms` |
| DySms.SmsThrowsIff | index.js:106-124 | `sms` throws before sending exactly when the assembled map is not encodable; otherwise its outcome is the classification of the response to the signed form |
| DySms.SmsFormFields | index.js:107-112 | in what `sms` sends, the secret is absent, `Signature` is not signed over unless an option supplies it, and each of `PhoneNumbers`, `SignName`, `TemplateCode` comes from the option of that name if present, or else from `phone`, `sign`, `template`; `TemplateParam` is present exactly when an option supplies it or `params` is truthy, and then is the option's value or the serialised `params` |
| DySms.SmsRequest | index.js:106-124 | the whole of `sms`: throws exactly on unencodable input; otherwise classifies the response to the form, which has no secret, the computed signature, and the four renamed fields (`PhoneNumbers`, `SignName`, `TemplateCode`, and `TemplateParam` when present) unless a stored option overrides them |
| DySms.Alidayu.constructor | index.js:45-58 | stores the configured options; defined for the inputs on which the source's asserts pass |
| DySms.Alidayu.SignParameters | index.js:66-74 | the loop over the sorted keys, with the string-to-sign and the hash, computes `Signature`, including its `URIError` |
| DySms.Alidayu.SendMessage | index.js:81-93 | the caller's object is updated in place: on success it becomes the signed form and is posted; when signing throws it keeps the merge and the deletion |
| DySms.Alidayu.Sms | index.js:106-124 | builds the renamed fields, sends them, and ends as `SmsOutcome` |

## Left out

- The HMAC-SHA1 digest and its base64 form (`crypto.createHmac`) are a parameter `hmac` of the model: a function of the key `secret + '&'` and the string-to-sign. The UTF-8 conversion of the string-to-sign for the hash (`new Buffer(..., 'utf-8')`) is part of that parameter.
- The HTTP POST, URL, headers and form-urlencoded serialisation are a parameter `post` from the form map to what the `request` callback receives. It is network I/O.
- `JSON.parse` is represented by the response `Body`: unparseable, `null`, or an object with its top-level fields. A body that parses to a number, string, boolean or array is not represented (in the source, `json.Message` is `undefined` for those, which gives a service error carrying that value).
- `JSON.stringify` of `option.params` is a parameter `stringify` that always returns a string. In the source it returns `undefined` for a function or symbol (then `TemplateParam` is `undefined` and is signed as `"undefined"`), and it throws on a cyclic object; neither case is modelled.
- `Math.random()` and `new Date().toISOString()` are the parameters `nonce` and `timestamp`, because they are nondeterministic.
- `createPromiseCallback` and the callback/promise choice are async plumbing. The model returns the `(err, data)` pair that reaches the callback. It does not model that the promise keeps only one of the two.
- `String(v)` of a non-string value and its truthiness are data carried by `Other`. Values whose conversion throws (symbols, objects with a throwing `toString`) are not represented.
- `Object.assign` is modelled on own enumerable string-keyed properties only: no getters, setters, symbols or `__proto__`.
- DySms.Alidayu.constructor: requires the `Configure` success case. The assertion failures are stated by `Configure`'s error results, not by the constructor.
- DySms.Alidayu.SendMessage: ends with the outcome handed to the response callback. The callback wiring `callback(err, data)` is represented by `Transport`'s result.
