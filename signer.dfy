/**
 * The request signature: the canonical query string over the sorted
 * parameters, the string-to-sign built from it, and a keyed hash of that.
 * A parser for the canonical query string is given beside it to show that
 * the string determines the parameters it was made from.
 */
module Signer {
  import opened Wrappers
  import opened JsStrings
  import opened KeyOrder
  import opened UriComponent

  const AMP: CodeUnit := 0x26
  const EQUALS: CodeUnit := 0x3D

  /**
   * HMAC-SHA1 of a message (second argument, as UTF-8) under a key (first
   * argument), written out in base64.  A parameter of the model.
   */
  type Hmac = (JsString, JsString) -> JsString

  /** `encodeURIComponent(key) + '=' + encodeURIComponent(param[key])` */
  function EncodedPair(param: map<JsString, Value>, key: JsString): Result<JsString, UriError>
    requires key in param
  {
    var k :- Encode(key);
    var v :- Encode(ToStr(param[key]));
    Ok(k + [EQUALS] + v)
  }

  /** The pairs for `keys`, in that order. */
  function EncodedPairs(param: map<JsString, Value>, keys: seq<JsString>): Result<seq<JsString>, UriError>
    requires forall k :: k in keys ==> k in param
    decreases |keys|
  {
    if keys == [] then Ok([])
    else
      var front :- EncodedPairs(param, keys[..|keys| - 1]);
      var last :- EncodedPair(param, keys[|keys| - 1]);
      Ok(front + [last])
  }

  /** `parts.join(sep)` */
  function Join(parts: seq<JsString>, sep: CodeUnit): JsString
    decreases |parts|
  {
    if parts == [] then []
    else if |parts| == 1 then parts[0]
    else parts[0] + [sep] + Join(parts[1..], sep)
  }

  /** The pairs of all parameters in ascending key order, joined with `&`. */
  function CanonicalQuery(param: map<JsString, Value>): Result<JsString, UriError>
  {
    var pairs :- EncodedPairs(param, SortedKeys(param.Keys));
    Ok(Join(pairs, AMP))
  }

  /** `POST&${encodeURIComponent('/')}&${encodeURIComponent(canonical)}` */
  function StringToSign(canonical: JsString): Result<JsString, UriError>
  {
    var path :- Encode(Lit("/"));
    var query :- Encode(canonical);
    Ok(Lit("POST") + [AMP] + path + [AMP] + query)
  }

  /** `_signParameters(param, secret)`: the keyed hash of the string-to-sign under `secret + '&'`. */
  function Signature(param: map<JsString, Value>, secret: JsString, hmac: Hmac): Result<JsString, UriError>
  {
    var canonical :- CanonicalQuery(param);
    var text :- StringToSign(canonical);
    Ok(hmac(secret + [AMP], text))
  }

  // ---------------------------------------------------------------------
  // Splitting a query string back into its parameters

  function IndexOf(s: JsString, c: CodeUnit): (i: nat)
    requires c in s
    ensures i < |s| && s[i] == c && c !in s[..i]
  {
    if s[0] == c then 0
    else
      var j := IndexOf(s[1..], c);
      assert s[..j + 1] == [s[0]] + s[1..][..j];
      j + 1
  }

  /** `s.split(sep)` */
  function SplitOn(s: JsString, sep: CodeUnit): (parts: seq<JsString>)
    ensures parts != []
    decreases |s|
  {
    if sep !in s then [s]
    else
      var i := IndexOf(s, sep);
      [s[..i]] + SplitOn(s[i + 1..], sep)
  }

  /** Every `name=value` part decoded on both sides of its first `=`. */
  function ParsePairs(parts: seq<JsString>): Option<seq<(JsString, JsString)>>
    decreases |parts|
  {
    if parts == [] then Some([])
    else if EQUALS !in parts[0] then None
    else
      var i := IndexOf(parts[0], EQUALS);
      var k :- Decode(parts[0][..i]);
      var v :- Decode(parts[0][i + 1..]);
      var rest :- ParsePairs(parts[1..]);
      Some([(k, v)] + rest)
  }

  function ParseQuery(q: JsString): Option<seq<(JsString, JsString)>>
  {
    if q == [] then Some([]) else ParsePairs(SplitOn(q, AMP))
  }

  /** The parameters as (name, `String(value)`) in ascending name order. */
  function Entries(param: map<JsString, Value>): seq<(JsString, JsString)>
  {
    EntriesOf(param, SortedKeys(param.Keys))
  }

  function EntriesOf(param: map<JsString, Value>, keys: seq<JsString>): (r: seq<(JsString, JsString)>)
    requires forall k :: k in keys ==> k in param
    ensures |r| == |keys|
  {
    seq(|keys|, i requires 0 <= i < |keys| => (keys[i], ToStr(param[keys[i]])))
  }

  predicate IsAscii(t: JsString)
  {
    forall i :: 0 <= i < |t| ==> t[i] < 0x80
  }

  /** The parameters every key and value of which `encodeURIComponent` accepts. */
  predicate Encodable(param: map<JsString, Value>)
  {
    forall k :: k in param ==> WellFormed(k) && WellFormed(ToStr(param[k]))
  }

  // ---------------------------------------------------------------------
  // Lemmas

  /** One pair can be built exactly when neither the key nor the string of its value has a lone surrogate. */
  lemma EncodedPairOkIff(param: map<JsString, Value>, key: JsString)
    requires key in param
    ensures EncodedPair(param, key).Ok? <==> WellFormed(key) && WellFormed(ToStr(param[key]))
  {
    EncodeSucceedsIff(key);
    EncodeSucceedsIff(ToStr(param[key]));
  }

  lemma EncodedPairFacts(param: map<JsString, Value>, key: JsString)
    requires key in param
    ensures EncodedPair(param, key).Ok? <==> WellFormed(key) && WellFormed(ToStr(param[key]))
    ensures EncodedPair(param, key).Ok? ==>
      Encode(key).Ok? && Encode(ToStr(param[key])).Ok? &&
      EncodedPair(param, key).value == Encode(key).value + [EQUALS] + Encode(ToStr(param[key])).value &&
      IsAscii(EncodedPair(param, key).value) && AMP !in EncodedPair(param, key).value &&
      EncodedPair(param, key).value != []
  {
    EncodedPairOkIff(param, key);
    if EncodedPair(param, key).Ok? {
      EncodeIsEscaped(key);
      EncodeIsEscaped(ToStr(param[key]));
      var a, b := Encode(key).value, Encode(ToStr(param[key])).value;
      var p := a + [EQUALS] + b;
      forall i | 0 <= i < |p|
        ensures p[i] < 0x80 && p[i] != AMP
      {
        if i < |a| {
          assert p[i] == a[i];
        } else if i > |a| {
          assert p[i] == b[i - |a| - 1];
        }
      }
    }
  }

  /** One pair per key, in the order of `keys`; it fails exactly when some key or value has a lone surrogate. */
  lemma EncodedPairsFacts(param: map<JsString, Value>, keys: seq<JsString>)
    requires forall k :: k in keys ==> k in param
    ensures EncodedPairs(param, keys).Ok? <==>
      forall i :: 0 <= i < |keys| ==> WellFormed(keys[i]) && WellFormed(ToStr(param[keys[i]]))
    ensures EncodedPairs(param, keys).Ok? ==>
      |EncodedPairs(param, keys).value| == |keys| &&
      forall i :: 0 <= i < |keys| ==> EncodedPair(param, keys[i]) == Ok(EncodedPairs(param, keys).value[i])
  {
    EncodedPairsOkIff(param, keys);
    forall i | 0 <= i < |keys|
      ensures EncodedPair(param, keys[i]).Ok? <==> WellFormed(keys[i]) && WellFormed(ToStr(param[keys[i]]))
    {
      EncodedPairOkIff(param, keys[i]);
    }
    if EncodedPairs(param, keys).Ok? {
      EncodedPairsValues(param, keys);
    }
  }

  predicate AllPairsEncode(param: map<JsString, Value>, keys: seq<JsString>)
    requires forall k :: k in keys ==> k in param
  {
    forall i :: 0 <= i < |keys| ==> EncodedPair(param, keys[i]).Ok?
  }

  lemma {:induction false} EncodedPairsOkIff(param: map<JsString, Value>, keys: seq<JsString>)
    requires forall k :: k in keys ==> k in param
    ensures EncodedPairs(param, keys).Ok? <==> AllPairsEncode(param, keys)
    decreases |keys|
  {
    if keys != [] {
      EncodedPairsOkIff(param, keys[..|keys| - 1]);
      EncodedPairsSnoc(param, keys);
      AllPairsEncodeSnoc(param, keys);
    }
  }

  lemma EncodedPairsSnoc(param: map<JsString, Value>, keys: seq<JsString>)
    requires keys != [] && forall k :: k in keys ==> k in param
    ensures EncodedPairs(param, keys).Ok? <==>
      EncodedPairs(param, keys[..|keys| - 1]).Ok? && EncodedPair(param, keys[|keys| - 1]).Ok?
  {
  }

  lemma AllPairsEncodeSnoc(param: map<JsString, Value>, keys: seq<JsString>)
    requires keys != [] && forall k :: k in keys ==> k in param
    ensures AllPairsEncode(param, keys) <==>
      AllPairsEncode(param, keys[..|keys| - 1]) && EncodedPair(param, keys[|keys| - 1]).Ok?
  {
    var front := keys[..|keys| - 1];
    if AllPairsEncode(param, front) && EncodedPair(param, keys[|keys| - 1]).Ok? {
      forall i | 0 <= i < |keys|
        ensures EncodedPair(param, keys[i]).Ok?
      {
        if i < |front| {
          assert keys[i] == front[i];
        }
      }
    }
  }

  lemma {:induction false} EncodedPairsValues(param: map<JsString, Value>, keys: seq<JsString>)
    requires forall k :: k in keys ==> k in param
    requires EncodedPairs(param, keys).Ok?
    ensures |EncodedPairs(param, keys).value| == |keys|
    ensures forall i :: 0 <= i < |keys| ==> EncodedPair(param, keys[i]) == Ok(EncodedPairs(param, keys).value[i])
    decreases |keys|
  {
    if keys != [] {
      var n := |keys| - 1;
      var front := keys[..n];
      EncodedPairsValues(param, front);
      var done := EncodedPairs(param, front).value;
      var r := EncodedPairs(param, keys).value;
      assert r == done + [EncodedPair(param, keys[n]).value];
      forall i | 0 <= i < n
        ensures EncodedPair(param, keys[i]) == Ok(r[i])
      {
        assert keys[i] == front[i] && r[i] == done[i];
      }
    }
  }

  /** The canonical query string can be built exactly when no key or value holds a lone surrogate. */
  lemma CanonicalQuerySucceedsIff(param: map<JsString, Value>)
    ensures CanonicalQuery(param).Ok? <==> Encodable(param)
  {
    var keys := SortedKeys(param.Keys);
    EncodedPairsFacts(param, keys);
    if Encodable(param) {
      assert forall i :: 0 <= i < |keys| ==> WellFormed(keys[i]) && WellFormed(ToStr(param[keys[i]])) by {
        forall i | 0 <= i < |keys|
          ensures WellFormed(keys[i]) && WellFormed(ToStr(param[keys[i]]))
        {
          assert keys[i] in keys;
        }
      }
    } else {
      var k :| k in param && !(WellFormed(k) && WellFormed(ToStr(param[k])));
      assert k in keys;
      var i :| 0 <= i < |keys| && keys[i] == k;
    }
  }

  lemma IndexOfAfter(a: JsString, c: CodeUnit, b: JsString)
    requires c !in a
    ensures c in a + [c] + b && IndexOf(a + [c] + b, c) == |a|
  {
    var s := a + [c] + b;
    assert s[|a|] == c;
    assert s[..|a|] == a;
  }

  lemma SplitAfter(a: JsString, sep: CodeUnit, b: JsString)
    requires sep !in a
    ensures SplitOn(a + [sep] + b, sep) == [a] + SplitOn(b, sep)
  {
    var s := a + [sep] + b;
    IndexOfAfter(a, sep, b);
    assert s[..|a|] == a;
    assert s[|a| + 1..] == b;
  }

  lemma JoinCons(parts: seq<JsString>, sep: CodeUnit)
    requires |parts| > 1
    ensures Join(parts, sep) == parts[0] + [sep] + Join(parts[1..], sep)
  {
  }

  lemma {:induction false} SplitJoin(parts: seq<JsString>, sep: CodeUnit)
    requires parts != []
    requires forall i :: 0 <= i < |parts| ==> sep !in parts[i]
    ensures SplitOn(Join(parts, sep), sep) == parts
    decreases |parts|
  {
    if |parts| > 1 {
      var rest := parts[1..];
      forall i | 0 <= i < |rest|
        ensures sep !in rest[i]
      {
        assert rest[i] == parts[i + 1];
      }
      SplitJoin(rest, sep);
      SplitJoinStep(parts, sep);
    } else {
      assert sep !in parts[0];
    }
  }

  lemma SplitJoinStep(parts: seq<JsString>, sep: CodeUnit)
    requires |parts| > 1 && sep !in parts[0]
    requires SplitOn(Join(parts[1..], sep), sep) == parts[1..]
    ensures SplitOn(Join(parts, sep), sep) == parts
  {
    var tail := Join(parts[1..], sep);
    JoinCons(parts, sep);
    SplitAfter(parts[0], sep, tail);
    calc {
      SplitOn(Join(parts, sep), sep);
      SplitOn(parts[0] + [sep] + tail, sep);
      [parts[0]] + SplitOn(tail, sep);
      [parts[0]] + parts[1..];
      parts;
    }
  }

  lemma {:induction false} JoinFacts(parts: seq<JsString>, sep: CodeUnit)
    requires sep < 0x80
    requires forall i :: 0 <= i < |parts| ==> IsAscii(parts[i]) && parts[i] != []
    ensures IsAscii(Join(parts, sep))
    ensures parts != [] ==> Join(parts, sep) != []
    decreases |parts|
  {
    if |parts| > 1 {
      var rest := parts[1..];
      assert forall i :: 0 <= i < |rest| ==> IsAscii(rest[i]) && rest[i] != [] by {
        forall i | 0 <= i < |rest|
          ensures IsAscii(rest[i]) && rest[i] != []
        {
          assert rest[i] == parts[i + 1];
        }
      }
      JoinFacts(rest, sep);
      var a, b := parts[0], Join(rest, sep);
      var s := a + [sep] + b;
      forall i | 0 <= i < |s|
        ensures s[i] < 0x80
      {
        if i < |a| {
          assert s[i] == a[i];
        } else if i > |a| {
          assert s[i] == b[i - |a| - 1];
        }
      }
    }
  }

  /** One encoded pair splits at its first `=` and decodes to the key and the string of the value. */
  lemma ParsePair(param: map<JsString, Value>, key: JsString)
    requires key in param && EncodedPair(param, key).Ok?
    ensures var p := EncodedPair(param, key).value;
      EQUALS in p &&
      Decode(p[..IndexOf(p, EQUALS)]) == Some(key) &&
      Decode(p[IndexOf(p, EQUALS) + 1..]) == Some(ToStr(param[key]))
  {
    EncodedPairFacts(param, key);
    var a, b := Encode(key).value, Encode(ToStr(param[key])).value;
    EncodeIsEscaped(key);
    assert EQUALS !in a;
    IndexOfAfter(a, EQUALS, b);
    var p := a + [EQUALS] + b;
    assert p[..|a|] == a;
    assert p[|a| + 1..] == b;
    EncodeDecodeRoundTrip(key);
    EncodeDecodeRoundTrip(ToStr(param[key]));
  }

  lemma {:induction false} ParseEncodedPairs(param: map<JsString, Value>, keys: seq<JsString>, pairs: seq<JsString>)
    requires forall k :: k in keys ==> k in param
    requires |pairs| == |keys|
    requires forall i :: 0 <= i < |keys| ==> EncodedPair(param, keys[i]) == Ok(pairs[i])
    ensures ParsePairs(pairs) == Some(EntriesOf(param, keys))
    decreases |keys|
  {
    if keys != [] {
      assert EncodedPair(param, keys[0]) == Ok(pairs[0]);
      ParsePair(param, keys[0]);
      var rest := keys[1..];
      forall i | 0 <= i < |rest|
        ensures EncodedPair(param, rest[i]) == Ok(pairs[1..][i])
      {
        assert rest[i] == keys[i + 1];
      }
      ParseEncodedPairs(param, rest, pairs[1..]);
      EntriesOfCons(param, keys);
      ParsePairsCons(pairs, keys[0], ToStr(param[keys[0]]), EntriesOf(param, rest));
    } else {
      assert pairs == [];
      assert EntriesOf(param, keys) == [];
    }
  }

  lemma EntriesOfCons(param: map<JsString, Value>, keys: seq<JsString>)
    requires keys != [] && forall k :: k in keys ==> k in param
    ensures EntriesOf(param, keys) == [(keys[0], ToStr(param[keys[0]]))] + EntriesOf(param, keys[1..])
  {
    var tail := EntriesOf(param, keys[1..]);
    assert forall i :: 0 <= i < |tail| ==> tail[i] == EntriesOf(param, keys)[i + 1];
  }

  lemma ParsePairsCons(parts: seq<JsString>, k: JsString, v: JsString, tail: seq<(JsString, JsString)>)
    requires parts != [] && EQUALS in parts[0]
    requires Decode(parts[0][..IndexOf(parts[0], EQUALS)]) == Some(k)
    requires Decode(parts[0][IndexOf(parts[0], EQUALS) + 1..]) == Some(v)
    requires ParsePairs(parts[1..]) == Some(tail)
    ensures ParsePairs(parts) == Some([(k, v)] + tail)
  {
  }

  /**
   * The canonical query string lists one `enc(k)=enc(v)` pair per parameter
   * in ascending key order, and splitting it on `&` and `=` and decoding
   * gives the parameters back.
   */
  lemma CanonicalQueryRoundTrip(param: map<JsString, Value>)
    requires CanonicalQuery(param).Ok?
    ensures ParseQuery(CanonicalQuery(param).value) == Some(Entries(param))
    ensures IsAscii(CanonicalQuery(param).value)
  {
    var keys := SortedKeys(param.Keys);
    EncodedPairsFacts(param, keys);
    var pairs := EncodedPairs(param, keys).value;
    forall i | 0 <= i < |pairs|
      ensures AMP !in pairs[i] && IsAscii(pairs[i]) && pairs[i] != []
    {
      EncodedPairFacts(param, keys[i]);
    }
    JoinFacts(pairs, AMP);
    ParseEncodedPairs(param, keys, pairs);
    if pairs != [] {
      SplitJoin(pairs, AMP);
    }
  }

  /** Name/string entries in ascending order determine the keys and the strings of the values. */
  lemma EntriesDetermine(p1: map<JsString, Value>, p2: map<JsString, Value>)
    requires Entries(p1) == Entries(p2)
    ensures p1.Keys == p2.Keys
    ensures forall k :: k in p1 ==> ToStr(p1[k]) == ToStr(p2[k])
  {
    var k1, k2 := SortedKeys(p1.Keys), SortedKeys(p2.Keys);
    assert |k1| == |Entries(p1)| && |k2| == |Entries(p2)|;
    forall i | 0 <= i < |k1|
      ensures k1[i] == k2[i] && ToStr(p1[k1[i]]) == ToStr(p2[k2[i]])
    {
      assert Entries(p1)[i] == Entries(p2)[i];
    }
    assert k1 == k2;
    forall k | k in p1
      ensures ToStr(p1[k]) == ToStr(p2[k])
    {
      assert k in k1;
      var i :| 0 <= i < |k1| && k1[i] == k;
    }
  }

  /** Two parameter maps with the same canonical query string agree on every key and on `String()` of every value. */
  lemma CanonicalQueryInjective(p1: map<JsString, Value>, p2: map<JsString, Value>)
    requires CanonicalQuery(p1).Ok? && CanonicalQuery(p1) == CanonicalQuery(p2)
    ensures p1.Keys == p2.Keys
    ensures forall k :: k in p1 ==> ToStr(p1[k]) == ToStr(p2[k])
  {
    CanonicalQueryRoundTrip(p1);
    CanonicalQueryRoundTrip(p2);
    EntriesDetermine(p1, p2);
  }

  /**
   * The string-to-sign is `POST&%2F&` followed by the encoding of the
   * canonical query string, and that encoding decodes back to it.
   */
  lemma StringToSignLayout(param: map<JsString, Value>)
    requires CanonicalQuery(param).Ok?
    ensures var c := CanonicalQuery(param).value;
      Encode(c).Ok? && StringToSign(c) == Ok(Lit("POST&%2F&") + Encode(c).value) &&
      Decode(Encode(c).value) == Some(c)
  {
    var c := CanonicalQuery(param).value;
    CanonicalQueryRoundTrip(param);
    AsciiWellFormed(c);
    EncodeDecodeRoundTrip(c);
    EncodeSlash();
    PrefixLiteral();
  }

  lemma PrefixLiteral()
    ensures Lit("POST") + [AMP] + Lit("%2F") + [AMP] == Lit("POST&%2F&")
  {
    assert Lit("POST&%2F&") == [0x50, 0x4F, 0x53, 0x54, 0x26, 0x25, 0x32, 0x46, 0x26];
    assert Lit("POST") == [0x50, 0x4F, 0x53, 0x54];
    assert Lit("%2F") == [0x25, 0x32, 0x46];
  }

  /**
   * The signature is the keyed hash, under `secret + '&'`, of
   * `POST&%2F&` and the encoded canonical query string; it fails exactly
   * when a key or value holds a lone surrogate.
   */
  lemma SignatureLayout(param: map<JsString, Value>, secret: JsString, hmac: Hmac)
    ensures Signature(param, secret, hmac).Ok? <==> Encodable(param)
    ensures Signature(param, secret, hmac).Ok? ==>
      var c := CanonicalQuery(param).value;
      Encode(c).Ok? && Signature(param, secret, hmac).value == hmac(secret + Lit("&"), Lit("POST&%2F&") + Encode(c).value)
  {
    CanonicalQuerySucceedsIff(param);
    if CanonicalQuery(param).Ok? {
      StringToSignLayout(param);
      assert [AMP] == Lit("&");
    }
  }

  /** One more loop step of `_signParameters`: the pair for `keys[i]` goes onto the end. */
  lemma EncodedPairsStep(param: map<JsString, Value>, keys: seq<JsString>, i: nat, data: seq<JsString>)
    requires forall k :: k in keys ==> k in param
    requires i < |keys| && EncodedPairs(param, keys[..i]) == Ok(data)
    requires Encode(keys[i]).Ok? && Encode(ToStr(param[keys[i]])).Ok?
    ensures EncodedPairs(param, keys[..i + 1]) ==
      Ok(data + [Encode(keys[i]).value + [EQUALS] + Encode(ToStr(param[keys[i]])).value])
  {
    assert keys[..i + 1][..i] == keys[..i];
  }

  /** When one key or value cannot be encoded, no signature can be computed. */
  lemma SignatureFailsAt(param: map<JsString, Value>, secret: JsString, hmac: Hmac, key: JsString)
    requires key in param
    requires Encode(key).Err? || Encode(ToStr(param[key])).Err?
    ensures Signature(param, secret, hmac) == Err(UriError)
  {
    EncodeSucceedsIff(key);
    EncodeSucceedsIff(ToStr(param[key]));
    assert !Encodable(param);
    CanonicalQuerySucceedsIff(param);
    SignatureOfFailedQuery(param, secret, hmac);
  }

  lemma SignatureOfFailedQuery(param: map<JsString, Value>, secret: JsString, hmac: Hmac)
    requires CanonicalQuery(param).Err?
    ensures Signature(param, secret, hmac) == Err(UriError)
  {
    var q := CanonicalQuery(param);
    assert q.error == UriError;
    assert q.PropagateFailure<JsString>() == Err(UriError);
    assert Signature(param, secret, hmac).Err?;
  }

  /** Once all pairs are encoded, what is left of `_signParameters` is the join, the string-to-sign and the hash. */
  lemma SignatureOfPairs(param: map<JsString, Value>, secret: JsString, hmac: Hmac, pairs: seq<JsString>)
    requires EncodedPairs(param, SortedKeys(param.Keys)) == Ok(pairs)
    ensures Signature(param, secret, hmac) ==
      if StringToSign(Join(pairs, AMP)).Ok? then Ok(hmac(secret + [AMP], StringToSign(Join(pairs, AMP)).value))
      else Err(UriError)
  {
    var q := CanonicalQuery(param);
    assert q == Ok(Join(pairs, AMP));
    var t := StringToSign(Join(pairs, AMP));
    if t.Err? {
      assert t.error == UriError;
      assert t.PropagateFailure<JsString>() == Err(UriError);
    }
  }

  lemma {:induction false} EncodedPairsAgree(p1: map<JsString, Value>, p2: map<JsString, Value>, keys: seq<JsString>)
    requires forall k :: k in keys ==> k in p1 && k in p2 && ToStr(p1[k]) == ToStr(p2[k])
    ensures EncodedPairs(p1, keys) == EncodedPairs(p2, keys)
    decreases |keys|
  {
    if keys != [] {
      EncodedPairsAgree(p1, p2, keys[..|keys| - 1]);
    }
  }

  /**
   * The signature depends on the keys and on `String()` of the values only:
   * not on insertion order (a map has none), and not on whether a value was
   * a string or, say, the number it prints as.
   */
  lemma SignatureDependsOnStrings(p1: map<JsString, Value>, p2: map<JsString, Value>, secret: JsString, hmac: Hmac)
    requires p1.Keys == p2.Keys
    requires forall k :: k in p1 ==> ToStr(p1[k]) == ToStr(p2[k])
    ensures Signature(p1, secret, hmac) == Signature(p2, secret, hmac)
  {
    EncodedPairsAgree(p1, p2, SortedKeys(p1.Keys));
  }
}
