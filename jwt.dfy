/**
 * The JSON Web Token operations the service relies on (RFC 7519), signed
 * with HMAC-SHA256 ("HS256", section 3.2 of RFC 7518):
 * `jwt.encode(payload, key, algorithm="HS256")` and
 * `jwt.decode(token, key, algorithms=["HS256"])`.
 *
 * A token is the compact serialisation `header.payload.signature`. The model
 * keeps that shape and its checks (three segments, the algorithm named in the
 * header, the signature over `header.payload`, the `exp` claim of section
 * 4.1.4 of RFC 7519), but the segments are the printable text of the
 * HexCodec module instead of base64url JSON, and `Sign` is an injective
 * stand-in for the keyed hash: a signature made with one key or over one
 * message never matches another.
 */
module Jwt {
  import opened Wrappers
  import opened PyText
  import opened HexCodec

  /** The JSON values a payload of this service carries. */
  datatype Claim = Null | Str(s: string) | Num(n: nat)

  /** A Python dict: its entries in insertion order. */
  type Dict = seq<(string, Claim)>

  function KeySet(d: Dict): set<string> {
    if d == [] then {} else {d[0].0} + KeySet(d[1..])
  }

  /** No key occurs twice, as in every dict Python builds. */
  predicate UniqueKeys(d: Dict) {
    d == [] || (d[0].0 !in KeySet(d[1..]) && UniqueKeys(d[1..]))
  }

  /** `d.get(k)` */
  function Get(d: Dict, k: string): (r: Option<Claim>)
    ensures r.Some? <==> k in KeySet(d)
    ensures r.Some? ==> (k, r.value) in d
    ensures UniqueKeys(d) ==> forall v :: (k, v) in d ==> r == Some(v)
  {
    if d == [] then None
    else if d[0].0 == k then
      KeyOfEntry(d[1..], k);
      Some(d[0].1)
    else
      assert forall v :: (k, v) in d ==> (k, v) in d[1..];
      Get(d[1..], k)
  }

  /** The key of every entry is in the key set. */
  lemma {:induction false} KeyOfEntry(d: Dict, k: string)
    ensures forall v :: (k, v) in d ==> k in KeySet(d)
  {
    if d != [] {
      KeyOfEntry(d[1..], k);
      assert forall v :: (k, v) in d && d[0] != (k, v) ==> (k, v) in d[1..];
    }
  }

  /** `d[k] = v`: the value of a present key is replaced in place, a new key goes last. */
  function Put(d: Dict, k: string, v: Claim): (r: Dict)
    ensures Get(r, k) == Some(v)
    ensures forall k' :: k' != k ==> Get(r, k') == Get(d, k')
    ensures KeySet(r) == KeySet(d) + {k}
    ensures UniqueKeys(d) ==> UniqueKeys(r)
    ensures k !in KeySet(d) ==> r == d + [(k, v)]
  {
    if d == [] then [(k, v)]
    else if d[0].0 == k then [(k, v)] + d[1..]
    else [d[0]] + Put(d[1..], k, v)
  }

  lemma {:induction false} KeySetAppend(a: Dict, b: Dict)
    ensures KeySet(a + b) == KeySet(a) + KeySet(b)
    decreases |a|
  {
    if a != [] {
      KeySetAppend(a[1..], b);
      var ab := a + b;
      assert ab != [] && ab[0] == a[0] && ab[1..] == a[1..] + b;
      assert KeySet(ab) == {a[0].0} + KeySet(a[1..] + b);
    } else {
      assert a + b == b;
    }
  }

  lemma {:induction false} UniqueKeysAppend(a: Dict, b: Dict)
    ensures UniqueKeys(a + b) <==> UniqueKeys(a) && UniqueKeys(b) && KeySet(a) !! KeySet(b)
    decreases |a|
  {
    if a != [] {
      UniqueKeysAppend(a[1..], b);
      KeySetAppend(a[1..], b);
      assert (a + b)[1..] == a[1..] + b;
    } else {
      assert a + b == b;
    }
  }

  // ---- Serialisation of a dict --------------------------------------------

  /** Characters of an encoded claim. */
  predicate IsClaimChar(c: char) { IsTextChar(c) || c == 'z' || c == 's' || c == 'n' }
  /** Characters of an encoded `key:claim` entry. */
  predicate IsEntryChar(c: char) { IsClaimChar(c) || c == ':' }
  /** Characters of an encoded dict (entries separated by ';'). */
  predicate IsDictChar(c: char) { IsEntryChar(c) || c == ';' }
  /** Characters of a compact token (segments separated by '.'). */
  predicate IsTokenChar(c: char) { IsDictChar(c) || c == '.' }

  function EncodeClaim(v: Claim): (t: string)
    ensures forall i :: 0 <= i < |t| ==> IsClaimChar(t[i])
  {
    match v
    case Null => "z"
    case Str(s) => "s" + EncodeText(s)
    case Num(n) => "n" + Hex(n)
  }

  function ParseClaim(t: string): Option<Claim> {
    if t == "z" then Some(Null)
    else if t != [] && t[0] == 's' then
      match DecodeText(t[1..])
      case None => None
      case Some(s) => Some(Str(s))
    else if t != [] && t[0] == 'n' then
      match ParseHex(t[1..])
      case None => None
      case Some(n) => Some(Num(n))
    else None
  }

  lemma ParseEncodeClaim(v: Claim)
    ensures ParseClaim(EncodeClaim(v)) == Some(v)
  {
    match v
    case Null =>
    case Str(s) =>
      assert EncodeClaim(v)[1..] == EncodeText(s);
      DecodeEncodeText(s);
    case Num(n) =>
      assert EncodeClaim(v)[1..] == Hex(n);
  }

  function EncodeEntry(e: (string, Claim)): (t: string)
    ensures forall i :: 0 <= i < |t| ==> IsEntryChar(t[i])
  {
    EncodeText(e.0) + ":" + EncodeClaim(e.1)
  }

  function ParseEntry(t: string): Option<(string, Claim)> {
    var fields := Split(t, ':');
    if |fields| != 2 then None
    else match (DecodeText(fields[0]), ParseClaim(fields[1]))
      case (Some(k), Some(v)) => Some((k, v))
      case _ => None
  }

  lemma ParseEncodeEntry(e: (string, Claim))
    ensures ParseEntry(EncodeEntry(e)) == Some(e)
  {
    var k, v := EncodeText(e.0), EncodeClaim(e.1);
    assert ':' !in k && ':' !in v by {
      forall i | 0 <= i < |k| ensures k[i] != ':' { assert IsTextChar(k[i]); }
      forall i | 0 <= i < |v| ensures v[i] != ':' { assert IsClaimChar(v[i]); }
    }
    assert EncodeEntry(e) == Join([k, v], ':');
    SplitJoin([k, v], ':');
    DecodeEncodeText(e.0);
    ParseEncodeClaim(e.1);
  }

  function EntryTexts(d: Dict): (ts: seq<string>)
    ensures |ts| == |d|
    ensures forall i :: 0 <= i < |ts| ==> ts[i] == EncodeEntry(d[i])
  {
    if d == [] then [] else [EncodeEntry(d[0])] + EntryTexts(d[1..])
  }

  /** The text of a dict: its entries in order, separated by ';'. */
  function EncodeDict(d: Dict): (t: string)
    ensures forall i :: 0 <= i < |t| ==> IsDictChar(t[i])
  {
    if d == [] then []
    else
      var ts := EntryTexts(d);
      forall c | !IsDictChar(c) ensures c !in Join(ts, ';') {
        forall i | 0 <= i < |ts| ensures c !in ts[i] {
          assert forall j :: 0 <= j < |ts[i]| ==> IsEntryChar(ts[i][j]);
        }
        JoinAvoids(ts, ';', c);
      }
      Join(ts, ';')
  }

  /** Reads the entries one by one into a dict, a repeated key overwriting the earlier value as `json.loads` does. */
  function ParseEntries(fields: seq<string>, acc: Dict): Option<Dict>
    decreases |fields|
  {
    if fields == [] then Some(acc)
    else match ParseEntry(fields[0])
      case None => None
      case Some(e) => ParseEntries(fields[1..], Put(acc, e.0, e.1))
  }

  function ParseDict(t: string): Option<Dict> {
    if t == [] then Some([]) else ParseEntries(Split(t, ';'), [])
  }

  lemma {:induction false} ParseEntriesOf(d: Dict, acc: Dict)
    requires UniqueKeys(acc + d)
    ensures ParseEntries(EntryTexts(d), acc) == Some(acc + d)
    decreases |d|
  {
    if d == [] {
      assert acc + d == acc;
    } else {
      var fs := EntryTexts(d);
      assert fs[0] == EncodeEntry(d[0]) && fs[1..] == EntryTexts(d[1..]);
      ParseEncodeEntry(d[0]);
      var acc' := acc + [d[0]];
      assert acc + d == acc' + d[1..];
      UniqueKeysAppend(acc, d);
      UniqueKeysAppend(acc', d[1..]);
      KeySetAppend(acc, [d[0]]);
      assert KeySet(d) == {d[0].0} + KeySet(d[1..]);
      assert d[0].0 !in KeySet(acc);
      assert Put(acc, d[0].0, d[0].1) == acc';
      ParseEntriesOf(d[1..], acc');
    }
  }

  /** Parsing undoes encoding for every dict. */
  lemma ParseEncodeDict(d: Dict)
    requires UniqueKeys(d)
    ensures ParseDict(EncodeDict(d)) == Some(d)
  {
    if d != [] {
      var ts := EntryTexts(d);
      forall i | 0 <= i < |ts| ensures ';' !in ts[i] {
        assert forall j :: 0 <= j < |ts[i]| ==> IsEntryChar(ts[i][j]);
      }
      SplitJoin(ts, ';');
      assert [] + d == d;
      ParseEntriesOf(d, []);
    }
  }

  // ---- Signing, encoding and decoding ---------------------------------------

  /** The JOSE header `{"alg": algorithm, "typ": "JWT"}` that `jwt.encode` writes. */
  function JoseHeader(algorithm: string): Dict {
    [("alg", Str(algorithm)), ("typ", Str("JWT"))]
  }

  /** The keyed signature of a signing input; stands in for HMAC-SHA256. */
  function Sign(key: string, message: string): (sig: string)
    ensures forall i :: 0 <= i < |sig| ==> IsTextChar(sig[i])
  {
    EncodeText(key + message)
  }

  /** A signature identifies both the key and the message it was made from. */
  lemma SignInjective(k1: string, m1: string, k2: string, m2: string)
    requires Sign(k1, m1) == Sign(k2, m2)
    requires |k1| == |k2|
    ensures k1 == k2 && m1 == m2
  {
    EncodeTextInjective(k1 + m1, k2 + m2);
    assert (k1 + m1)[..|k1|] == k1 && (k2 + m2)[..|k2|] == k2;
    assert (k1 + m1)[|k1|..] == m1 && (k2 + m2)[|k2|..] == m2;
  }

  lemma DictTextAvoids(d: Dict, c: char)
    requires !IsDictChar(c)
    ensures c !in EncodeDict(d)
  {
  }

  lemma SignatureAvoids(key: string, message: string, c: char)
    requires !IsTextChar(c)
    ensures c !in Sign(key, message)
  {
  }

  /** The three segments of the token for a header and a payload. */
  function Segments(header: Dict, payload: Dict, key: string): (segs: seq<string>)
    ensures |segs| == 3
  {
    var h := EncodeDict(header);
    var p := EncodeDict(payload);
    [h, p, Sign(key, h + "." + p)]
  }

  /** No segment contains a character foreign to the dict text, such as '.' or ' '. */
  lemma SegmentsAvoid(header: Dict, payload: Dict, key: string, c: char)
    requires !IsDictChar(c)
    ensures forall i :: 0 <= i < 3 ==> c !in Segments(header, payload, key)[i]
  {
    var h := EncodeDict(header);
    var p := EncodeDict(payload);
    DictTextAvoids(header, c);
    DictTextAvoids(payload, c);
    SignatureAvoids(key, h + "." + p, c);
  }

  /** The segments joined by '.' contain no space and split back into the segments. */
  lemma JoinSegments(header: Dict, payload: Dict, key: string)
    ensures ' ' !in Join(Segments(header, payload, key), '.')
    ensures Split(Join(Segments(header, payload, key), '.'), '.') == Segments(header, payload, key)
  {
    var segs := Segments(header, payload, key);
    SegmentsAvoid(header, payload, key, '.');
    SegmentsAvoid(header, payload, key, ' ');
    JoinAvoids(segs, '.', ' ');
    SplitJoin(segs, '.');
  }

  /** `jwt.encode(payload, key, algorithm=algorithm)` */
  function Encode(payload: Dict, key: string, algorithm: string): (token: string)
    ensures ' ' !in token
    ensures Split(token, '.') == Segments(JoseHeader(algorithm), payload, key)
  {
    JoinSegments(JoseHeader(algorithm), payload, key);
    Join(Segments(JoseHeader(algorithm), payload, key), '.')
  }

  /** The failures `jwt.decode` reports: `ExpiredSignatureError` and every other `InvalidTokenError`. */
  datatype DecodeError = ExpiredSignature | InvalidToken

  /** What the `exp` claim check of `jwt.decode` makes of a verified payload. */
  function CheckExpiry(payload: Dict, now: nat): (r: Result<Dict, DecodeError>)
    ensures r.Success? ==> r.value == payload
    ensures r.Success? <==> Get(payload, "exp").None? || (Get(payload, "exp").value.Num? && now < Get(payload, "exp").value.n)
    ensures r == Failure(ExpiredSignature) <==> Get(payload, "exp").Some? && Get(payload, "exp").value.Num? && Get(payload, "exp").value.n <= now
  {
    match Get(payload, "exp")
    case None => Success(payload)
    case Some(Num(exp)) => if exp <= now then Failure(ExpiredSignature) else Success(payload)
    case Some(_) => Failure(InvalidToken)
  }

  /** The header's `alg` names one of the accepted algorithms. */
  predicate AcceptedAlgorithm(header: Dict, algorithms: seq<string>) {
    match Get(header, "alg")
    case Some(Str(alg)) => alg in algorithms
    case _ => false
  }

  /** The signature segment of a token is the signature of its first two segments under `key`. */
  predicate SignedWith(segs: seq<string>, key: string) {
    |segs| == 3 && segs[2] == Sign(key, segs[0] + "." + segs[1])
  }

  /**
   * `jwt.decode(token, key, algorithms=algorithms)` at time `now`: the token
   * must have three segments, a header naming an accepted algorithm, a
   * signature matching the first two segments and a payload whose `exp`, if
   * present, lies after `now`.
   */
  function Decode(token: string, key: string, algorithms: seq<string>, now: nat): (r: Result<Dict, DecodeError>)
    ensures r.Success? || r.error == ExpiredSignature ==>
      SignedWith(Split(token, '.'), key) && ParseDict(Split(token, '.')[1]).Some?
    ensures r.Success? || r.error == ExpiredSignature ==>
      ParseDict(Split(token, '.')[0]).Some? && AcceptedAlgorithm(ParseDict(Split(token, '.')[0]).value, algorithms)
    ensures r.Success? ==> ParseDict(Split(token, '.')[1]) == Some(r.value)
    ensures r.Success? ==> forall exp :: Get(r.value, "exp") == Some(Num(exp)) ==> now < exp
    ensures r.Success? || r.error == ExpiredSignature ==> r == CheckExpiry(ParseDict(Split(token, '.')[1]).value, now)
    ensures (SignedWith(Split(token, '.'), key) && ParseDict(Split(token, '.')[0]).Some? &&
             AcceptedAlgorithm(ParseDict(Split(token, '.')[0]).value, algorithms) && ParseDict(Split(token, '.')[1]).Some?) ==>
      r == CheckExpiry(ParseDict(Split(token, '.')[1]).value, now)
  {
    var segs := Split(token, '.');
    if |segs| != 3 then Failure(InvalidToken)
    else match ParseDict(segs[0])
      case None => Failure(InvalidToken)
      case Some(header) =>
        if !AcceptedAlgorithm(header, algorithms) then
          Failure(InvalidToken)
        else if !SignedWith(segs, key) then Failure(InvalidToken)
        else match ParseDict(segs[1])
          case None => Failure(InvalidToken)
          case Some(payload) => CheckExpiry(payload, now)
  }

  lemma HeaderRoundTrip(algorithm: string)
    ensures ParseDict(EncodeDict(JoseHeader(algorithm))) == Some(JoseHeader(algorithm))
  {
    var hd := JoseHeader(algorithm);
    assert UniqueKeys(hd) by {
      assert hd[1..] == [("typ", Str("JWT"))];
      assert KeySet(hd[1..]) == {"typ"};
    }
    ParseEncodeDict(hd);
  }

  /** A token decodes, under the key it was signed with, to its payload, unless its `exp` has passed. */
  lemma DecodeEncode(payload: Dict, key: string, algorithm: string, algorithms: seq<string>, now: nat)
    requires UniqueKeys(payload)
    requires algorithm in algorithms
    ensures Decode(Encode(payload, key, algorithm), key, algorithms, now) == CheckExpiry(payload, now)
  {
    var header := JoseHeader(algorithm);
    var segs := Segments(header, payload, key);
    assert Split(Encode(payload, key, algorithm), '.') == segs;
    HeaderRoundTrip(algorithm);
    assert ParseDict(segs[0]) == Some(header);
    assert Get(header, "alg") == Some(Str(algorithm));
    assert SignedWith(segs, key);
    ParseEncodeDict(payload);
    assert ParseDict(segs[1]) == Some(payload);
  }

  /** A token whose header names an algorithm outside the accepted list is rejected as invalid. */
  lemma OtherAlgorithmRejected(payload: Dict, key: string, algorithm: string, algorithms: seq<string>, now: nat)
    requires algorithm !in algorithms
    ensures Decode(Encode(payload, key, algorithm), key, algorithms, now) == Failure(InvalidToken)
  {
    HeaderRoundTrip(algorithm);
  }

  /** A token signed with another key of the same length is rejected as invalid. */
  lemma WrongKeyRejected(payload: Dict, signer: string, key: string, algorithm: string, algorithms: seq<string>, now: nat)
    requires signer != key && |signer| == |key|
    ensures Decode(Encode(payload, signer, algorithm), key, algorithms, now) == Failure(InvalidToken)
  {
    var h, p := EncodeDict(JoseHeader(algorithm)), EncodeDict(payload);
    if Sign(signer, h + "." + p) == Sign(key, h + "." + p) {
      SignInjective(signer, h + "." + p, key, h + "." + p);
    }
  }

  lemma SignedPayloadUnique(key: string, header: string, p1: string, p2: string)
    requires Sign(key, header + "." + p1) == Sign(key, header + "." + p2)
    ensures p1 == p2
  {
    SignInjective(key, header + "." + p1, key, header + "." + p2);
    assert (header + "." + p1)[|header| + 1..] == p1;
    assert (header + "." + p2)[|header| + 1..] == p2;
  }

  /**
   * Tampering: a token that carries the signature of one payload over
   * another payload text is rejected as invalid, whatever its expiry.
   */
  lemma TamperedPayloadRejected(token: string, key: string, algorithms: seq<string>, now: nat, original: string)
    requires |Split(token, '.')| == 3
    requires var segs := Split(token, '.');
      segs[1] != original && segs[2] == Sign(key, segs[0] + "." + original)
    ensures Decode(token, key, algorithms, now) == Failure(InvalidToken)
  {
    var segs := Split(token, '.');
    if SignedWith(segs, key) {
      SignedPayloadUnique(key, segs[0], segs[1], original);
    }
  }
}
