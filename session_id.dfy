/**
 * The pure part of bokeh's session-id logic: key normalisation, the signature
 * of a base id, and the check of a presented session id.
 *
 * HMAC-SHA256 is not modelled: every member that signs takes it as a
 * parameter `hmac`, a total function from (key, message) to a 32-byte digest.
 * Being a function, it is deterministic, which is all the properties need.
 */
module SessionId {
  import opened Bytes
  import Utf8
  import Base64Url

  /** A value passed where Python accepts `Union[str, bytes]`. */
  datatype Data = Raw(bytes: seq<byte>) | Text(text: string)

  /** The exceptions the session-id functions can raise. */
  datatype Error =
    | MissingKey          // `hmac.new(None, ...)`: signing without a secret key
    | NonAsciiComparison  // `hmac.compare_digest` on a str that is not ASCII

  /** A SHA-256 digest. */
  type Digest = d: seq<byte> | |d| == 32 witness seq(32, _ => 0)

  /** HMAC-SHA256 (RFC 2104 over SHA-256), keyed by its first argument. */
  type Hmac = (seq<byte>, seq<byte>) -> Digest

  /** The separator between the base id and its signature. */
  const Separator: char := '-'

  /** The length `_get_random_string` uses when none is given. */
  const DefaultLength: nat := 44

  /** The characters `_get_random_string` draws from when none are given. */
  const DefaultChars: string := "abcdefghijklmnopqrstuvwxyz" + "ABCDEFGHIJKLMNOPQRSTUVWXYZ0123456789"

  /** An ASCII letter or digit. */
  predicate IsAlphanumeric(c: char) {
    'a' <= c <= 'z' || 'A' <= c <= 'Z' || '0' <= c <= '9'
  }

  /** `n` consecutive ASCII characters starting at `first`. */
  function Span(first: char, n: nat): (s: string)
    requires first as int + n <= 128
    ensures |s| == n && forall i :: 0 <= i < n ==> s[i] as int == first as int + i
  {
    seq(n, i requires 0 <= i < n => (first as int + i) as char)
  }

  /** The default alphabet is the 62 ASCII letters and digits, so it holds no separator. */
  lemma DefaultCharsAlphanumeric()
    ensures |DefaultChars| == 62
    ensures forall i :: 0 <= i < |DefaultChars| ==> IsAlphanumeric(DefaultChars[i])
    ensures Separator !in DefaultChars
  {
    assert "abcdefghijklmnopqrstuvwxyz" == Span('a', 26);
    assert "ABCDEFGHIJKLMNOPQRSTUVWXYZ" == Span('A', 26);
    assert "0123456789" == Span('0', 10);
    assert "ABCDEFGHIJKLMNOPQRSTUVWXYZ0123456789" == "ABCDEFGHIJKLMNOPQRSTUVWXYZ" + "0123456789";
  }

  /** The bytes of a `Union[str, bytes]`: text is UTF-8 encoded. */
  function ToBytes(d: Data): (b: seq<byte>)
    ensures d.Raw? ==> b == d.bytes
    ensures d.Text? ==> Utf8.Decode(b) == Some(d.text)
  {
    match d
    case Raw(b) => b
    case Text(s) => Utf8.DecodeEncode(s); Utf8.Encode(s)
  }

  /** `_ensure_bytes`: None stays None, bytes pass through, text is UTF-8 encoded. */
  function EnsureBytes(key: Option<Data>): (r: Option<seq<byte>>)
    ensures r.None? <==> key.None?
    ensures r.Some? ==> r.value == ToBytes(key.value)
  {
    match key
    case None => None
    case Some(d) => Some(ToBytes(d))
  }

  /** A normalised key handed back to a function that normalises again. */
  function AsKey(b: Option<seq<byte>>): (r: Option<Data>)
    ensures EnsureBytes(r) == b
  {
    match b
    case None => None
    case Some(bytes) => Some(Raw(bytes))
  }

  /** Normalising twice is normalising once. */
  lemma EnsureBytesIdempotent(key: Option<Data>)
    ensures EnsureBytes(AsKey(EnsureBytes(key))) == EnsureBytes(key)
  {
  }

  /** Two text keys normalise to the same bytes only if they are the same text. */
  lemma EnsureBytesTextInjective(s: string, t: string)
    requires EnsureBytes(Some(Text(s))) == EnsureBytes(Some(Text(t)))
    ensures s == t
  {
    Utf8.EncodeInjective(s, t);
  }

  /** `_base64_encode`: URL-safe base64 of the bytes, trailing `=` stripped. */
  function Base64Encode(decoded: Data): (r: string)
    ensures '=' !in r
    ensures Base64Url.AllSymbols(r) && AllAscii(r)
    ensures |r| == (4 * |ToBytes(decoded)| + 2) / 3
    ensures Base64Url.Decode(r) == Some(ToBytes(decoded))
  {
    var b := ToBytes(decoded);
    Base64Url.StripPadding(b);
    Base64Url.DecodeEncode(b);
    Base64Url.RStrip(Base64Url.Encode(b), '=')
  }

  /**
   * `_signature`: the stripped URL-safe base64 of the HMAC-SHA256 of the base
   * id's UTF-8 bytes under the normalised key; `hmac.new` raises without a key.
   */
  function Signature(baseId: string, key: Option<Data>, hmac: Hmac): (r: Result<string, Error>)
    ensures r.Failure? <==> key.None?
    ensures r.Failure? ==> r.error == MissingKey
    ensures r.Success? ==> |r.value| == 43 && '=' !in r.value && Base64Url.AllSymbols(r.value) && AllAscii(r.value)
    ensures r.Success? ==> Base64Url.Decode(r.value) == Some(hmac(EnsureBytes(key).value, Utf8.Encode(baseId)))
  {
    match EnsureBytes(key)
    case None => Failure(MissingKey)
    case Some(k) => Success(Base64Encode(Raw(hmac(k, Utf8.Encode(baseId)))))
  }

  /** `hmac.compare_digest` on two str: equality, and a TypeError unless both are ASCII. */
  function CompareDigest(a: string, b: string): (r: Result<bool, Error>)
    ensures r.Success? <==> AllAscii(a) && AllAscii(b)
    ensures r.Success? ==> (r.value <==> a == b)
  {
    if AllAscii(a) && AllAscii(b) then Success(a == b) else Failure(NonAsciiComparison)
  }

  /** The index of the first `c` in `s`, if any. */
  function FirstIndex(s: string, c: char): (r: Option<nat>)
    ensures r.None? <==> c !in s
    ensures r.Some? ==> r.value < |s| && s[r.value] == c && c !in s[..r.value]
  {
    if s == [] then None
    else if s[0] == c then Some(0)
    else match FirstIndex(s[1..], c)
      case None => None
      case Some(i) =>
        assert s[..i + 1] == [s[0]] + s[1..][..i];
        Some(i + 1)
  }

  /** `s.split(sep, 1)`: one piece when `sep` is absent, else the text before and after its first occurrence. */
  function SplitOnce(s: string, sep: char): (pieces: seq<string>)
    ensures |pieces| == 1 || |pieces| == 2
    ensures |pieces| == 2 <==> sep in s
    ensures |pieces| == 1 ==> pieces[0] == s
    ensures |pieces| == 2 ==> pieces[0] + [sep] + pieces[1] == s && sep !in pieces[0]
  {
    match FirstIndex(s, sep)
    case None => [s]
    case Some(i) =>
      assert s[..i] + [sep] + s[i + 1..] == s;
      [s[..i], s[i + 1..]]
  }

  /** The split of a joined token recovers its parts whenever the first part holds no separator. */
  lemma SplitOnceJoined(a: string, b: string, sep: char)
    requires sep !in a
    ensures SplitOnce(a + [sep] + b, sep) == [a, b]
  {
    var s := a + [sep] + b;
    var pieces := SplitOnce(s, sep);
    assert s[|a|] == sep;
    assert pieces[0] == a;
    assert pieces[1] == s[|a| + 1..] == b;
  }

  /** `check_session_id_signature`. */
  function CheckSessionIdSignature(sessionId: string, key: Option<Data>, signed: bool, hmac: Hmac)
    : (r: Result<bool, Error>)
    ensures !signed ==> r == Success(true)
    ensures signed && Separator !in sessionId ==> r == Success(false)
    ensures signed && Separator in sessionId && key.None? ==> r == Failure(MissingKey)
  {
    var k := AsKey(EnsureBytes(key));
    if signed then
      var pieces := SplitOnce(sessionId, Separator);
      if |pieces| != 2 then Success(false)
      else
        var baseId, provided := pieces[0], pieces[1];
        match Signature(baseId, k, hmac)
        case Failure(e) => Failure(e)
        case Success(expected) => CompareDigest(expected, provided)
    else Success(true)
  }

  /** The session id `generate_session_id` returns for the base id it drew. */
  function SessionIdFor(baseId: string, key: Option<Data>, signed: bool, hmac: Hmac): (r: Result<string, Error>)
    ensures !signed ==> r == Success(baseId)
    ensures signed ==> (r.Failure? <==> key.None?)
    ensures signed && r.Success? ==> r.value == baseId + [Separator] + Signature(baseId, key, hmac).value
  {
    var k := AsKey(EnsureBytes(key));
    if signed then
      match Signature(baseId, k, hmac)
      case Failure(e) => Failure(e)
      case Success(sig) => Success(baseId + [Separator] + sig)
    else Success(baseId)
  }

  /**
   * Round trip: a signed session id passes the check under the key that
   * produced it, or under any key that normalises to the same bytes (a text
   * key and its UTF-8 bytes, say), provided the base id holds no separator.
   */
  lemma SignedSessionIdVerifies(baseId: string, key: Option<Data>, checkKey: Option<Data>, hmac: Hmac)
    requires Separator !in baseId && key.Some?
    requires EnsureBytes(checkKey) == EnsureBytes(key)
    ensures SessionIdFor(baseId, key, true, hmac).Success?
    ensures CheckSessionIdSignature(SessionIdFor(baseId, key, true, hmac).value, checkKey, true, hmac) == Success(true)
  {
    var sig := Signature(baseId, key, hmac).value;
    var token := SessionIdFor(baseId, key, true, hmac).value;
    SplitOnceJoined(baseId, sig, Separator);
    assert Signature(baseId, AsKey(EnsureBytes(checkKey)), hmac) == Success(sig);
  }

  /** The part of a signed session id after the first separator is the signature of the part before it. */
  lemma SignedSessionIdParts(baseId: string, key: Option<Data>, hmac: Hmac)
    requires Separator !in baseId && key.Some?
    ensures SessionIdFor(baseId, key, true, hmac).Success?
    ensures SplitOnce(SessionIdFor(baseId, key, true, hmac).value, Separator)
         == [baseId, Signature(baseId, key, hmac).value]
  {
    SplitOnceJoined(baseId, Signature(baseId, key, hmac).value, Separator);
  }

  /**
   * Only signed session ids pass a signed check: whatever passes is the base id
   * before its first separator, the separator, and that base id's signature.
   */
  lemma AcceptedSessionIdIsSigned(sessionId: string, key: Option<Data>, hmac: Hmac)
    requires CheckSessionIdSignature(sessionId, key, true, hmac) == Success(true)
    ensures Separator in sessionId && key.Some?
    ensures var pieces := SplitOnce(sessionId, Separator);
      Separator !in pieces[0] && SessionIdFor(pieces[0], key, true, hmac) == Success(sessionId)
  {
    var pieces := SplitOnce(sessionId, Separator);
    assert Signature(pieces[0], AsKey(EnsureBytes(key)), hmac) == Signature(pieces[0], key, hmac);
  }

  /**
   * A signed check of a well-formed session id with an ASCII signature part
   * fails exactly when that part differs from the recomputed signature.
   */
  lemma CheckComparesSignature(baseId: string, provided: string, key: Option<Data>, hmac: Hmac)
    requires Separator !in baseId && key.Some? && AllAscii(provided)
    ensures CheckSessionIdSignature(baseId + [Separator] + provided, key, true, hmac)
         == Success(provided == Signature(baseId, key, hmac).value)
  {
    SplitOnceJoined(baseId, provided, Separator);
    var sig := Signature(baseId, key, hmac).value;
    assert Signature(baseId, AsKey(EnsureBytes(key)), hmac) == Success(sig);
  }

  /**
   * As written, a presented signature holding a non-ASCII character makes the
   * check raise instead of answering False.
   */
  lemma NonAsciiSignatureRaises(baseId: string, key: Option<Data>, hmac: Hmac)
    requires Separator !in baseId && key.Some?
    ensures CheckSessionIdSignature(baseId + [Separator] + "\U{e9}", key, true, hmac) == Failure(NonAsciiComparison)
  {
    var provided := "\U{e9}";
    SplitOnceJoined(baseId, provided, Separator);
    assert !IsAscii(provided[0]) && !AllAscii(provided);
    assert Signature(baseId, AsKey(EnsureBytes(key)), hmac).Success?;
  }

  /**
   * The check with the comparison made on the UTF-8 bytes of both signatures,
   * which `hmac.compare_digest` accepts whatever they hold: with a key present
   * it always answers.
   */
  function CheckSessionIdSignatureOnBytes(sessionId: string, key: Option<Data>, signed: bool, hmac: Hmac)
    : (r: Result<bool, Error>)
    ensures !signed ==> r == Success(true)
    ensures signed && Separator !in sessionId ==> r == Success(false)
    ensures signed && Separator in sessionId ==> (r.Failure? <==> key.None?)
    ensures r.Failure? ==> r.error == MissingKey
  {
    var k := AsKey(EnsureBytes(key));
    if signed then
      var pieces := SplitOnce(sessionId, Separator);
      if |pieces| != 2 then Success(false)
      else
        var baseId, provided := pieces[0], pieces[1];
        match Signature(baseId, k, hmac)
        case Failure(e) => Failure(e)
        case Success(expected) => Success(Utf8.Encode(expected) == Utf8.Encode(provided))
    else Success(true)
  }

  /** On an ASCII session id the corrected check answers as `CheckSessionIdSignature` does. */
  lemma OnBytesAgreesOnAscii(sessionId: string, key: Option<Data>, signed: bool, hmac: Hmac)
    requires AllAscii(sessionId)
    ensures CheckSessionIdSignatureOnBytes(sessionId, key, signed, hmac)
         == CheckSessionIdSignature(sessionId, key, signed, hmac)
  {
    var pieces := SplitOnce(sessionId, Separator);
    if signed && |pieces| == 2 && key.Some? {
      var provided := pieces[1];
      assert AllAscii(provided) by {
        forall i | 0 <= i < |provided| ensures IsAscii(provided[i]) {
          assert provided[i] == sessionId[|pieces[0]| + 1 + i];
        }
      }
      var expected := Signature(pieces[0], AsKey(EnsureBytes(key)), hmac).value;
      if Utf8.Encode(expected) == Utf8.Encode(provided) {
        Utf8.EncodeInjective(expected, provided);
      }
    }
  }

  /**
   * The corrected check accepts exactly the signed session ids: those that are
   * a separator-free base id, the separator, and that base id's signature.
   */
  lemma OnBytesAcceptsExactlySigned(baseId: string, provided: string, key: Option<Data>, hmac: Hmac)
    requires Separator !in baseId && key.Some?
    ensures CheckSessionIdSignatureOnBytes(baseId + [Separator] + provided, key, true, hmac)
         == Success(provided == Signature(baseId, key, hmac).value)
  {
    SplitOnceJoined(baseId, provided, Separator);
    var sig := Signature(baseId, key, hmac).value;
    assert Signature(baseId, AsKey(EnsureBytes(key)), hmac) == Success(sig);
    if Utf8.Encode(sig) == Utf8.Encode(provided) {
      Utf8.EncodeInjective(sig, provided);
    }
  }
}
