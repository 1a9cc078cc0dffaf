/**
 * The URL- and filename-safe base64 alphabet of section 5 of RFC 4648, as
 * produced by Python's `base64.urlsafe_b64encode`, and the unpadded text that
 * remains once trailing `=` are stripped.
 *
 * Encoding is layered: bytes are first cut into 6-bit values (`Sextets`), and
 * the values are then written as alphabet characters (`Render`). Decoding
 * reverses both layers (`Values`, then `Join`).
 */
module Base64Url {
  import opened Bytes

  /** A character of the alphabet: `A-Z a-z 0-9 - _` (the pad `=` is not one). */
  predicate IsSymbol(c: char) {
    'A' <= c <= 'Z' || 'a' <= c <= 'z' || '0' <= c <= '9' || c == '-' || c == '_'
  }

  /** Every character of `s` belongs to the alphabet. */
  predicate AllSymbols(s: string) {
    forall i :: 0 <= i < |s| ==> IsSymbol(s[i])
  }

  /** Every value is a 6-bit value. */
  predicate AllSextets(vs: seq<nat>) {
    forall i :: 0 <= i < |vs| ==> vs[i] < 64
  }

  /** The character for a 6-bit value (table 2 of RFC 4648 with 62 -> '-' and 63 -> '_'). */
  function Symbol(v: nat): (c: char)
    requires v < 64
    ensures IsSymbol(c) && IsAscii(c)
  {
    if v < 26 then ('A' as int + v) as char
    else if v < 52 then ('a' as int + (v - 26)) as char
    else if v < 62 then ('0' as int + (v - 52)) as char
    else if v == 62 then '-'
    else '_'
  }

  /** The 6-bit value of an alphabet character. */
  function Value(c: char): (v: nat)
    requires IsSymbol(c)
    ensures v < 64
  {
    if 'A' <= c <= 'Z' then c as int - 'A' as int
    else if 'a' <= c <= 'z' then c as int - 'a' as int + 26
    else if '0' <= c <= '9' then c as int - '0' as int + 52
    else if c == '-' then 62
    else 63
  }

  lemma ValueOfSymbol(v: nat)
    requires v < 64
    ensures Value(Symbol(v)) == v
  {
  }

  lemma SymbolOfValue(c: char)
    requires IsSymbol(c)
    ensures Symbol(Value(c)) == c
  {
  }

  /** Writes 6-bit values as alphabet characters. */
  function Render(vs: seq<nat>): (s: string)
    requires AllSextets(vs)
    ensures |s| == |vs| && AllSymbols(s) && AllAscii(s)
  {
    seq(|vs|, i requires 0 <= i < |vs| => Symbol(vs[i]))
  }

  /** Reads alphabet characters as 6-bit values; None if a character is outside the alphabet. */
  function Values(s: string): (r: Option<seq<nat>>)
    ensures r.Some? ==> |r.value| == |s| && AllSextets(r.value)
  {
    if AllSymbols(s) then Some(seq(|s|, i requires 0 <= i < |s| => Value(s[i]))) else None
  }

  /** Reading back rendered values gives the values. */
  lemma ValuesRender(vs: seq<nat>)
    requires AllSextets(vs)
    ensures Values(Render(vs)) == Some(vs)
  {
    var s := Render(vs);
    forall i | 0 <= i < |vs| ensures Value(s[i]) == vs[i] {
      ValueOfSymbol(vs[i]);
    }
    assert Values(s).value == vs;
  }

  /** Rendering read values gives the text back. */
  lemma RenderValues(s: string)
    requires Values(s).Some?
    ensures Render(Values(s).value) == s
  {
    var vs := Values(s).value;
    forall i | 0 <= i < |s| ensures Symbol(vs[i]) == s[i] {
      SymbolOfValue(s[i]);
    }
  }

  /**
   * The 6-bit values of `b`, most significant bits first: each full group of
   * three bytes gives four values; a final group of two bytes gives three and
   * one of one byte gives two, the missing low bits zero.
   */
  function Sextets(b: seq<byte>): (vs: seq<nat>)
    ensures AllSextets(vs)
    decreases |b|
  {
    if |b| == 0 then []
    else if |b| == 1 then [b[0] / 4, b[0] % 4 * 16]
    else if |b| == 2 then [b[0] / 4, b[0] % 4 * 16 + b[1] / 16, b[1] % 16 * 4]
    else [b[0] / 4, b[0] % 4 * 16 + b[1] / 16, b[1] % 16 * 4 + b[2] / 64, b[2] % 64] + Sextets(b[3..])
  }

  /**
   * The bytes whose 6-bit values are `vs`: None for a single dangling value or
   * for non-zero unused low bits in a final short group.
   */
  function Join(vs: seq<nat>): (r: Option<seq<byte>>)
    requires AllSextets(vs)
    decreases |vs|
  {
    if |vs| == 0 then Some([])
    else if |vs| == 1 then None
    else if |vs| == 2 then
      if vs[1] % 16 == 0 then Some([vs[0] * 4 + vs[1] / 16]) else None
    else if |vs| == 3 then
      if vs[2] % 4 == 0 then Some([vs[0] * 4 + vs[1] / 16, vs[1] % 16 * 16 + vs[2] / 4]) else None
    else
      match Join(vs[4..])
      case None => None
      case Some(rest) =>
        Some([vs[0] * 4 + vs[1] / 16, vs[1] % 16 * 16 + vs[2] / 4, vs[2] % 4 * 64 + vs[3]] + rest)
  }

  /** Splitting `hi * k + lo` at `k` gives back its two parts. */
  lemma DivModParts(hi: nat, lo: nat, k: nat)
    requires k == 4 || k == 16 || k == 64
    requires lo < k
    ensures (hi * k + lo) / k == hi && (hi * k + lo) % k == lo
  {
    if k == 4 {
      assert hi * k + lo == hi * 4 + lo;
    } else if k == 16 {
      assert hi * k + lo == hi * 16 + lo;
    } else {
      assert hi * k + lo == hi * 64 + lo;
    }
  }

  /** A full group's four values followed by values that join to `rest` join to the group and `rest`. */
  lemma JoinGroup(b0: byte, b1: byte, b2: byte, tail: seq<nat>, rest: seq<byte>)
    requires AllSextets(tail) && Join(tail) == Some(rest)
    ensures var vs := [b0 / 4, b0 % 4 * 16 + b1 / 16, b1 % 16 * 4 + b2 / 64, b2 % 64] + tail;
      AllSextets(vs) && Join(vs) == Some([b0, b1, b2] + rest)
  {
    var vs := [b0 / 4, b0 % 4 * 16 + b1 / 16, b1 % 16 * 4 + b2 / 64, b2 % 64] + tail;
    assert vs[4..] == tail;
    DivModParts(b0 % 4, b1 / 16, 16);
    DivModParts(b1 % 16, b2 / 64, 4);
    assert vs[0] * 4 + vs[1] / 16 == b0;
    assert vs[1] % 16 * 16 + vs[2] / 4 == b1;
    assert vs[2] % 4 * 64 + vs[3] == b2;
  }

  /** Joining the values of `b` gives `b` back. */
  lemma {:induction false} JoinSextets(b: seq<byte>)
    ensures Join(Sextets(b)) == Some(b)
    decreases |b|
  {
    if |b| == 1 {
      JoinSextetsOne(b[0]);
      assert b == [b[0]];
    } else if |b| == 2 {
      JoinSextetsTwo(b[0], b[1]);
      assert b == [b[0], b[1]];
    } else if |b| > 2 {
      JoinSextets(b[3..]);
      JoinSextetsStep(b[0], b[1], b[2], b[3..]);
      assert b == [b[0], b[1], b[2]] + b[3..];
    }
  }

  lemma JoinSextetsOne(b0: byte)
    ensures Join(Sextets([b0])) == Some([b0])
  {
    DivModParts(b0 % 4, 0, 16);
  }

  lemma JoinSextetsTwo(b0: byte, b1: byte)
    ensures Join(Sextets([b0, b1])) == Some([b0, b1])
  {
    DivModParts(b0 % 4, b1 / 16, 16);
    DivModParts(b1 % 16, 0, 4);
  }

  lemma JoinSextetsStep(b0: byte, b1: byte, b2: byte, rest: seq<byte>)
    requires Join(Sextets(rest)) == Some(rest)
    ensures Join(Sextets([b0, b1, b2] + rest)) == Some([b0, b1, b2] + rest)
  {
    SextetsGroup(b0, b1, b2, rest);
    JoinGroup(b0, b1, b2, Sextets(rest), rest);
  }

  /** The values of a full group of three bytes rebuilt from four values. */
  lemma GroupOfValues(v0: nat, v1: nat, v2: nat, v3: nat)
    requires v0 < 64 && v1 < 64 && v2 < 64 && v3 < 64
    ensures var b0, b1, b2 := v0 * 4 + v1 / 16, v1 % 16 * 16 + v2 / 4, v2 % 4 * 64 + v3;
      b0 / 4 == v0 && b0 % 4 * 16 + b1 / 16 == v1 && b1 % 16 * 4 + b2 / 64 == v2 && b2 % 64 == v3
  {
    DivModParts(v0, v1 / 16, 4);
    DivModParts(v1 % 16, v2 / 4, 16);
    DivModParts(v2 % 4, v3, 64);
  }

  /** One step of `Sextets`: a full group followed by the rest. */
  lemma SextetsGroup(b0: byte, b1: byte, b2: byte, rest: seq<byte>)
    ensures Sextets([b0, b1, b2] + rest) == [b0 / 4, b0 % 4 * 16 + b1 / 16, b1 % 16 * 4 + b2 / 64, b2 % 64] + Sextets(rest)
  {
    assert ([b0, b1, b2] + rest)[3..] == rest;
  }

  /** Only the values of `b` join to `b`. */
  lemma {:induction false} SextetsJoin(vs: seq<nat>, b: seq<byte>)
    requires AllSextets(vs) && Join(vs) == Some(b)
    ensures Sextets(b) == vs
    decreases |vs|
  {
    if |vs| == 2 {
      SextetsJoinPair(vs, b);
    } else if |vs| == 3 {
      SextetsJoinTriple(vs, b);
    } else if |vs| > 3 {
      var rest := JoinLong(vs, b);
      SextetsJoin(vs[4..], rest);
      SextetsJoinStep(vs[0], vs[1], vs[2], vs[3], rest);
      assert vs == [vs[0], vs[1], vs[2], vs[3]] + vs[4..];
    }
  }

  /** One step of `Join` on four or more values: the first group's bytes, then the bytes of the rest. */
  lemma JoinLong(vs: seq<nat>, b: seq<byte>) returns (rest: seq<byte>)
    requires |vs| > 3 && AllSextets(vs) && Join(vs) == Some(b)
    ensures Join(vs[4..]) == Some(rest)
    ensures b == [vs[0] * 4 + vs[1] / 16, vs[1] % 16 * 16 + vs[2] / 4, vs[2] % 4 * 64 + vs[3]] + rest
  {
    rest := Join(vs[4..]).value;
  }

  lemma SextetsJoinPair(vs: seq<nat>, b: seq<byte>)
    requires |vs| == 2 && AllSextets(vs) && Join(vs) == Some(b)
    ensures Sextets(b) == vs
  {
    SextetsOfPair(vs[0], vs[1]);
    assert vs == [vs[0], vs[1]];
  }

  lemma SextetsJoinTriple(vs: seq<nat>, b: seq<byte>)
    requires |vs| == 3 && AllSextets(vs) && Join(vs) == Some(b)
    ensures Sextets(b) == vs
  {
    SextetsOfTriple(vs[0], vs[1], vs[2]);
    assert vs == [vs[0], vs[1], vs[2]];
  }

  lemma SextetsOfPair(v0: nat, v1: nat)
    requires v0 < 64 && v1 < 64 && v1 % 16 == 0
    ensures Sextets([v0 * 4 + v1 / 16]) == [v0, v1]
  {
    DivModParts(v0, v1 / 16, 4);
  }

  lemma SextetsOfTriple(v0: nat, v1: nat, v2: nat)
    requires v0 < 64 && v1 < 64 && v2 < 64 && v2 % 4 == 0
    ensures Sextets([v0 * 4 + v1 / 16, v1 % 16 * 16 + v2 / 4]) == [v0, v1, v2]
  {
    DivModParts(v0, v1 / 16, 4);
    DivModParts(v1 % 16, v2 / 4, 16);
  }

  lemma SextetsJoinStep(v0: nat, v1: nat, v2: nat, v3: nat, rest: seq<byte>)
    requires v0 < 64 && v1 < 64 && v2 < 64 && v3 < 64
    ensures Sextets([v0 * 4 + v1 / 16, v1 % 16 * 16 + v2 / 4, v2 % 4 * 64 + v3] + rest) == [v0, v1, v2, v3] + Sextets(rest)
  {
    var b0: byte, b1: byte, b2: byte := v0 * 4 + v1 / 16, v1 % 16 * 16 + v2 / 4, v2 % 4 * 64 + v3;
    GroupOfValues(v0, v1, v2, v3);
    SextetsGroup(b0, b1, b2, rest);
  }

  /** `n` bytes give `ceil(4n / 3)` values: four per full group, then three or two. */
  lemma {:induction false} SextetsLength(b: seq<byte>)
    ensures |Sextets(b)| == (4 * |b| + 2) / 3
    decreases |b|
  {
    if |b| > 2 {
      SextetsLength(b[3..]);
    }
  }

  /** The encoding with no padding at all. */
  function EncodeUnpadded(b: seq<byte>): (s: string)
    ensures |s| == (4 * |b| + 2) / 3
    ensures AllSymbols(s) && AllAscii(s)
  {
    SextetsLength(b);
    Render(Sextets(b))
  }

  /** The `=` characters `urlsafe_b64encode` appends after `n` input bytes. */
  function Padding(n: nat): (p: string)
    ensures |p| < 3 && (n + |p|) % 3 == 0
    ensures forall i :: 0 <= i < |p| ==> p[i] == '='
  {
    if n % 3 == 1 then "==" else if n % 3 == 2 then "=" else ""
  }

  /** Unpadded length plus padding is a whole number of four-character quanta. */
  lemma PaddedLength(n: nat)
    ensures ((4 * n + 2) / 3 + |Padding(n)|) % 4 == 0
  {
    var q, r := n / 3, n % 3;
    assert n == 3 * q + r;
    if r == 0 {
      assert (4 * n + 2) / 3 == 4 * q;
    } else if r == 1 {
      assert (4 * n + 2) / 3 == 4 * q + 2;
    } else {
      assert (4 * n + 2) / 3 == 4 * q + 3;
    }
  }

  /** `base64.urlsafe_b64encode`: the final quantum is padded with `=` to four characters. */
  function Encode(b: seq<byte>): (s: string)
    ensures |s| % 4 == 0
  {
    PaddedLength(|b|);
    EncodeUnpadded(b) + Padding(|b|)
  }

  /** The padded encoding is the unpadded one followed by fewer than three `=`. */
  lemma EncodeIsUnpaddedThenPadding(b: seq<byte>)
    ensures Encode(b)[..|EncodeUnpadded(b)|] == EncodeUnpadded(b)
    ensures |Encode(b)| - |EncodeUnpadded(b)| < 3
    ensures forall i :: |EncodeUnpadded(b)| <= i < |Encode(b)| ==> Encode(b)[i] == '='
  {
    var u, p := EncodeUnpadded(b), Padding(|b|);
    assert Encode(b) == u + p;
    forall i | |u| <= i < |u + p|
      ensures (u + p)[i] == '='
    {
      assert (u + p)[i] == p[i - |u|];
    }
  }

  /** Strict decoding of unpadded text: None for anything `EncodeUnpadded` does not produce. */
  function Decode(s: string): (r: Option<seq<byte>>) {
    match Values(s)
    case None => None
    case Some(vs) => Join(vs)
  }

  /** Decoding recovers every byte string from its unpadded encoding. */
  lemma DecodeEncode(b: seq<byte>)
    ensures Decode(EncodeUnpadded(b)) == Some(b)
  {
    ValuesRender(Sextets(b));
    JoinSextets(b);
  }

  /** Only the unpadded encoding of `b` decodes to `b`. */
  lemma EncodeDecode(s: string, b: seq<byte>)
    requires Decode(s) == Some(b)
    ensures EncodeUnpadded(b) == s
  {
    var vs := Values(s).value;
    SextetsJoin(vs, b);
    RenderValues(s);
  }

  /** Python's `str.rstrip(c)`: drop every trailing occurrence of `c`. */
  function RStrip(s: string, c: char): (r: string)
    ensures |r| <= |s| && r == s[..|r|]
    ensures r == [] || r[|r| - 1] != c
    ensures forall i :: |r| <= i < |s| ==> s[i] == c
  {
    if s != [] && s[|s| - 1] == c then RStrip(s[..|s| - 1], c) else s
  }

  /** Stripping `c` from `u` followed by copies of `c` gives back `u` when `u` does not end in `c`. */
  lemma {:induction false} RStripAppended(u: string, p: string, c: char)
    requires u == [] || u[|u| - 1] != c
    requires forall i :: 0 <= i < |p| ==> p[i] == c
    ensures RStrip(u + p, c) == u
    decreases |p|
  {
    if p == [] {
      assert u + p == u;
    } else {
      var s := u + p;
      assert s[|s| - 1] == c;
      assert s[..|s| - 1] == u + p[..|p| - 1];
      RStripAppended(u, p[..|p| - 1], c);
    }
  }

  /** Stripping the padding from a padded encoding leaves exactly the unpadded encoding. */
  lemma StripPadding(b: seq<byte>)
    ensures RStrip(Encode(b), '=') == EncodeUnpadded(b)
  {
    var u := EncodeUnpadded(b);
    assert u == [] || IsSymbol(u[|u| - 1]);
    RStripAppended(u, Padding(|b|), '=');
  }
}
