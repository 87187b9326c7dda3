/**
 * How the payload segment of a token meets `atob`. A JWS compact token
 * carries its segments in base64url without padding (section 2 and section
 * 7.1 of RFC 7515; the alphabet is section 5 of RFC 4648), while `atob`
 * accepts only the standard alphabet (section 4 of RFC 4648), following the
 * WHATWG "forgiving-base64 decode" algorithm.
 */
module TokenSegment {
  import opened Common
  import Auth

  predicate IsByte(x: int)
  {
    0 <= x < 256
  }

  /** The base64url character for a 6-bit value (table 2 of RFC 4648). */
  function UrlChar(v: int): (c: char)
    requires 0 <= v < 64
    ensures IsUrlChar(c)
    ensures v < 62 ==> IsStdChar(c)
  {
    if v < 26 then ('A' as int + v) as char
    else if v < 52 then ('a' as int + (v - 26)) as char
    else if v < 62 then ('0' as int + (v - 52)) as char
    else if v == 62 then '-'
    else '_'
  }

  predicate IsUrlChar(c: char)
  {
    'A' <= c <= 'Z' || 'a' <= c <= 'z' || '0' <= c <= '9' || c == '-' || c == '_'
  }

  /** A character of the standard alphabet (table 1 of RFC 4648), padding excluded. */
  predicate IsStdChar(c: char)
  {
    'A' <= c <= 'Z' || 'a' <= c <= 'z' || '0' <= c <= '9' || c == '+' || c == '/'
  }

  /** The four characters for one complete group of three bytes. */
  function EncodeGroup(b0: int, b1: int, b2: int): (r: string)
    requires IsByte(b0) && IsByte(b1) && IsByte(b2)
    ensures |r| == 4 && forall i :: 0 <= i < 4 ==> IsUrlChar(r[i])
    ensures r[3] == UrlChar(b2 % 64)
  {
    var v1 := (b0 % 4) * 16 + b1 / 16;
    var v2 := (b1 % 16) * 4 + b2 / 64;
    assert 0 <= v1 < 64 && 0 <= v2 < 64;
    [UrlChar(b0 / 4), UrlChar(v1), UrlChar(v2), UrlChar(b2 % 64)]
  }

  /** The two characters for a final single byte. */
  function EncodeOne(b0: int): (r: string)
    requires IsByte(b0)
    ensures |r| == 2 && IsUrlChar(r[0]) && IsUrlChar(r[1])
  {
    [UrlChar(b0 / 4), UrlChar((b0 % 4) * 16)]
  }

  /** The three characters for a final pair of bytes. */
  function EncodeTwo(b0: int, b1: int): (r: string)
    requires IsByte(b0) && IsByte(b1)
    ensures |r| == 3 && IsUrlChar(r[0]) && IsUrlChar(r[1]) && IsUrlChar(r[2])
  {
    var v1 := (b0 % 4) * 16 + b1 / 16;
    var v2 := (b1 % 16) * 4;
    [UrlChar(b0 / 4), UrlChar(v1), UrlChar(v2)]
  }

  predicate IsUrlText(s: string)
  {
    forall i :: 0 <= i < |s| ==> IsUrlChar(s[i])
  }

  lemma UrlTextAppend(a: string, b: string)
    requires IsUrlText(a) && IsUrlText(b)
    ensures IsUrlText(a + b)
  {
    forall i | 0 <= i < |a + b| ensures IsUrlChar((a + b)[i]) {
      if i >= |a| {
        assert (a + b)[i] == b[i - |a|];
      }
    }
  }

  lemma LengthAfterGroup(head: string, tail: string)
    requires |head| == 4 && |tail| % 4 != 1
    ensures |head + tail| % 4 != 1
  {
    assert |head + tail| == |tail| + 4;
  }

  /** Unpadded base64url encoding of a byte string, as a token issuer produces it. */
  function EncodeUrl(b: seq<int>): (r: string)
    requires forall i :: 0 <= i < |b| ==> IsByte(b[i])
    ensures IsUrlText(r)
    ensures |r| % 4 != 1
    decreases |b|
  {
    if |b| == 0 then []
    else if |b| == 1 then EncodeOne(b[0])
    else if |b| == 2 then EncodeTwo(b[0], b[1])
    else
      var head := EncodeGroup(b[0], b[1], b[2]);
      var tail := EncodeUrl(b[3..]);
      UrlTextAppend(head, tail);
      LengthAfterGroup(head, tail);
      head + tail
  }

  /**
   * Whether `atob` accepts `s` (the failure checks of forgiving-base64
   * decode): with a length divisible by 4, up to two trailing '=' are
   * dropped; then a length of 1 modulo 4, or any character outside the
   * standard alphabet, is a failure.
   */
  predicate AtobAccepts(s: string)
    ensures AtobAccepts(s) ==> '-' !in s && '_' !in s
    ensures AtobAccepts(s) ==> forall i :: 0 <= i < |s| ==> IsStdChar(s[i]) || s[i] == '='
  {
    DecodableText(StripPadding(s))
  }

  /** Text `atob` decodes once padding is gone: standard alphabet, length not 1 modulo 4. */
  predicate DecodableText(t: string)
  {
    |t| % 4 != 1 && forall i :: 0 <= i < |t| ==> IsStdChar(t[i])
  }

  /** With a length divisible by 4, one or two trailing '=' are dropped. */
  function StripPadding(s: string): (t: string)
    ensures t <= s && |s| - 2 <= |t|
    ensures (|s| == 0 || s[|s| - 1] != '=') ==> t == s
    ensures |s| % 4 != 0 ==> t == s
    ensures forall i :: |t| <= i < |s| ==> s[i] == '='
    ensures |s| % 4 == 0 && |s| >= 1 && s[|s| - 1] == '=' ==> |t| < |s|
    ensures |s| % 4 == 0 && |s| >= 2 && s[|s| - 2..] == "==" ==> |t| == |s| - 2
  {
    if |s| % 4 == 0 && |s| >= 2 && s[|s| - 1] == '=' && s[|s| - 2] == '=' then s[..|s| - 2]
    else if |s| % 4 == 0 && |s| >= 1 && s[|s| - 1] == '=' then s[..|s| - 1]
    else s
  }

  /** `atob(undefined)` decodes the nine characters "undefined", which fails. */
  lemma AtobRejectsUndefined()
    ensures !AtobAccepts("undefined")
  {
  }

  lemma EncodeUrlGroups(b: seq<int>)
    requires forall i :: 0 <= i < |b| ==> IsByte(b[i])
    requires |b| >= 3
    ensures EncodeUrl(b) == EncodeGroup(b[0], b[1], b[2]) + EncodeUrl(b[3..])
  {
  }

  /** A '~' (byte 126) third in a group of three bytes is encoded as '-'. */
  lemma {:induction false} TildeEncodesAsDash(b: seq<int>, k: nat)
    requires forall i :: 0 <= i < |b| ==> IsByte(b[i])
    requires 3 * k + 2 < |b| && b[3 * k + 2] == 126
    ensures 4 * k + 3 < |EncodeUrl(b)| && EncodeUrl(b)[4 * k + 3] == '-'
  {
    EncodeUrlGroups(b);
    if k == 0 {
      assert b[2] % 64 == 62;
    } else {
      var rest := b[3..];
      assert rest[3 * (k - 1) + 2] == b[3 * k + 2];
      TildeEncodesAsDash(rest, k - 1);
      DashInTail(EncodeGroup(b[0], b[1], b[2]), EncodeUrl(rest), 4 * (k - 1) + 3);
    }
  }

  lemma DashInTail(head: string, tail: string, j: nat)
    requires |head| == 4 && j < |tail| && tail[j] == '-'
    ensures 4 + j < |head + tail| && (head + tail)[4 + j] == '-'
  {
  }

  /** The bytes of an ASCII text. */
  function Bytes(s: string): (b: seq<int>)
    requires IsAscii(s)
    ensures |b| == |s| && forall i :: 0 <= i < |b| ==> IsByte(b[i]) && b[i] == s[i] as int
  {
    seq(|s|, i requires 0 <= i < |s| => s[i] as int)
  }

  /**
   * The payload the backend signs for a user whose (valid) e-mail address is
   * "a~b@x.co": the claims `email` and `sub` (the user's id, a uuid string;
   * the value here is one such id), then `iat` and `exp` (one day later)
   * added by the signer. The '~' is the third byte of the fourth group of
   * three; nothing after it affects whether `atob` rejects the segment.
   */
  const TildePayload: string := TildeEmail + TildeSub + TildeIat + TildeExpClaim
  const TildeEmail: string := "{\"email\":\"a~b@x.co\","
  const TildeSub: string := "\"sub\":\"" + TildeIdHead + TildeIdTail + "\","
  const TildeIdHead: string := "6f1c2a9e-4b7d-4e21"
  const TildeIdTail: string := "-9c3a-8d5f0b7e2a14"
  const TildeIat: string := "\"iat\":1700000000,"
  const TildeExpClaim: string := "\"exp\":1700086400}"
  const TildeExp: int := 1700086400

  predicate IsAscii(s: string)
  {
    forall i :: 0 <= i < |s| ==> s[i] as int < 128
  }

  lemma AsciiAppend(a: string, b: string)
    requires IsAscii(a) && IsAscii(b)
    ensures IsAscii(a + b)
  {
    forall i | 0 <= i < |a + b| ensures (a + b)[i] as int < 128 {
      if i >= |a| {
        assert (a + b)[i] == b[i - |a|];
      }
    }
  }

  lemma EmailAscii()
    ensures IsAscii(TildeEmail) && TildeEmail[11] == '~'
  {
  }

  lemma SubAscii()
    ensures IsAscii(TildeSub)
  {
    assert IsAscii("\"sub\":\"") && IsAscii(TildeIdHead) && IsAscii(TildeIdTail) && IsAscii("\",");
    AsciiAppend("\"sub\":\"", TildeIdHead);
    AsciiAppend("\"sub\":\"" + TildeIdHead, TildeIdTail);
    AsciiAppend("\"sub\":\"" + TildeIdHead + TildeIdTail, "\",");
  }

  lemma TimesAscii()
    ensures IsAscii(TildeIat) && IsAscii(TildeExpClaim)
  {
  }

  lemma TildePayloadAscii()
    ensures TildePayload[11] == '~'
    ensures IsAscii(TildePayload)
  {
    EmailAscii();
    SubAscii();
    TimesAscii();
    AsciiAppend(TildeEmail, TildeSub);
    AsciiAppend(TildeEmail + TildeSub, TildeIat);
    AsciiAppend(TildeEmail + TildeSub + TildeIat, TildeExpClaim);
    assert TildePayload[11] == TildeEmail[11];
  }

  /** The bytes of the example payload. */
  function TildeBytes(): (b: seq<int>)
    ensures |b| == |TildePayload| && b[11] == 126
    ensures forall i :: 0 <= i < |b| ==> IsByte(b[i])
  {
    TildePayloadAscii();
    Bytes(TildePayload)
  }

  /** The example payload's token segment, as the signer writes it. */
  function TildeSegment(): string
  {
    EncodeUrl(TildeBytes())
  }

  /** A text made of base64url characters that uses '-' or '_' somewhere fails `atob`. */
  lemma UrlOnlyCharRejected(seg: string, k: nat)
    requires forall i :: 0 <= i < |seg| ==> IsUrlChar(seg[i])
    requires k < |seg| && (seg[k] == '-' || seg[k] == '_')
    ensures !AtobAccepts(seg)
  {
    assert IsUrlChar(seg[|seg| - 1]);
    assert StripPadding(seg) == seg;
    assert !IsStdChar(seg[k]);
  }

  /** Base64url text never contains the '.' that separates token segments. */
  lemma UrlTextHasNoDot(seg: string)
    requires forall i :: 0 <= i < |seg| ==> IsUrlChar(seg[i])
    ensures '.' !in seg
  {
    forall i | 0 <= i < |seg| ensures seg[i] != '.' {
      assert IsUrlChar(seg[i]);
    }
  }

  /** Bytes with a '~' third in their fourth group encode to a segment `atob` rejects. */
  lemma DashSegmentRejected(b: seq<int>)
    requires forall i :: 0 <= i < |b| ==> IsByte(b[i])
    requires |b| > 11 && b[11] == 126
    ensures !AtobAccepts(EncodeUrl(b)) && '.' !in EncodeUrl(b)
  {
    TildeEncodesAsDash(b, 3);
    var seg := EncodeUrl(b);
    UrlOnlyCharRejected(seg, 15);
    UrlTextHasNoDot(seg);
  }

  /** The example segment contains no '.' and fails `atob`. */
  lemma TildePayloadSegmentRejected()
    ensures !AtobAccepts(TildeSegment())
    ensures '.' !in TildeSegment()
  {
    DashSegmentRejected(TildeBytes());
  }

  // ---------------------------------------------------------------------------
  // Decoding

  /** The 6-bit value of a standard-alphabet character. */
  function StdValue(c: char): (v: int)
    requires IsStdChar(c)
    ensures 0 <= v < 64
  {
    if 'A' <= c <= 'Z' then c as int - 'A' as int
    else if 'a' <= c <= 'z' then c as int - 'a' as int + 26
    else if '0' <= c <= '9' then c as int - '0' as int + 52
    else if c == '+' then 62
    else 63
  }

  /** The bytes of one group of four characters. */
  function DecodeGroup(c0: char, c1: char, c2: char, c3: char): (b: seq<int>)
    requires IsStdChar(c0) && IsStdChar(c1) && IsStdChar(c2) && IsStdChar(c3)
    ensures |b| == 3
  {
    var v0, v1, v2, v3 := StdValue(c0), StdValue(c1), StdValue(c2), StdValue(c3);
    [v0 * 4 + v1 / 16, (v1 % 16) * 16 + v2 / 4, (v2 % 4) * 64 + v3]
  }

  /**
   * The bytes `atob` returns for decodable text: each character gives six
   * bits, and the bits left over after the last whole byte are dropped.
   */
  function AtobDecode(t: string): (b: seq<int>)
    requires DecodableText(t)
    ensures |b| == |t| * 3 / 4
    ensures forall i :: 0 <= i < |b| ==> IsByte(b[i])
    decreases |t|
  {
    if |t| == 0 then []
    else if |t| == 2 then [StdValue(t[0]) * 4 + StdValue(t[1]) / 16]
    else if |t| == 3 then
      [StdValue(t[0]) * 4 + StdValue(t[1]) / 16, (StdValue(t[1]) % 16) * 16 + StdValue(t[2]) / 4]
    else
      assert |t[4..]| % 4 == |t| % 4 by { assert |t| == |t[4..]| + 4; }
      DecodeGroup(t[0], t[1], t[2], t[3]) + AtobDecode(t[4..])
  }

  /** `JSON.parse(atob(segment))`: `parse` reads the decoded bytes; None where either throws. */
  function AtobParse(parse: seq<int> -> Option<Auth.Json>, segment: string): (r: Option<Auth.Json>)
    ensures !AtobAccepts(segment) ==> r == None
    ensures AtobAccepts(segment) ==> r == parse(AtobDecode(StripPadding(segment)))
  {
    if AtobAccepts(segment) then parse(AtobDecode(StripPadding(segment))) else None
  }

  /** The `decode` of `decodeToken` as written: the segment goes to `atob` unchanged. */
  function AsWrittenDecode(parse: seq<int> -> Option<Auth.Json>): string -> Option<Auth.Json>
  {
    segment => AtobParse(parse, segment)
  }

  /** base64url to standard base64 for one character: '-' becomes '+', '_' becomes '/'. */
  function StdOfUrl(c: char): (d: char)
    ensures IsUrlChar(c) ==> IsStdChar(d)
  {
    if c == '-' then '+' else if c == '_' then '/' else c
  }

  function ToStd(s: string): (r: string)
    ensures |r| == |s| && forall i :: 0 <= i < |s| ==> r[i] == StdOfUrl(s[i])
  {
    seq(|s|, i requires 0 <= i < |s| => StdOfUrl(s[i]))
  }

  /** The segment `atob` should receive: translated to the standard alphabet first. */
  function CorrectedAtobInput(segment: string): string
  {
    ToStd(segment)
  }

  /** The `decode` of `decodeToken`, corrected. */
  function CorrectedDecode(parse: seq<int> -> Option<Auth.Json>): string -> Option<Auth.Json>
  {
    segment => AtobParse(parse, CorrectedAtobInput(segment))
  }

  // ---------------------------------------------------------------------------
  // Decoding undoes encoding once the alphabet is translated

  lemma UrlCharToStd(v: int)
    requires 0 <= v < 64
    ensures IsStdChar(StdOfUrl(UrlChar(v))) && StdValue(StdOfUrl(UrlChar(v))) == v
  {
  }

  /** The bit arithmetic of one group: splitting three bytes into four 6-bit values and back. */
  lemma GroupArith(b0: int, b1: int, b2: int)
    requires IsByte(b0) && IsByte(b1) && IsByte(b2)
    ensures var v1 := (b0 % 4) * 16 + b1 / 16;
      var v2 := (b1 % 16) * 4 + b2 / 64;
      && (b0 / 4) * 4 + v1 / 16 == b0
      && (v1 % 16) * 16 + v2 / 4 == b1
      && (v2 % 4) * 64 + b2 % 64 == b2
  {
    var v1 := (b0 % 4) * 16 + b1 / 16;
    var v2 := (b1 % 16) * 4 + b2 / 64;
    assert v1 / 16 == b0 % 4 && v1 % 16 == b1 / 16;
    assert v2 / 4 == b1 % 16 && v2 % 4 == b2 / 64;
  }

  lemma GroupRoundTrip(b0: int, b1: int, b2: int)
    requires IsByte(b0) && IsByte(b1) && IsByte(b2)
    ensures var g := ToStd(EncodeGroup(b0, b1, b2));
      DecodableText(g) && DecodeGroup(g[0], g[1], g[2], g[3]) == [b0, b1, b2]
  {
    var v1 := (b0 % 4) * 16 + b1 / 16;
    var v2 := (b1 % 16) * 4 + b2 / 64;
    UrlCharToStd(b0 / 4);
    UrlCharToStd(v1);
    UrlCharToStd(v2);
    UrlCharToStd(b2 % 64);
    GroupArith(b0, b1, b2);
  }

  lemma OneRoundTrip(b0: int)
    requires IsByte(b0)
    ensures var t := ToStd(EncodeOne(b0)); DecodableText(t) && AtobDecode(t) == [b0]
  {
    UrlCharToStd(b0 / 4);
    UrlCharToStd((b0 % 4) * 16);
  }

  lemma TwoRoundTrip(b0: int, b1: int)
    requires IsByte(b0) && IsByte(b1)
    ensures var t := ToStd(EncodeTwo(b0, b1)); DecodableText(t) && AtobDecode(t) == [b0, b1]
  {
    var v1 := (b0 % 4) * 16 + b1 / 16;
    UrlCharToStd(b0 / 4);
    UrlCharToStd(v1);
    UrlCharToStd((b1 % 16) * 4);
    GroupArith(b0, b1, 0);
  }

  lemma ToStdAppend(a: string, b: string)
    ensures ToStd(a + b) == ToStd(a) + ToStd(b)
  {
  }

  lemma DecodeAfterGroup(g: string, t: string)
    requires |g| == 4 && DecodableText(g) && DecodableText(t)
    ensures DecodableText(g + t)
    ensures AtobDecode(g + t) == DecodeGroup(g[0], g[1], g[2], g[3]) + AtobDecode(t)
  {
    var s := g + t;
    assert |s| == |t| + 4;
    assert s[4..] == t;
    forall i | 0 <= i < |s| ensures IsStdChar(s[i]) {
      if i >= 4 {
        assert s[i] == t[i - 4];
      }
    }
  }

  /** One group of three bytes in front of text that already decodes back. */
  lemma DecodeEncodeStep(b: seq<int>)
    requires forall i :: 0 <= i < |b| ==> IsByte(b[i])
    requires |b| >= 3
    requires DecodableText(ToStd(EncodeUrl(b[3..])))
    requires AtobDecode(ToStd(EncodeUrl(b[3..]))) == b[3..]
    ensures DecodableText(ToStd(EncodeUrl(b)))
    ensures AtobDecode(ToStd(EncodeUrl(b))) == b
  {
    var head := EncodeGroup(b[0], b[1], b[2]);
    var tail := EncodeUrl(b[3..]);
    EncodeUrlGroups(b);
    var g := ToStd(head);
    var t := ToStd(tail);
    assert ToStd(EncodeUrl(b)) == g + t by {
      ToStdAppend(head, tail);
    }
    GroupRoundTrip(b[0], b[1], b[2]);
    DecodeAfterGroup(g, t);
    SplitBytes(b);
  }

  lemma SplitBytes(b: seq<int>)
    requires |b| >= 3
    ensures b == [b[0], b[1], b[2]] + b[3..]
  {
  }

  /** Translated to the standard alphabet, base64url text decodes back to the encoded bytes. */
  lemma {:induction false} DecodeEncodeUrl(b: seq<int>)
    requires forall i :: 0 <= i < |b| ==> IsByte(b[i])
    ensures DecodableText(ToStd(EncodeUrl(b)))
    ensures AtobDecode(ToStd(EncodeUrl(b))) == b
    decreases |b|
  {
    if |b| == 0 {
    } else if |b| == 1 {
      OneRoundTrip(b[0]);
      assert b == [b[0]];
    } else if |b| == 2 {
      TwoRoundTrip(b[0], b[1]);
      assert b == [b[0], b[1]];
    } else {
      DecodeEncodeUrl(b[3..]);
      DecodeEncodeStep(b);
    }
  }

  // ---------------------------------------------------------------------------
  // The finding

  /**
   * As written, the payload segment goes to `atob` unchanged: the token the
   * backend issues for the example user decodes to null, so it is invalid at
   * every time, whatever the JSON parser.
   */
  lemma UrlPayloadRejected(header: string, signature: string, parse: seq<int> -> Option<Auth.Json>, now: int)
    requires '.' !in header
    ensures Auth.DecodeToken(header + "." + TildeSegment() + "." + signature, AsWrittenDecode(parse)) == Auth.JNull
    ensures !Auth.IsTokenValid(Some(header + "." + TildeSegment() + "." + signature), AsWrittenDecode(parse), now)
  {
    var seg := TildeSegment();
    var raw := header + "." + seg + "." + signature;
    TildePayloadSegmentRejected();
    Auth.DecodeReadsPayloadSegment(header, seg, signature, AsWrittenDecode(parse));
    assert AsWrittenDecode(parse)(seg) == None;
    Auth.UndecodableOrNoExpInvalid(raw, AsWrittenDecode(parse), now);
  }

  /** Decodable text carries no padding, so `atob` accepts it as it is. */
  lemma DecodableAccepted(t: string)
    requires DecodableText(t)
    ensures StripPadding(t) == t && AtobAccepts(t)
  {
    if |t| >= 1 {
      assert IsStdChar(t[|t| - 1]);
    }
  }

  /** Translated first, every base64url encoding, of any payload bytes, is accepted by `atob`. */
  lemma CorrectedSegmentAccepted(b: seq<int>)
    requires forall i :: 0 <= i < |b| ==> IsByte(b[i])
    ensures AtobAccepts(CorrectedAtobInput(EncodeUrl(b)))
  {
    DecodeEncodeUrl(b);
    DecodableAccepted(CorrectedAtobInput(EncodeUrl(b)));
  }

  /** Corrected, decoding a segment hands the parser exactly the bytes that were encoded. */
  lemma CorrectedDecodeRoundTrip(b: seq<int>, parse: seq<int> -> Option<Auth.Json>)
    requires forall i :: 0 <= i < |b| ==> IsByte(b[i])
    ensures CorrectedDecode(parse)(EncodeUrl(b)) == parse(b)
  {
    var t := CorrectedAtobInput(EncodeUrl(b));
    DecodeEncodeUrl(b);
    DecodableAccepted(t);
    assert AtobParse(parse, t) == parse(AtobDecode(t));
  }

  /**
   * Corrected, the same token is valid until its `exp`, given a JSON parser
   * that reads the payload's `exp` claim.
   */
  lemma CorrectedTokenValid(header: string, signature: string, parse: seq<int> -> Option<Auth.Json>,
                            fields: map<string, Auth.Json>, now: int)
    requires '.' !in header
    requires parse(TildeBytes()) == Some(Auth.JObject(fields))
    requires "exp" in fields && fields["exp"] == Auth.JNum(TildeExp)
    requires now < TildeExp * 1000
    ensures Auth.IsTokenValid(Some(header + "." + TildeSegment() + "." + signature), CorrectedDecode(parse), now)
  {
    var seg := TildeSegment();
    var raw := header + "." + seg + "." + signature;
    TildePayloadSegmentRejected();
    CorrectedDecodeRoundTrip(TildeBytes(), parse);
    Auth.DecodeReadsPayloadSegment(header, seg, signature, CorrectedDecode(parse));
    Auth.ValidIffNotExpired(raw, CorrectedDecode(parse), now, fields, TildeExp);
  }
}
