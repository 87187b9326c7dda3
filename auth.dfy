/**
 * The client-side authentication context: reading the `exp` claim out of a
 * JWS compact token (section 7.1 of RFC 7515; the expiration time claim is
 * section 4.1.4 of RFC 7519), deciding whether the token is still valid, and
 * the state updates of logout, the authentication check, the 401 response
 * handler and the `Authorization: Bearer` request header (section 2.1 of
 * RFC 6750).
 *
 * Decoding a segment (base64 followed by JSON parsing) is a parameter
 * `decode`, returning None where either step throws. The clock is a
 * parameter `now`, in milliseconds.
 */
module Auth {
  import opened Common

  /** A parsed JSON value; numbers are integers in this model. */
  datatype Json =
    | JNull
    | JBool(b: bool)
    | JNum(n: int)
    | JString(s: string)
    | JArray(items: seq<Json>)
    | JObject(fields: map<string, Json>)

  /** JavaScript truthiness of a parsed value (arrays and objects are always truthy). */
  predicate Truthy(j: Json)
  {
    match j
    case JNull => false
    case JBool(b) => b
    case JNum(n) => n != 0
    case JString(s) => s != ""
    case JArray(_) => true
    case JObject(_) => true
  }

  /** Property access `payload.exp`; None is `undefined`. */
  function Property(j: Json, key: string): (v: Option<Json>)
    ensures v.Some? <==> j.JObject? && key in j.fields
    ensures v.Some? ==> v.value == j.fields[key]
  {
    if j.JObject? && key in j.fields then Some(j.fields[key]) else None
  }

  /**
   * The number a value converts to in `exp * 1000`; None is NaN, for which
   * every comparison is false. Strings are always NaN in this model.
   */
  function NumericValue(j: Json): Option<int>
  {
    match j
    case JNull => Some(0)
    case JBool(b) => Some(if b then 1 else 0)
    case JNum(n) => Some(n)
    case _ => None
  }

  // ---------------------------------------------------------------------------
  // `rawToken.split('.')`

  /** The segments of `s` between '.' separators; `split` never returns an empty list. */
  function SplitDots(s: string): (r: seq<string>)
    ensures |r| >= 1
    ensures forall i :: 0 <= i < |r| ==> '.' !in r[i]
  {
    if s == [] then [[]]
    else
      var rest := SplitDots(s[1..]);
      if s[0] == '.' then [[]] + rest
      else [[s[0]] + rest[0]] + rest[1..]
  }

  /** Glue segments back together with '.' between them. */
  function JoinDots(parts: seq<string>): string
  {
    if parts == [] then []
    else if |parts| == 1 then parts[0]
    else parts[0] + "." + JoinDots(parts[1..])
  }

  /** Splitting loses nothing: joining the segments gives back the token. */
  lemma {:induction false} JoinSplit(s: string)
    ensures JoinDots(SplitDots(s)) == s
  {
    if s != [] {
      var rest := SplitDots(s[1..]);
      JoinSplit(s[1..]);
      if s[0] == '.' {
        assert JoinDots(SplitDots(s)) == [] + "." + JoinDots(rest);
      } else {
        var r := SplitDots(s);
        assert r[0] == [s[0]] + rest[0] && r[1..] == rest[1..];
        if |rest| == 1 {
          assert JoinDots(r) == [s[0]] + rest[0];
        } else {
          assert JoinDots(r) == [s[0]] + rest[0] + "." + JoinDots(rest[1..]);
          assert JoinDots(rest) == rest[0] + "." + JoinDots(rest[1..]);
        }
      }
    }
  }

  /** A leading segment without dots is split off whole at the first '.'. */
  lemma {:induction false} SplitDotsAfterSegment(a: string, b: string)
    requires '.' !in a
    ensures SplitDots(a + "." + b) == [a] + SplitDots(b)
  {
    if a == [] {
      assert a + "." + b == "." + b;
      assert ("." + b)[1..] == b;
    } else {
      var s := a + "." + b;
      assert s[0] == a[0] && s[1..] == a[1..] + "." + b;
      assert a[0] != '.' by { assert a[0] in a; }
      SplitDotsAfterSegment(a[1..], b);
      assert [a[0]] + a[1..] == a;
    }
  }

  /** What `decodeToken` returns: the parsed second segment, or null. */
  function DecodeToken(raw: string, decode: string -> Option<Json>): (j: Json)
    ensures |SplitDots(raw)| < 2 ==> j == JNull
    ensures j == JNull || decode(SplitDots(raw)[1]) == Some(j)
    ensures |SplitDots(raw)| >= 2 && decode(SplitDots(raw)[1]).None? ==> j == JNull
    ensures |SplitDots(raw)| >= 2 && decode(SplitDots(raw)[1]).Some? ==> j == decode(SplitDots(raw)[1]).value
  {
    var segments := SplitDots(raw);
    // With no second segment the source decodes the text "undefined",
    // which is not valid base64 (its length is 1 mod 4), so it yields null.
    if |segments| < 2 then JNull
    else
      match decode(segments[1])
      case Some(j) => j
      case None => JNull
  }

  /** `decodeToken` reads only the second segment: header and signature do not matter. */
  lemma DecodeReadsPayloadSegment(header: string, payload: string, signature: string,
                                  decode: string -> Option<Json>)
    requires '.' !in header && '.' !in payload
    ensures DecodeToken(header + "." + payload + "." + signature, decode) ==
      match decode(payload) case Some(j) => j case None => JNull
  {
    var tail := payload + "." + signature;
    assert header + "." + payload + "." + signature == header + "." + tail;
    SplitDotsAfterSegment(header, tail);
    SplitDotsAfterSegment(payload, signature);
  }

  /** Text without a '.' is a single segment. */
  lemma {:induction false} SplitDotsNoDot(s: string)
    requires '.' !in s
    ensures SplitDots(s) == [s]
  {
    if s != [] {
      assert s[0] != '.' by { assert s[0] in s; }
      SplitDotsNoDot(s[1..]);
      assert [s[0]] + s[1..] == s;
    }
  }

  /** A token without any '.' never decodes. */
  lemma DecodeWithoutDotIsNull(raw: string, decode: string -> Option<Json>)
    requires '.' !in raw
    ensures DecodeToken(raw, decode) == JNull
  {
    SplitDotsNoDot(raw);
  }

  /** `isTokenValid(rawToken)` at time `now` (milliseconds). */
  function IsTokenValid(raw: Option<string>, decode: string -> Option<Json>, now: int): (ok: bool)
    ensures raw == None || raw == Some("") ==> !ok
    ensures ok ==> raw.Some? && Truthy(DecodeToken(raw.value, decode))
    ensures ok ==> var exp := Property(DecodeToken(raw.value, decode), "exp");
      exp.Some? && Truthy(exp.value) && NumericValue(exp.value).Some? && NumericValue(exp.value).value * 1000 > now
  {
    if raw.None? || raw.value == "" then false
    else
      var payload := DecodeToken(raw.value, decode);
      if !Truthy(payload) then false
      else
        var exp := Property(payload, "exp");
        if exp.None? || !Truthy(exp.value) then false
        else
          var n := NumericValue(exp.value);
          n.Some? && n.value * 1000 > now
  }

  /** A token whose payload decodes to an object with a numeric `exp` is valid exactly while `exp * 1000 > now`. */
  lemma ValidIffNotExpired(raw: string, decode: string -> Option<Json>, now: int, fields: map<string, Json>, exp: int)
    requires raw != ""
    requires DecodeToken(raw, decode) == JObject(fields)
    requires "exp" in fields && fields["exp"] == JNum(exp)
    ensures IsTokenValid(Some(raw), decode, now) <==> exp != 0 && exp * 1000 > now
  {
  }

  /** `exp = 0` is falsy, so such a token is never valid, whatever the time. */
  lemma ZeroExpNeverValid(raw: string, decode: string -> Option<Json>, now: int, fields: map<string, Json>)
    requires DecodeToken(raw, decode) == JObject(fields)
    requires "exp" in fields && fields["exp"] == JNum(0)
    ensures !IsTokenValid(Some(raw), decode, now)
  {
  }

  /** A token that fails to decode, or has no `exp`, is invalid. */
  lemma UndecodableOrNoExpInvalid(raw: string, decode: string -> Option<Json>, now: int)
    requires DecodeToken(raw, decode) == JNull || Property(DecodeToken(raw, decode), "exp").None?
    ensures !IsTokenValid(Some(raw), decode, now)
  {
  }

  /** Validity only ever ends: valid now means valid at every earlier time. */
  lemma ValidityMonotone(raw: Option<string>, decode: string -> Option<Json>, earlier: int, later: int)
    requires earlier <= later
    ensures IsTokenValid(raw, decode, later) ==> IsTokenValid(raw, decode, earlier)
  {
  }

  /** JavaScript `a || b` on possibly missing strings: the first unless it is missing or "". */
  function OrElse(a: Option<string>, b: Option<string>): (r: Option<string>)
    ensures a.Some? && a.value != "" ==> r == a
    ensures !(a.Some? && a.value != "") ==> r == b
  {
    if a.Some? && a.value != "" then a else b
  }

  /** The signed-in owner's profile. */
  datatype User = User(id: string, email: string, name: string, companyName: string, slug: string, nicho: string)

  const BearerPrefix: string := "Bearer "

  /**
   * The authentication context's state; `storedToken` is the session
   * storage entry "token".
   */
  class AuthState {
    var token: Option<string>
    var user: Option<User>
    var error: Option<string>
    var storedToken: Option<string>

    /** On mount the in-memory token is read from session storage. */
    constructor (stored: Option<string>)
      ensures storedToken == stored && token == stored
      ensures user == None && error == None
    {
      storedToken := stored;
      token := stored;
      user := None;
      error := None;
    }

    /** The state after a logout: nothing left. */
    predicate LoggedOut()
      reads this
    {
      token == None && user == None && error == None && storedToken == None
    }

    /** The token `isAuthenticated` checks: the in-memory one first. */
    function CurrentToken(): (t: Option<string>)
      reads this
      ensures token.Some? && token.value != "" ==> t == token
      ensures !(token.Some? && token.value != "") ==> t == storedToken
    {
      OrElse(token, storedToken)
    }

    /** The `Authorization` header the request interceptor sets, if any: the stored token first. */
    function AuthorizationHeader(): (h: Option<string>)
      reads this
      ensures h.Some? <==> (storedToken.Some? && storedToken.value != "") || (token.Some? && token.value != "")
      ensures h.Some? ==> exists t :: h.value == BearerPrefix + t && t != "" && (OrElse(storedToken, token) == Some(t))
    {
      var current := OrElse(storedToken, token);
      if current.Some? && current.value != "" then Some(BearerPrefix + current.value) else None
    }

    /** Logout: the stored token, the token, the user and the error are all cleared. */
    method Logout()
      modifies this
      ensures LoggedOut()
      ensures AuthorizationHeader() == None
    {
      storedToken := None;
      token := None;
      user := None;
      error := None;
    }

    /** Saving a token after login: stored and kept in memory. */
    method PersistToken(raw: string)
      modifies this`storedToken, this`token
      ensures storedToken == Some(raw) && token == Some(raw)
      ensures raw != "" ==> AuthorizationHeader() == Some(BearerPrefix + raw)
      ensures raw != "" ==> CurrentToken() == Some(raw)
    {
      storedToken := Some(raw);
      token := Some(raw);
    }

    /**
     * `isAuthenticated`: true and no change when the current token is valid;
     * otherwise a full logout and false.
     */
    method IsAuthenticated(decode: string -> Option<Json>, now: int) returns (ok: bool)
      modifies this
      ensures ok == IsTokenValid(old(CurrentToken()), decode, now)
      ensures ok ==> token == old(token) && user == old(user) && error == old(error) && storedToken == old(storedToken)
      ensures !ok ==> LoggedOut()
    {
      var current := OrElse(token, storedToken);
      var valid := IsTokenValid(current, decode, now);
      if !valid {
        Logout();
        return false;
      }
      return true;
    }

    /** The response interceptor on an error with HTTP status `status` (None: no response). */
    method OnResponseError(status: Option<int>)
      modifies this`storedToken, this`token, this`user
      ensures status == Some(401) ==> storedToken == None && token == None && user == None
      ensures status != Some(401) ==> storedToken == old(storedToken) && token == old(token) && user == old(user)
      ensures status == Some(401) ==> AuthorizationHeader() == None
    {
      if status == Some(401) {
        storedToken := None;
        token := None;
        user := None;
      }
    }
  }
}
