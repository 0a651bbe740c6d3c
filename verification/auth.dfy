/**
 * The mock authentication service: the credential check of `login`, the cookie it
 * writes, and reading the token back out of the cookie string.
 */
module Auth {
  import opened Wrappers
  import opened JsStrings
  import Sequences

  const MockEmail := "test@example.com"
  const MockPassword := "123456"
  /** The mock token, written in three pieces short enough to inspect character by character. */
  const MockJwt := JwtHeader + "." + JwtPayloadHead + JwtPayloadTail
  const JwtHeader := "eyJhbGciOiJIUzI1NiIsInR5cCI6IkpXVCJ9"
  const JwtPayloadHead := "eyJzdWIiOiIxMjM0NTY3ODkwIiwibmFtZSI6"
  const JwtPayloadTail := "IkpvaG4gRG9lIiwiaWF0IjoxNTE2MjM5MDIyfQ"
  const LoginError := "E-mail ou senha inválidos"

  /** The attributes `login` appends to the token when it writes the cookie. */
  const CookieAttributes := [" path=/", " max-age=86400", " secure", " samesite=strict"]

  /**
   * The cookie string `login` writes on success,
   * `jwt=<token>; path=/; max-age=86400; secure; samesite=strict`.
   */
  const LoginCookie := Join(["jwt=" + MockJwt] + CookieAttributes, ';')

  /**
   * The cookie string `logout` writes,
   * `jwt=; path=/; expires=Thu, 01 Jan 1970 00:00:01 GMT;`: an empty token and,
   * after the trailing `;`, an empty last segment.
   */
  const LogoutCookie := Join(["jwt="] + LogoutAttributes, ';')
  const LogoutAttributes := [" path=/", " expires=Thu, 01 Jan 1970 00:00:01 GMT", ""]

  /**
   * `login` after its simulated delay: only the one mock e-mail and password pair
   * succeeds, and it writes the mock token cookie; every other pair is refused.
   */
  function Login(email: string, password: string): (r: Result<string, string>)
    ensures r.Success? <==> email == MockEmail && password == MockPassword
    ensures r.Success? ==> r.value == LoginCookie
    ensures r.Failure? ==> r.error == LoginError
  {
    if email == MockEmail && password == MockPassword then Success(LoginCookie) else Failure(LoginError)
  }

  /** A `;`-separated segment that, once trimmed, starts with `jwt=`. */
  predicate IsJwtSegment(segment: string) {
    StartsWith(Trim(segment), "jwt=")
  }

  lemma JwtSegmentHasEquals(segment: string)
    requires IsJwtSegment(segment)
    ensures '=' in segment
  {
    SegmentHoldsJwt(segment);
    var i := |segment| - |TrimStart(segment)|;
    assert segment[i + 3] == "jwt="[3];
  }

  /** The position of the first token segment, if there is one. */
  function FirstJwtSegment(segments: seq<string>): (r: Option<nat>)
    ensures r.None? <==> forall i :: 0 <= i < |segments| ==> !IsJwtSegment(segments[i])
    ensures r.Some? ==> r.value < |segments| && IsJwtSegment(segments[r.value])
    ensures r.Some? ==> forall j :: 0 <= j < r.value ==> !IsJwtSegment(segments[j])
  {
    Sequences.FindIndex(segments, (s: string) => IsJwtSegment(s))
  }

  /** The text between the first and the second `=` of a token segment. */
  function TokenOf(segment: string): (r: string)
    requires IsJwtSegment(segment)
    ensures |Split(segment, '=')| >= 2 && r == Split(segment, '=')[1]
    ensures ';' !in segment ==> ';' !in r
    ensures '=' !in r
  {
    JwtSegmentHasEquals(segment);
    var pieces := Split(segment, '=');
    SplitPieceChars(segment, '=', 1, ';');
    pieces[1]
  }

  /**
   * The token found among the `;`-separated segments of a cookie string: the first
   * segment that, trimmed, starts with `jwt=` is split at `=` and its second piece,
   * the text between the first and the second `=`, is the token; with no such
   * segment there is no token.
   */
  function TokenIn(segments: seq<string>): (r: Option<string>)
    ensures r.None? <==> forall i :: 0 <= i < |segments| ==> !IsJwtSegment(segments[i])
    ensures r.Some? ==> '=' !in r.value
    ensures (forall i :: 0 <= i < |segments| ==> ';' !in segments[i]) && r.Some? ==> ';' !in r.value
  {
    match FirstJwtSegment(segments)
    case None => None
    case Some(i) => Some(TokenOf(segments[i]))
  }

  /**
   * When several segments are token segments the first one wins: its text between
   * the first and the second `=` is the token.
   */
  lemma FirstTokenSegmentWins(segments: seq<string>, i: nat)
    requires i < |segments| && IsJwtSegment(segments[i])
    requires forall j :: 0 <= j < i ==> !IsJwtSegment(segments[j])
    ensures |Split(segments[i], '=')| >= 2
    ensures TokenIn(segments) == Some(Split(segments[i], '=')[1])
  {
    var k := FirstJwtSegment(segments);
    assert k == Some(i);
    assert TokenIn(segments) == Some(TokenOf(segments[i]));
  }

  /** `getAuthToken`: the token among the segments of the cookie string split at `;`. */
  function GetAuthToken(cookie: string): (r: Option<string>)
    ensures r.None? <==> NoJwtSegment(Split(cookie, ';'))
    ensures r.Some? ==> ';' !in r.value && '=' !in r.value
  {
    var parts := Split(cookie, ';');
    assert TokenIn(parts).None? <==> NoJwtSegment(parts);
    TokenIn(parts)
  }

  /** No segment is a token segment. */
  predicate NoJwtSegment(segments: seq<string>) {
    forall i :: 0 <= i < |segments| ==> !IsJwtSegment(segments[i])
  }

  /**
   * `isAuthenticated`: `!!` of the token, so signed in exactly when a token was found
   * and it is not the empty text. A signed-in cookie always passes the route guard.
   */
  function IsAuthenticated(cookie: string): (r: bool)
    ensures r <==> GetAuthToken(cookie).Some? && GetAuthToken(cookie).value != ""
    ensures r ==> GetAuthToken(cookie).Some? && RouteGuardSeesToken(cookie)
    ensures GetAuthToken(cookie) == Some("") ==> !r
  {
    var token := GetAuthToken(cookie);
    if token.Some? then
      TokenPassesRouteGuard(cookie);
      token.value != ""
    else false
  }

  /** The route guard's own test: `jwt=` occurs somewhere in the cookie string. */
  function RouteGuardSeesToken(cookie: string): (r: bool)
    ensures r <==> exists i :: OccursAt(cookie, "jwt=", i)
  {
    IncludesIsOccurrence(cookie, "jwt=");
    Includes(cookie, "jwt=")
  }

  /**
   * Whenever `getAuthToken` finds a token, the cookie string holds `jwt=` (inside the
   * token segment), so the route guard lets it through.
   */
  lemma TokenPassesRouteGuard(cookie: string)
    requires GetAuthToken(cookie).Some?
    ensures exists i :: OccursAt(cookie, "jwt=", i)
  {
    var parts := Split(cookie, ';');
    assert TokenIn(parts).Some?;
    var k := FirstJwtSegment(parts).value;
    var i := |parts[k]| - |TrimStart(parts[k])|;
    SegmentHoldsJwt(parts[k]);
    OccursInPiece(cookie, ';', k, "jwt=", i);
  }

  /** A token segment holds `jwt=` where its leading white space ends. */
  lemma SegmentHoldsJwt(segment: string)
    requires IsJwtSegment(segment)
    ensures OccursAt(segment, "jwt=", |segment| - |TrimStart(segment)|)
  {
    TrimmedPrefixOccurs(segment, "jwt=");
  }

  /** A cookie starting with `jwt=` is a token segment, whatever follows the `=`. */
  lemma {:induction false} JwtPrefixIsSegment(token: string)
    ensures IsJwtSegment("jwt=" + token)
  {
    var s := "jwt=" + token;
    assert !IsSpace(s[0]);
    assert TrimStart(s) == s;
    var r := TrimEnd(s);
    assert !IsSpace(s[3]);
    assert |r| >= 4;
    assert r[..4] == s[..4] == "jwt=";
  }

  /** The token segment `jwt=<token>` gives back `<token>` when it holds no `=`. */
  lemma TokenOfPrefixed(token: string)
    requires '=' !in token
    ensures IsJwtSegment("jwt=" + token) && TokenOf("jwt=" + token) == token
  {
    JwtPrefixIsSegment(token);
    assert "jwt=" + token == "jwt" + ['='] + token;
    SplitAfterPiece("jwt", '=', token);
    SplitWithoutSeparator(token, '=');
  }

  /**
   * Reading back a cookie written as `jwt=<token>` followed by `;`-separated
   * attributes gives the token, as long as it holds no `;` and no `=`.
   */
  lemma WrittenTokenReadsBack(token: string, attributes: seq<string>)
    requires ';' !in token && '=' !in token
    requires forall i :: 0 <= i < |attributes| ==> ';' !in attributes[i]
    ensures GetAuthToken(Join(["jwt=" + token] + attributes, ';')) == Some(token)
  {
    var parts := ["jwt=" + token] + attributes;
    WrittenSegmentsAreFree(token, attributes);
    SplitJoin(parts, ';');
    TokenOfPrefixed(token);
    FirstTokenSegmentWins(parts, 0);
  }

  lemma WrittenSegmentsAreFree(token: string, attributes: seq<string>)
    requires ';' !in token
    requires forall i :: 0 <= i < |attributes| ==> ';' !in attributes[i]
    ensures var parts := ["jwt=" + token] + attributes;
      |parts| >= 1 && parts[0] == "jwt=" + token && forall i :: 0 <= i < |parts| ==> ';' !in parts[i]
  {
    var parts := ["jwt=" + token] + attributes;
    assert ';' !in "jwt=";
    forall i | 0 <= i < |parts|
      ensures ';' !in parts[i]
    {
      if i > 0 {
        assert parts[i] == attributes[i - 1];
      }
    }
  }

  // The mock token holds neither `=` nor `;`, checked one piece and one character at a time.
  lemma HeaderHasNoEquals() ensures '=' !in JwtHeader {}
  lemma HeaderHasNoSemicolon() ensures ';' !in JwtHeader {}
  lemma PayloadHeadHasNoEquals() ensures '=' !in JwtPayloadHead {}
  lemma PayloadHeadHasNoSemicolon() ensures ';' !in JwtPayloadHead {}
  lemma PayloadTailHasNoEquals() ensures '=' !in JwtPayloadTail {}
  lemma PayloadTailHasNoSemicolon() ensures ';' !in JwtPayloadTail {}

  /** Round trip: reading the cookie `login` writes gives the mock token, which signs the user in. */
  lemma LoginCookieReadsBack()
    ensures GetAuthToken(LoginCookie) == Some(MockJwt)
    ensures IsAuthenticated(LoginCookie)
  {
    HeaderHasNoEquals();
    HeaderHasNoSemicolon();
    PayloadHeadHasNoEquals();
    PayloadHeadHasNoSemicolon();
    PayloadTailHasNoEquals();
    PayloadTailHasNoSemicolon();
    WrittenTokenReadsBack(MockJwt, CookieAttributes);
  }

  lemma LogoutAttributesAreSegments()
    ensures forall i :: 0 <= i < |LogoutAttributes| ==> ';' !in LogoutAttributes[i]
  {
    assert ';' !in LogoutAttributes[1];
  }

  /** An empty token, whatever attributes follow it, does not sign the user in. */
  lemma EmptyTokenIsNotAuthenticated(attributes: seq<string>)
    requires forall i :: 0 <= i < |attributes| ==> ';' !in attributes[i]
    ensures GetAuthToken(Join(["jwt="] + attributes, ';')) == Some("")
    ensures !IsAuthenticated(Join(["jwt="] + attributes, ';'))
  {
    assert "jwt=" + "" == "jwt=";
    WrittenTokenReadsBack("", attributes);
    var cookie := Join(["jwt="] + attributes, ';');
    assert GetAuthToken(cookie) == Some("");
  }

  /** Reading the cookie `logout` writes gives the empty token, which does not sign the user in. */
  lemma LogoutCookieSignsOut()
    ensures GetAuthToken(LogoutCookie) == Some("")
    ensures !IsAuthenticated(LogoutCookie)
  {
    LogoutAttributesAreSegments();
    EmptyTokenIsNotAuthenticated(LogoutAttributes);
  }

  /** Of several token segments the first one wins. */
  lemma FirstTokenWins(first: string, second: string)
    requires ';' !in first && '=' !in first && ';' !in second
    ensures GetAuthToken(Join(["jwt=" + first, " jwt=" + second], ';')) == Some(first)
  {
    var attributes := [" jwt=" + second];
    assert ';' !in " jwt=";
    assert forall i :: 0 <= i < |attributes| ==> ';' !in attributes[i];
    WrittenTokenReadsBack(first, attributes);
  }

  lemma SplitCutToken(token: string, rest: string)
    requires '=' !in token
    ensures Split("jwt=" + token + "=" + rest, '=') == ["jwt", token] + Split(rest, '=')
  {
    assert "jwt=" + token + "=" + rest == "jwt" + ['='] + (token + ['='] + rest);
    SplitAfterPiece("jwt", '=', token + ['='] + rest);
    SplitAfterPiece(token, '=', rest);
  }

  /** A token holding `=` is cut at it: only the text up to the second `=` is kept. */
  lemma TokenIsCutAtEquals(token: string, rest: string)
    requires ';' !in token && '=' !in token && ';' !in rest
    ensures GetAuthToken("jwt=" + token + "=" + rest) == Some(token)
  {
    var cookie := "jwt=" + token + "=" + rest;
    SplitWithoutSeparator(cookie, ';');
    assert cookie == "jwt=" + (token + "=" + rest);
    JwtPrefixIsSegment(token + "=" + rest);
    SplitCutToken(token, rest);
    FirstTokenSegmentWins([cookie], 0);
    assert Split(cookie, ';') == [cookie];
  }

  /** A segment whose first character is neither blank nor `j` is not a token segment. */
  lemma NotJwtSegment(segment: string)
    requires |segment| > 0 && !IsSpace(segment[0]) && segment[0] != 'j'
    ensures !IsJwtSegment(segment)
  {
    assert TrimStart(segment) == segment;
  }

  /**
   * The route guard is looser than `isAuthenticated`: a cookie string holding `jwt=`
   * anywhere but at the start of a segment passes the guard yet carries no token.
   */
  lemma RouteGuardIsLooser(prefix: char, rest: string)
    requires !IsSpace(prefix) && prefix != 'j' && prefix != ';' && ';' !in rest
    ensures RouteGuardSeesToken([prefix] + "jwt=" + rest)
    ensures GetAuthToken([prefix] + "jwt=" + rest) == None
    ensures !IsAuthenticated([prefix] + "jwt=" + rest)
  {
    var cookie := [prefix] + "jwt=" + rest;
    assert cookie[1..] == "jwt=" + rest;
    assert StartsWith(cookie[1..], "jwt=");
    SplitWithoutSeparator(cookie, ';');
    NotJwtSegment(cookie);
  }
}
