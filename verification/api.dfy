/** The anti-forgery (CSRF) handling of the HTTP client in
    src/services/api.ts: reading a cookie out of `document.cookie`
    (`getCookie`), the request interceptor that copies the `csrftoken` cookie
    into the `X-CSRFToken` header of unsafe requests, and `ensureCsrfToken`,
    which probes three endpoints in turn to make the backend set the cookie.

    The browser's cookie jar (`document.cookie`) and `decodeURIComponent` are
    parameters; what each probe request does is a parameter too. */
module Api {
  import opened Wrappers
  import opened Http
  import opened JsString

  /** The cookie the backend sets and the header it expects it back in. */
  const CsrfCookieName: string := "csrftoken"
  const CsrfHeaderName: string := "X-CSRFToken"

  /** What `decodeURIComponent` makes of its argument: the decoded text, or a
      thrown URIError for a malformed percent-escape. */
  datatype DecodeResult = Decoded(text: string) | Malformed

  type Decoder = string -> DecodeResult

  /** What a call of `getCookie` comes to: it returns a value (possibly the
      empty string), returns null, or throws the URIError of
      `decodeURIComponent`. */
  datatype CookieLookup = Found(value: string) | NotFound | Threw

  /** JavaScript truthiness of `getCookie`'s result: null and the empty
      string are falsy, every other string is truthy. */
  predicate HasToken(l: CookieLookup)
    ensures l.NotFound? || l == Found("") ==> !HasToken(l)
    ensures l.Found? && |l.value| > 0 ==> HasToken(l)
  {
    l.Found? && l.value != ""
  }

  // ---------------------------------------------------------------------
  // getCookie
  // ---------------------------------------------------------------------

  /** The test `cookie.substring(0, name.length + 1) === (name + '=')`. */
  predicate StartsWithName(cookie: string, name: string)
    ensures StartsWithName(cookie, name) ==> |cookie| > |name| && cookie[|name|] == '='
  {
    Take(cookie, |name| + 1) == name + "="
  }

  /** The raw (still encoded) value of the first trimmed segment that starts
      with `name=`: what follows the `=`. */
  function FirstMatch(cookies: seq<string>, name: string): (r: Option<string>)
    ensures r.Some? ==>
            exists k :: 0 <= k < |cookies| && StartsWithName(Trim(cookies[k]), name) &&
                        r.value == Drop(Trim(cookies[k]), |name| + 1)
    decreases |cookies|
  {
    if cookies == [] then None
    else
      var cookie := Trim(cookies[0]);
      if StartsWithName(cookie, name) then Some(Drop(cookie, |name| + 1))
      else FirstMatch(cookies[1..], name)
  }

  /** What `getCookie(name)` returns for the cookie string `jar`. */
  function LookupCookie(jar: string, name: string, decode: Decoder): (r: CookieLookup)
    ensures r.NotFound? <==> FirstMatch(Split(jar, ';'), name).None?
    ensures r.Found? ==> decode(FirstMatch(Split(jar, ';'), name).value) == Decoded(r.value)
    ensures r.Threw? ==> decode(FirstMatch(Split(jar, ';'), name).value) == Malformed
  {
    if jar == "" then NotFound
    else
      match FirstMatch(Split(jar, ';'), name)
      case None => NotFound
      case Some(raw) =>
        match decode(raw)
        case Decoded(v) => Found(v)
        case Malformed => Threw
  }

  /** `getCookie`: walks the `;`-separated segments of the cookie string,
      trims each, and stops at the first that starts with `name=`. */
  method GetCookie(jar: string, name: string, decode: Decoder) returns (cookieValue: CookieLookup)
    ensures cookieValue == LookupCookie(jar, name, decode)
  {
    cookieValue := NotFound;
    if jar != "" {
      var cookies := Split(jar, ';');
      for k := 0 to |cookies|
        invariant cookieValue == NotFound
        invariant FirstMatch(cookies[k..], name) == FirstMatch(cookies, name)
      {
        var cookie := Trim(cookies[k]);
        assert cookies[k..][1..] == cookies[k + 1..];
        if StartsWithName(cookie, name) {
          match decode(Drop(cookie, |name| + 1)) {
            case Decoded(v) =>
              cookieValue := Found(v);
            case Malformed =>
              cookieValue := Threw;
          }
          break;
        }
      }
    }
  }

  /** Matching needs exactly `name` followed by `=`: a longer name that only
      begins with `name` (`csrftoken2=`), or any character in front of it
      (`xcsrftoken=`), does not match. */
  lemma ExactNamePrefix(cookie: string, name: string)
    ensures StartsWithName(cookie, name) <==>
            |cookie| > |name| && cookie[..|name|] == name && cookie[|name|] == '='
  {
    if StartsWithName(cookie, name) {
      assert |Take(cookie, |name| + 1)| == |name| + 1;
      assert cookie[..|name| + 1] == name + "=";
      assert cookie[..|name|] == (name + "=")[..|name|];
    }
    if |cookie| > |name| && cookie[..|name|] == name && cookie[|name|] == '=' {
      assert cookie[..|name| + 1] == cookie[..|name|] + [cookie[|name|]];
    }
  }

  /** `xcsrftoken=…` and `csrftoken2=…` are never taken for `csrftoken`. */
  lemma SimilarNamesDoNotMatch(v: string)
    ensures !StartsWithName("xcsrftoken=" + v, CsrfCookieName)
    ensures !StartsWithName("csrftoken2=" + v, CsrfCookieName)
  {
    ExactNamePrefix("xcsrftoken=" + v, CsrfCookieName);
    ExactNamePrefix("csrftoken2=" + v, CsrfCookieName);
    assert ("xcsrftoken=" + v)[0] == 'x';
    assert ("csrftoken2=" + v)[9] == '2';
  }

  /** No segment matches exactly when the search finds nothing. */
  lemma {:induction false} FirstMatchNone(cookies: seq<string>, name: string)
    ensures FirstMatch(cookies, name).None? <==>
            forall i :: 0 <= i < |cookies| ==> !StartsWithName(Trim(cookies[i]), name)
    decreases |cookies|
  {
    if cookies != [] {
      FirstMatchNone(cookies[1..], name);
      assert forall i :: 1 <= i < |cookies| ==> cookies[i] == cookies[1..][i - 1];
    }
  }

  /** The first segment that matches decides the result; every segment before
      it does not match. */
  lemma {:induction false} FirstMatchAt(cookies: seq<string>, name: string, k: nat)
    requires k < |cookies| && StartsWithName(Trim(cookies[k]), name)
    requires forall j :: 0 <= j < k ==> !StartsWithName(Trim(cookies[j]), name)
    ensures FirstMatch(cookies, name) == Some(Drop(Trim(cookies[k]), |name| + 1))
    decreases k
  {
    if k > 0 {
      assert forall j :: 0 <= j < k - 1 ==> cookies[1..][j] == cookies[j + 1];
      FirstMatchAt(cookies[1..], name, k - 1);
    }
  }

  /** Segments after a match are never looked at. */
  lemma {:induction false} FirstMatchAppend(xs: seq<string>, ys: seq<string>, name: string)
    ensures FirstMatch(xs + ys, name) ==
            if FirstMatch(xs, name).Some? then FirstMatch(xs, name) else FirstMatch(ys, name)
    decreases |xs|
  {
    if xs == [] {
      assert xs + ys == ys;
    } else {
      assert (xs + ys)[0] == xs[0];
      assert (xs + ys)[1..] == xs[1..] + ys;
      FirstMatchAppend(xs[1..], ys, name);
    }
  }

  /** The raw value never contains `;`: the cookie string was split on it. */
  lemma {:induction false} RawValueHasNoSemicolon(cookies: seq<string>, name: string)
    requires forall i :: 0 <= i < |cookies| ==> ';' !in cookies[i]
    ensures FirstMatch(cookies, name).Some? ==> ';' !in FirstMatch(cookies, name).value
    decreases |cookies|
  {
    if cookies != [] {
      var cookie := Trim(cookies[0]);
      if StartsWithName(cookie, name) {
        var raw := Drop(cookie, |name| + 1);
        if ';' in raw {
          assert ';' in cookie;
          TrimKeepsCharacters(cookies[0], ';');
          assert false;
        }
      } else {
        assert forall i :: 0 <= i < |cookies[1..]| ==> cookies[1..][i] == cookies[i + 1];
        RawValueHasNoSemicolon(cookies[1..], name);
      }
    }
  }

  /** The emptiness test in front of the loop changes nothing: the empty
      cookie string splits into one empty segment, which matches no name. */
  lemma EmptyGuardRedundant(jar: string, name: string, decode: Decoder)
    ensures LookupCookie(jar, name, decode) ==
            match FirstMatch(Split(jar, ';'), name)
            case None => NotFound
            case Some(raw) =>
              match decode(raw)
              case Decoded(v) => Found(v)
              case Malformed => Threw
  {
    if jar == "" {
      var pieces := Split(jar, ';');
      assert pieces == [""];
      assert !StartsWithName("", name);
      assert FirstMatch(pieces, name) == FirstMatch(pieces[1..], name);
    }
  }

  /** `getCookie` returns null exactly when no trimmed segment starts with
      `name=`; an empty cookie string has no such segment. */
  lemma LookupNotFound(jar: string, name: string, decode: Decoder)
    ensures var cookies := Split(jar, ';');
            LookupCookie(jar, name, decode) == NotFound <==>
            forall i :: 0 <= i < |cookies| ==> !StartsWithName(Trim(cookies[i]), name)
  {
    EmptyGuardRedundant(jar, name, decode);
    FirstMatchNone(Split(jar, ';'), name);
  }

  /** `getCookie` returns the decoding of what follows `name=` in the first
      matching segment (or throws when that decoding throws), whatever later
      segments hold. */
  lemma LookupFirstMatch(jar: string, name: string, decode: Decoder, k: nat)
    requires k < |Split(jar, ';')| && StartsWithName(Trim(Split(jar, ';')[k]), name)
    requires forall j :: 0 <= j < k ==> !StartsWithName(Trim(Split(jar, ';')[j]), name)
    ensures LookupCookie(jar, name, decode) ==
            match decode(Drop(Trim(Split(jar, ';')[k]), |name| + 1))
            case Decoded(v) => Found(v)
            case Malformed => Threw
  {
    EmptyGuardRedundant(jar, name, decode);
    FirstMatchAt(Split(jar, ';'), name, k);
  }

  /** A later cookie with the same name is ignored: appending segments after
      a matching one does not change the result. */
  lemma LaterSegmentsIgnored(jar: string, more: string, name: string, decode: Decoder)
    requires FirstMatch(Split(jar, ';'), name).Some?
    ensures LookupCookie(jar + ";" + more, name, decode) == LookupCookie(jar, name, decode)
  {
    EmptyGuardRedundant(jar, name, decode);
    EmptyGuardRedundant(jar + ";" + more, name, decode);
    assert jar + ";" + more == jar + [';'] + more;
    SplitAround(jar, ';', more);
    FirstMatchAppend(Split(jar, ';'), Split(more, ';'), name);
  }

  /** The value `getCookie` decodes is the raw remainder after `name=`, so it
      never contains `;` and keeps every further `=`. */
  lemma LookupRawValue(jar: string, name: string)
    ensures FirstMatch(Split(jar, ';'), name).Some? ==>
            ';' !in FirstMatch(Split(jar, ';'), name).value
  {
    SplitPiecesLackSeparator(jar, ';');
    RawValueHasNoSemicolon(Split(jar, ';'), name);
  }

  /** A well-formed pair `name=v` is its own trimmed segment and matches
      `name` with raw value `v`. */
  lemma PairSegment(name: string, v: string)
    requires name == [] || !IsWhitespace(name[0])
    requires v == [] || !IsWhitespace(v[|v| - 1])
    ensures var pair := name + "=" + v;
            Trim(pair) == pair && StartsWithName(pair, name) && Drop(pair, |name| + 1) == v
  {
    var pair := name + "=" + v;
    assert pair[|name|] == '=';
    assert pair[..|name|] == name;
    assert pair[|name| + 1..] == v;
    assert pair[|pair| - 1] == if v == [] then '=' else v[|v| - 1];
    assert pair[0] == if name == [] then '=' else name[0];
    ExactNamePrefix(pair, name);
  }

  /** Writing `name=v` and reading `name` back gives the decoding of `v`,
      `=` characters in `v` included. */
  lemma CookiePairRoundTrip(name: string, v: string, decode: Decoder)
    requires ';' !in name && ';' !in v
    requires name == [] || !IsWhitespace(name[0])
    requires v == [] || !IsWhitespace(v[|v| - 1])
    ensures LookupCookie(name + "=" + v, name, decode) ==
            match decode(v)
            case Decoded(t) => Found(t)
            case Malformed => Threw
  {
    var pair := name + "=" + v;
    assert Split(pair, ';') == [pair] by {
      assert ';' !in pair;
      SplitWithoutSeparator(pair, ';');
    }
    assert FirstMatch([pair], name) == Some(v) by {
      PairSegment(name, v);
    }
    EmptyGuardRedundant(pair, name, decode);
  }

  lemma SpacedPairShape(name: string, v: string)
    ensures " " + name + "=" + v == [' '] + (name + "=" + v)
  {
  }

  /** One space in front of a well-formed pair is trimmed away. */
  lemma SpacedPairSegment(name: string, v: string)
    requires name == [] || !IsWhitespace(name[0])
    requires v == [] || !IsWhitespace(v[|v| - 1])
    ensures FirstMatch([" " + name + "=" + v], name) == Some(v)
  {
    var pair := name + "=" + v;
    var tail := " " + name + "=" + v;
    SpacedPairShape(name, v);
    assert Trim(pair) == pair && StartsWithName(pair, name) && Drop(pair, |name| + 1) == v by {
      PairSegment(name, v);
    }
    TrimLeadingWhitespace(' ', pair);
  }

  /** The usual shape of `document.cookie`, other cookies followed by
      `; name=v`: when none of the others is named `name`, the lookup yields
      the decoding of `v`. */
  lemma CookieAfterOthers(others: string, name: string, v: string, decode: Decoder)
    requires FirstMatch(Split(others, ';'), name) == None
    requires ';' !in name && ';' !in v
    requires name == [] || !IsWhitespace(name[0])
    requires v == [] || !IsWhitespace(v[|v| - 1])
    ensures LookupCookie(others + "; " + name + "=" + v, name, decode) ==
            match decode(v)
            case Decoded(t) => Found(t)
            case Malformed => Threw
  {
    var tail := " " + name + "=" + v;
    var jar := others + "; " + name + "=" + v;
    JarShape(others, name, v);
    OthersThenPair(others, name, v);
    EmptyGuardRedundant(jar, name, decode);
  }

  lemma JarShape(others: string, name: string, v: string)
    ensures others + "; " + name + "=" + v == others + [';'] + (" " + name + "=" + v)
  {
  }

  /** The segments of `others; name=v` end with ` name=v`, which matches. */
  lemma OthersThenPair(others: string, name: string, v: string)
    requires FirstMatch(Split(others, ';'), name) == None
    requires ';' !in name && ';' !in v
    requires name == [] || !IsWhitespace(name[0])
    requires v == [] || !IsWhitespace(v[|v| - 1])
    ensures FirstMatch(Split(others + [';'] + (" " + name + "=" + v), ';'), name) == Some(v)
  {
    var tail := " " + name + "=" + v;
    assert ';' !in tail;
    SplitLastPiece(others, ';', tail);
    SpacedPairSegment(name, v);
    FirstMatchAppend(Split(others, ';'), [tail], name);
  }

  // ---------------------------------------------------------------------
  // The request interceptor
  // ---------------------------------------------------------------------

  /** The methods the interceptor treats as unsafe, compared with `===`. */
  const UnsafeMethods: seq<string> := ["POST", "PUT", "PATCH", "DELETE"]

  /** `config.method?.toUpperCase() || ''`. */
  function NormalizedMethod(httpMethod: Option<string>): (m: string)
    ensures httpMethod.None? ==> m == ""
    ensures httpMethod.Some? ==> |m| == |httpMethod.value|
    ensures forall i :: 0 <= i < |m| ==> !('a' <= m[i] <= 'z')
  {
    match httpMethod
    case None => ""
    case Some(m) => ToUpperCase(m)
  }

  /** Only upper-case names are in the list, so the comparison relies on
      the upper-casing before it. */
  predicate IsUnsafeMethod(httpMethod: string)
    ensures IsUnsafeMethod(httpMethod) ==>
            |httpMethod| >= 3 && forall i :: 0 <= i < |httpMethod| ==> 'A' <= httpMethod[i] <= 'Z'
  {
    httpMethod in UnsafeMethods
  }

  /** What the interceptor does to a request: set `X-CSRFToken` to a token,
      leave the headers as they are, or throw (the cookie lookup threw). */
  datatype HeaderDecision = SetToken(token: string) | LeaveHeaders | Throw

  /** The interceptor's decision for a request with the given method, made
      against the cookie string `jar`. */
  function CsrfHeaderDecision(httpMethod: Option<string>, jar: string, decode: Decoder): (d: HeaderDecision)
    ensures d.SetToken? <==>
            IsUnsafeMethod(NormalizedMethod(httpMethod)) && HasToken(LookupCookie(jar, CsrfCookieName, decode))
    ensures d.SetToken? ==> d.token != "" && LookupCookie(jar, CsrfCookieName, decode) == Found(d.token)
    ensures d.Throw? <==>
            IsUnsafeMethod(NormalizedMethod(httpMethod)) && LookupCookie(jar, CsrfCookieName, decode).Threw?
    ensures httpMethod.None? ==> d == LeaveHeaders
  {
    if IsUnsafeMethod(NormalizedMethod(httpMethod)) then
      match LookupCookie(jar, CsrfCookieName, decode)
      case Found(token) => if token != "" then SetToken(token) else LeaveHeaders
      case NotFound => LeaveHeaders
      case Threw => Throw
    else LeaveHeaders
  }

  /** The lower-case spellings axios uses are unsafe too; the read-only
      methods are safe. */
  lemma MethodCase()
    ensures IsUnsafeMethod(NormalizedMethod(Some("post")))
    ensures IsUnsafeMethod(NormalizedMethod(Some("put")))
    ensures IsUnsafeMethod(NormalizedMethod(Some("patch")))
    ensures IsUnsafeMethod(NormalizedMethod(Some("delete")))
    ensures !IsUnsafeMethod(NormalizedMethod(Some("get")))
    ensures !IsUnsafeMethod(NormalizedMethod(Some("head")))
    ensures !IsUnsafeMethod(NormalizedMethod(Some("options")))
    ensures !IsUnsafeMethod(NormalizedMethod(None))
  {
    UpperCaseOf("post", "POST");
    UpperCaseOf("put", "PUT");
    UpperCaseOf("patch", "PATCH");
    UpperCaseOf("delete", "DELETE");
    UpperCaseOf("get", "GET");
    UpperCaseOf("head", "HEAD");
    UpperCaseOf("options", "OPTIONS");
  }

  /** The part of an axios request config the interceptor reads and writes. */
  class RequestConfig {
    var httpMethod: Option<string>
    var headers: map<string, string>
  }

  /** How the interceptor hands the request on: the (updated) config goes
      ahead, or the request is rejected with the error the interceptor threw. */
  datatype Interception = Forward | Reject(error: ApiError)

  /** The request interceptor: for an unsafe method it looks the token up and,
      when it is non-empty, sets the `X-CSRFToken` header in place. */
  method RequestInterceptor(config: RequestConfig, jar: string, decode: Decoder) returns (r: Interception)
    modifies config
    ensures config.httpMethod == old(config.httpMethod)
    ensures match CsrfHeaderDecision(old(config.httpMethod), jar, decode)
            case SetToken(t) => r == Forward && config.headers == old(config.headers)[CsrfHeaderName := t]
            case LeaveHeaders => r == Forward && config.headers == old(config.headers)
            case Throw => r == Reject(UriError) && config.headers == old(config.headers)
  {
    var verb := NormalizedMethod(config.httpMethod);
    if verb in UnsafeMethods {
      var csrfToken := GetCookie(jar, CsrfCookieName, decode);
      if csrfToken.Threw? {
        return Reject(UriError);
      }
      if HasToken(csrfToken) {
        config.headers := config.headers[CsrfHeaderName := csrfToken.value];
      }
    }
    r := Forward;
  }

  // ---------------------------------------------------------------------
  // ensureCsrfToken
  // ---------------------------------------------------------------------

  /** The endpoints of the secondary client that `ensureCsrfToken` requests,
      only so that the backend sets the cookie. */
  datatype Probe = CsrfEndpoint | ApiRoot | AuthUser

  function ProbePath(p: Probe): string {
    match p
    case CsrfEndpoint => "/csrf/"
    case ApiRoot => "/api/v1/"
    case AuthUser => "/api/v1/auth/user/"
  }

  /** The fixed fallback order of the probes. */
  const ProbeOrder: seq<Probe> := [CsrfEndpoint, ApiRoot, AuthUser]

  /** The probes requested when each is tried in `order` until one succeeds;
      `responds(p)` says whether the request to `p` succeeds. */
  function ProbesUntilSuccess(order: seq<Probe>, responds: Probe -> bool): (tried: seq<Probe>)
    ensures |tried| <= |order|
    ensures order != [] ==> tried != [] && tried[0] == order[0]
    decreases |order|
  {
    if order == [] then []
    else [order[0]] + if responds(order[0]) then [] else ProbesUntilSuccess(order[1..], responds)
  }

  /** The probes go in the given order, every one but the last failed, and the
      sequence ends early only at a success; when none succeeds all are tried. */
  lemma {:induction false} ProbesStopAtFirstSuccess(order: seq<Probe>, responds: Probe -> bool)
    ensures var tried := ProbesUntilSuccess(order, responds);
            |tried| <= |order| && tried == order[..|tried|] &&
            (order != [] ==> tried != []) &&
            (forall i :: 0 <= i < |tried| - 1 ==> !responds(tried[i])) &&
            (|tried| < |order| ==> responds(tried[|tried| - 1])) &&
            ((forall i :: 0 <= i < |order| ==> !responds(order[i])) ==> tried == order)
    decreases |order|
  {
    if order != [] {
      ProbesStopAtFirstSuccess(order[1..], responds);
      var rest := ProbesUntilSuccess(order[1..], responds);
      var tried := ProbesUntilSuccess(order, responds);
      if !responds(order[0]) {
        assert tried == [order[0]] + rest;
        assert forall i :: 0 < i < |tried| ==> tried[i] == rest[i - 1];
        assert order == [order[0]] + order[1..];
        assert (forall i :: 0 <= i < |order| ==> !responds(order[i])) ==>
               (forall i :: 0 <= i < |order[1..]| ==> !responds(order[1..][i]));
      }
    }
  }

  /** The paths `ensureCsrfToken` requests, in the order it tries them. */
  const ProbePaths: seq<string> := ["/csrf/", "/api/v1/", "/api/v1/auth/user/"]

  /** The requests go to `/csrf/`, then `/api/v1/`, then `/api/v1/auth/user/`,
      stopping after the first that succeeds. */
  lemma ProbedPaths(responds: Probe -> bool)
    ensures var tried := ProbesUntilSuccess(ProbeOrder, responds);
            1 <= |tried| <= |ProbePaths| &&
            forall i :: 0 <= i < |tried| ==> ProbePath(tried[i]) == ProbePaths[i]
  {
    var tried := ProbesUntilSuccess(ProbeOrder, responds);
    ProbesStopAtFirstSuccess(ProbeOrder, responds);
    forall i | 0 <= i < |tried| ensures ProbePath(tried[i]) == ProbePaths[i] {
      assert tried[i] == ProbeOrder[i];
    }
  }

  /** `ensureCsrfToken`: when the token cookie is missing or empty, request
      the probes in order until one succeeds; the failure of all three is
      caught. The first cookie lookup is outside the `try`, so a URIError
      from it rejects the call. Returns the probes requested, in order. */
  method EnsureCsrfToken(jar: string, decode: Decoder, responds: Probe -> bool)
    returns (issued: seq<Probe>, r: Completion)
    ensures r.Rejected? <==> LookupCookie(jar, CsrfCookieName, decode).Threw?
    ensures r.Rejected? ==> r.error == UriError
    ensures issued ==
            if HasToken(LookupCookie(jar, CsrfCookieName, decode)) || r.Rejected? then []
            else ProbesUntilSuccess(ProbeOrder, responds)
  {
    issued := [];
    var existingToken := GetCookie(jar, CsrfCookieName, decode);
    if existingToken.Threw? {
      return [], Rejected(UriError);
    }
    if !HasToken(existingToken) {
      issued := issued + [CsrfEndpoint];
      if !responds(CsrfEndpoint) {
        issued := issued + [ApiRoot];
        if !responds(ApiRoot) {
          // the third probe is outside the inner handlers: its failure
          // reaches the outer `catch`, which only logs it
          issued := issued + [AuthUser];
        }
      }
    }
    r := Resolved;
    ProbeOrderUnfolded(responds);
  }

  /** The fallback chain written out: each probe is requested only when all
      before it failed. */
  lemma ProbeOrderUnfolded(responds: Probe -> bool)
    ensures ProbesUntilSuccess(ProbeOrder, responds) ==
            if responds(CsrfEndpoint) then [CsrfEndpoint]
            else if responds(ApiRoot) then [CsrfEndpoint, ApiRoot]
            else [CsrfEndpoint, ApiRoot, AuthUser]
  {
    assert ProbeOrder[1..] == [ApiRoot, AuthUser];
    assert ProbeOrder[1..][1..] == [AuthUser];
    assert ProbeOrder[1..][1..][1..] == [];
  }
}
