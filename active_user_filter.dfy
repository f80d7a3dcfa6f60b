/**
 * ActiveUserFilter of the participant manager service: a servlet filter that
 * lets a request through unless it targets a protected (path, method) pair, in
 * which case the user named by the user-id header must exist and be active.
 *
 * The user repository is a map from user id to the account's active flag; the
 * HTTP status of each error code is a function given to the filter, and the
 * filter's effect on a request is its outcome: forwarded to the rest of the
 * chain, or answered with an error response.
 */
module UserFilter {
  import opened Wrappers
  import Strings

  /** The two error codes the filter can answer with. */
  datatype ErrorCode = UserNotExists | UserNotActive

  /** What the filter reads of a request: its method, its URI and the user-id header. */
  datatype Request = Request(httpMethod: string, requestUri: string, userIdHeader: Option<string>)

  /**
   * Forwarded: the chain goes on. ErrorResponse: the status, content type and
   * body code written to the response. LookupFailed: the repository refused the
   * lookup (a request without the user-id header looks up a null id).
   */
  datatype FilterOutcome =
    | Forwarded
    | ErrorResponse(status: int, contentType: string, code: ErrorCode)
    | LookupFailed

  const ApplicationJson: string := "application/json"
  const Post: string := "POST"

  /**
   * checkPathMatches for a literal URI template, parsed with the optional
   * trailing separator enabled: the path is the template, or the template
   * followed by one "/".
   */
  predicate PathMatches(uriTemplate: string, path: string): (matches: bool)
    ensures matches <==> uriTemplate <= path && (|path| == |uriTemplate| || path[|uriTemplate|..] == "/")
  {
    assert uriTemplate <= path && path[|uriTemplate|..] == "/" ==> path == uriTemplate + path[|uriTemplate|..];
    path == uriTemplate || path == uriTemplate + "/"
  }

  /** Some entry of the table lists the request's upper-cased method and its template matches the path. */
  predicate Protected(table: map<string, seq<string>>, req: Request) {
    exists t :: t in table && Strings.ToUpper(req.httpMethod) in table[t] && PathMatches(t, req.requestUri)
  }

  /** The table that init() builds on an empty map. */
  function InitTable(contextPath: string): map<string, seq<string>> {
    map[contextPath + "/locations" := [Post]]
  }

  class ActiveUserFilter {
    var uriTemplateAndMethods: map<string, seq<string>>
    const contextPath: string
    const errorStatus: ErrorCode -> int

    constructor (contextPath: string, errorStatus: ErrorCode -> int)
      ensures uriTemplateAndMethods == map[]
      ensures this.contextPath == contextPath && this.errorStatus == errorStatus
    {
      uriTemplateAndMethods := map[];
      this.contextPath := contextPath;
      this.errorStatus := errorStatus;
    }

    /** init(): protects POST on the context's locations endpoint. */
    method Init()
      modifies this`uriTemplateAndMethods
      ensures uriTemplateAndMethods == old(uriTemplateAndMethods)[contextPath + "/locations" := [Post]]
    {
      uriTemplateAndMethods := uriTemplateAndMethods[contextPath + "/locations" := [Post]];
    }

    /** validatePathAndHttpMethod: an early-return search over the table's entries. */
    method ValidatePathAndHttpMethod(req: Request) returns (b: bool)
      ensures b <==> Protected(uriTemplateAndMethods, req)
    {
      var upperMethod := Strings.ToUpper(req.httpMethod);
      var remaining := uriTemplateAndMethods.Keys;
      while remaining != {}
        invariant remaining <= uriTemplateAndMethods.Keys
        invariant forall t :: t in uriTemplateAndMethods && t !in remaining ==>
                    !(upperMethod in uriTemplateAndMethods[t] && PathMatches(t, req.requestUri))
        decreases remaining
      {
        var t :| t in remaining;
        if upperMethod in uriTemplateAndMethods[t] && PathMatches(t, req.requestUri) {
          return true;
        }
        remaining := remaining - {t};
      }
      return false;
    }

    /** setErrorResponse: the code's status, a JSON content type and the code as body. */
    method SetErrorResponse(ec: ErrorCode) returns (outcome: FilterOutcome)
      ensures outcome.ErrorResponse? && outcome.code == ec
      ensures outcome.status == errorStatus(ec) && outcome.contentType == ApplicationJson
    {
      outcome := ErrorResponse(errorStatus(ec), ApplicationJson, ec);
    }

    /**
     * doFilter against a repository `users` (id to active flag): unprotected
     * requests go through without a lookup; a protected one goes through only
     * when its user exists and is active, and is otherwise answered with
     * USER_NOT_EXISTS or USER_NOT_ACTIVE.
     */
    method DoFilter(req: Request, users: map<string, bool>) returns (outcome: FilterOutcome)
      ensures !Protected(uriTemplateAndMethods, req) ==> outcome == Forwarded
      ensures Protected(uriTemplateAndMethods, req) && req.userIdHeader.None? ==> outcome == LookupFailed
      ensures Protected(uriTemplateAndMethods, req) && req.userIdHeader.Some? && req.userIdHeader.value !in users ==>
                outcome == ErrorResponse(errorStatus(UserNotExists), ApplicationJson, UserNotExists)
      ensures Protected(uriTemplateAndMethods, req) && req.userIdHeader.Some? && req.userIdHeader.value in users
              && !users[req.userIdHeader.value] ==>
                outcome == ErrorResponse(errorStatus(UserNotActive), ApplicationJson, UserNotActive)
      ensures outcome == Forwarded <==>
                !Protected(uriTemplateAndMethods, req)
                || (req.userIdHeader.Some? && req.userIdHeader.value in users && users[req.userIdHeader.value])
    {
      var protected := ValidatePathAndHttpMethod(req);
      if protected {
        if req.userIdHeader.None? {
          // the repository rejects a null id
          return LookupFailed;
        }
        var userId := req.userIdHeader.value;
        var ec: Option<ErrorCode> := if userId !in users then Some(UserNotExists) else None;
        if userId in users {
          ec := if !users[userId] then Some(UserNotActive) else None;
        }
        if ec.Some? {
          outcome := SetErrorResponse(ec.value);
        } else {
          outcome := Forwarded;
        }
      } else {
        outcome := Forwarded;
      }
    }
  }

  /**
   * After init() on an empty table, exactly POST requests (in any letter case)
   * on the locations endpoint, with or without a trailing "/", are protected.
   */
  lemma InitProtectsLocationsPost(contextPath: string, req: Request)
    ensures Protected(InitTable(contextPath), req)
            <==> Strings.ToUpper(req.httpMethod) == Post
                 && (req.requestUri == contextPath + "/locations" || req.requestUri == contextPath + "/locations/")
  {
    var t := contextPath + "/locations";
    if Strings.ToUpper(req.httpMethod) == Post && PathMatches(t, req.requestUri) {
      assert t in InitTable(contextPath);
    }
  }

  /** The method is compared upper-cased: upper-casing it first changes nothing. */
  lemma MethodCaseInsensitive(table: map<string, seq<string>>, req: Request)
    ensures Protected(table, req) <==> Protected(table, req.(httpMethod := Strings.ToUpper(req.httpMethod)))
  {
    Strings.ToUpperIdempotent(req.httpMethod);
  }

  /** A lower-case "post" on the locations endpoint is protected after init(). */
  lemma LowerCasePostProtected(contextPath: string, userIdHeader: Option<string>)
    ensures Protected(InitTable(contextPath), Request("post", contextPath + "/locations/", userIdHeader))
  {
    assert Strings.ToUpper("post") == Post by {
      assert Strings.ToUpper("t") == "T";
      assert Strings.ToUpper("st") == "ST";
      assert Strings.ToUpper("ost") == "OST";
    }
    InitProtectsLocationsPost(contextPath, Request("post", contextPath + "/locations/", userIdHeader));
  }

  /** A GET on the protected endpoint is not protected: it is forwarded without a lookup. */
  lemma GetNotProtected(contextPath: string, userIdHeader: Option<string>)
    ensures !Protected(InitTable(contextPath), Request("GET", contextPath + "/locations", userIdHeader))
  {
    assert Strings.ToUpper("GET") == "GET" by {
      assert Strings.ToUpper("T") == "T";
      assert Strings.ToUpper("ET") == "ET";
    }
    InitProtectsLocationsPost(contextPath, Request("GET", contextPath + "/locations", userIdHeader));
  }
}
