/**
 * The API gateway's shared-secret check (services/api_gateway/auth.py).
 *
 * A request path is either public, and passes without a key, or protected,
 * and must carry an `X-API-Key` header equal to the configured key. The
 * configured key, read from the environment by the service, is a parameter
 * here; logging is left out.
 */
module Auth {
  import opened Wrappers
  import opened Http

  /** Paths that are public by exact match. */
  const PublicEndpoints: set<string> := {"/health", "/metrics", "/docs", "/openapi.json", "/redoc"}

  /** The documentation UI's paths, public by prefix. */
  const DocsPrefixes: seq<string> := ["/docs", "/redoc", "/openapi"]

  /** Python's str.startswith. */
  predicate StartsWith(s: string, prefix: string)
  {
    |prefix| <= |s| && s[..|prefix|] == prefix
  }

  /**
   * A path is public when it is one of the five listed endpoints or begins
   * with one of the documentation prefixes. Since "/docs", "/redoc" and
   * "/openapi.json" already begin with a prefix, the exact set only adds
   * "/health" and "/metrics", which match exactly and nothing below them.
   */
  function IsPublicEndpoint(path: string): (public: bool)
    ensures public <==>
              path == "/health" || path == "/metrics" ||
              StartsWith(path, "/docs") || StartsWith(path, "/redoc") || StartsWith(path, "/openapi")
  {
    if path in PublicEndpoints then
      true
    else if StartsWith(path, DocsPrefixes[0]) || StartsWith(path, DocsPrefixes[1]) || StartsWith(path, DocsPrefixes[2]) then
      true
    else
      false
  }

  /** The 401 answer for a protected path without a key. */
  const MissingKey: HttpError :=
    HttpError(401, "API key required. Include 'X-API-Key' header.", map["WWW-Authenticate" := "ApiKey"])

  /** The 403 answer for a protected path with a wrong key. */
  const InvalidKey: HttpError := HttpError(403, "Invalid API key", map[])

  datatype AuthOutcome = Accepted | Rejected(error: HttpError)

  /**
   * verify_api_key: public paths pass whatever the header holds; on a
   * protected path an absent or empty header is a 401 and any other value
   * than the exact (case-sensitive) key is a 403. The 401 test comes first,
   * so an empty header is never compared with the key.
   */
  function VerifyApiKey(path: string, header: Option<string>, apiKey: string): (r: AuthOutcome)
    ensures IsPublicEndpoint(path) ==> r == Accepted
    ensures !IsPublicEndpoint(path) && (header == None || header == Some("")) ==> r == Rejected(MissingKey)
    ensures !IsPublicEndpoint(path) && header.Some? && header.value != "" && header.value != apiKey ==>
              r == Rejected(InvalidKey)
    ensures r == Accepted <==> IsPublicEndpoint(path) || (header == Some(apiKey) && apiKey != "")
  {
    if IsPublicEndpoint(path) then
      Accepted
    else
      match header
      case None => Rejected(MissingKey)
      case Some(key) =>
        if key == "" then Rejected(MissingKey)
        else if key != apiKey then Rejected(InvalidKey)
        else Accepted
  }

  /** The three answers are exhaustive and distinct: pass, 401 with the challenge header, or 403. */
  lemma OutcomesExhaustive(path: string, header: Option<string>, apiKey: string)
    ensures var r := VerifyApiKey(path, header, apiKey);
            r == Accepted || r == Rejected(MissingKey) || r == Rejected(InvalidKey)
    ensures VerifyApiKey(path, header, apiKey).Rejected? ==>
              VerifyApiKey(path, header, apiKey).error.status in {401, 403}
    ensures VerifyApiKey(path, header, apiKey).Rejected? ==>
              (VerifyApiKey(path, header, apiKey).error.status == 401 <==>
               "WWW-Authenticate" in VerifyApiKey(path, header, apiKey).error.headers)
  {
  }

  /** The listed endpoints and paths below the documentation prefixes are public. */
  lemma PublicPathExamples()
    ensures forall p :: p in PublicEndpoints ==> IsPublicEndpoint(p)
    ensures IsPublicEndpoint("/docs/oauth2-redirect") && IsPublicEndpoint("/docsXYZ")
    ensures IsPublicEndpoint("/openapi.yaml") && IsPublicEndpoint("/redoc/static")
  {
    assert "/docs/oauth2-redirect"[..5] == "/docs";
    assert "/docsXYZ"[..5] == "/docs";
    assert "/openapi.yaml"[..8] == "/openapi";
    assert "/redoc/static"[..6] == "/redoc";
  }

  /** "/health" and "/metrics" match exactly only; other paths, and other letter cases, are protected. */
  lemma ProtectedPathExamples()
    ensures !IsPublicEndpoint("/upload")
    ensures !IsPublicEndpoint("/health/x") && !IsPublicEndpoint("/metrics/x")
    ensures !IsPublicEndpoint("") && !IsPublicEndpoint("/Docs")
  {
    NotPublicBySecondChar("/upload");
    NotPublicBySecondChar("/health/x");
    NotPublicBySecondChar("/metrics/x");
    NotPublicBySecondChar("/Docs");
  }

  /** A path other than "/health" and "/metrics" whose second character starts no prefix is protected. */
  lemma NotPublicBySecondChar(path: string)
    requires |path| >= 2 && path != "/health" && path != "/metrics"
    requires path[1] !in {'d', 'r', 'o'}
    ensures !IsPublicEndpoint(path)
  {
  }
}
