/** The CORS middleware that main.go installs in front of every route. */
module Cors {

  const Wildcard: string := "*"
  const AllowOrigin: string := "Access-Control-Allow-Origin"

  /** What happens to the request after the middleware ran. */
  datatype Disposition = NoContent | Forward

  /** The response headers the middleware set, and the request's fate. */
  datatype CorsOutcome = CorsOutcome(headers: map<string, string>, disposition: Disposition)

  /** An origin is allowed when some configured host is "*" or is the origin itself. */
  predicate Allowed(origin: string, hosts: seq<string>) {
    exists i :: 0 <= i < |hosts| && (hosts[i] == Wildcard || hosts[i] == origin)
  }

  /** The five headers set for an allowed, non-empty origin. */
  function CorsHeaders(origin: string): map<string, string> {
    map[
      AllowOrigin := origin,
      "Vary" := "Origin",
      "Access-Control-Allow-Methods" := "GET, POST, PUT, DELETE, OPTIONS",
      "Access-Control-Allow-Headers" := "Content-Type, Authorization",
      "Access-Control-Allow-Credentials" := "true"
    ]
  }

  /**
   * One pass through the middleware. origin is the request's Origin header
   * ("" when absent), hosts the configured allow-list, requestMethod the
   * HTTP method. An OPTIONS request is answered with 204 No Content;
   * every other request is passed on to the next handler.
   */
  method Handle(origin: string, hosts: seq<string>, requestMethod: string) returns (out: CorsOutcome)
    ensures out.headers == if Allowed(origin, hosts) && origin != "" then CorsHeaders(origin) else map[]
    ensures out.disposition == if requestMethod == "OPTIONS" then NoContent else Forward
  {
    var allowed := false;
    var k := 0;
    while k < |hosts|
      invariant 0 <= k <= |hosts|
      invariant !allowed
      invariant forall j :: 0 <= j < k ==> hosts[j] != Wildcard && hosts[j] != origin
    {
      if hosts[k] == Wildcard || hosts[k] == origin {
        allowed := true;
        break;
      }
      k := k + 1;
    }
    var headers: map<string, string> := map[];
    if allowed && origin != "" {
      headers := CorsHeaders(origin);
    }
    if requestMethod == "OPTIONS" {
      out := CorsOutcome(headers, NoContent);
      return;
    }
    out := CorsOutcome(headers, Forward);
  }

  /** An empty allow-list allows no origin. */
  lemma EmptyListAllowsNothing(origin: string)
    ensures !Allowed(origin, [])
  {
  }

  /** "*" anywhere in the list allows every origin. */
  lemma WildcardAllowsAll(origin: string, hosts: seq<string>, i: nat)
    requires i < |hosts| && hosts[i] == Wildcard
    ensures Allowed(origin, hosts)
  {
  }

  /**
   * When CORS headers are set, Access-Control-Allow-Origin echoes the
   * request's origin, so it is "*" only if the client itself sent "*".
   */
  lemma AllowOriginEchoes(origin: string, hosts: seq<string>, out: CorsOutcome)
    requires out.headers == if Allowed(origin, hosts) && origin != "" then CorsHeaders(origin) else map[]
    ensures AllowOrigin in out.headers <==> Allowed(origin, hosts) && origin != ""
    ensures AllowOrigin in out.headers ==> out.headers[AllowOrigin] == origin
    ensures AllowOrigin in out.headers && origin != Wildcard ==> out.headers[AllowOrigin] != Wildcard
  {
  }
}
