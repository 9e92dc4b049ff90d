/**
 The three endpoints of the API-key resource as transitions over the
 attribute store: each takes the store, the outcome of bearer-token
 authentication (the id of the authenticated user, or None when there is no
 valid token) and, where a key is minted, the key the secret generator
 produced; each answers an HTTP status and the store after the request. No
 endpoint puts the key in the response body, so the status is all a caller
 sees.
 */
module ApiKeyResource {
  import opened Optional
  import opened AttributeStore

  /** The statuses the resource answers with. */
  datatype Status = Ok | Unauthorized | Forbidden | NotFound {
    /** The HTTP status code of this status. */
    function Code(): int {
      match this
      case Ok => 200
      case Unauthorized => 401
      case Forbidden => 403
      case NotFound => 404
    }
  }

  /** The status answered and the store the request leaves behind. */
  datatype Response = Response(status: Status, store: Store)

  /**
   Models the attribute search the check endpoint delegates to, followed by
   `findFirst`: some user carrying the row `name = value`, if any does.
   Which of several such users is found is left open.
   */
  method FindUserByAttribute(s: Store, name: string, value: string) returns (r: Option<UserId>)
    ensures r.Some? ==> r.value in s && Attribute(name, value) in s[r.value]
    ensures r.None? ==> forall u :: u in s ==> Attribute(name, value) !in s[u]
  {
    var pending := s.Keys;
    while pending != {}
      invariant pending <= s.Keys
      invariant forall u :: u in s && u !in pending ==> Attribute(name, value) !in s[u]
      decreases pending
    {
      var u :| u in pending;
      if Attribute(name, value) in s[u] {
        return Some(u);
      }
      pending := pending - {u};
    }
    return None;
  }

  /**
   Models `checkApiKey`: 200 exactly when some user holds an "api-key" row
   whose value equals the query parameter, 401 otherwise, including when the
   parameter is missing. The store is only read.
   */
  method CheckApiKey(s: Store, apiKey: Option<string>) returns (r: Response)
    ensures r.status == Ok <==> apiKey.Some? && Issued(s, apiKey.value)
    ensures r.status == Ok || r.status == Unauthorized
    ensures r.store == s
  {
    if apiKey.None? {
      return Response(Unauthorized, s);
    }
    var holder := FindUserByAttribute(s, ApiKeyName, apiKey.value);
    if holder.Some? {
      r := Response(Ok, s);
    } else {
      r := Response(Unauthorized, s);
    }
  }

  /**
   Models `createApiKey`: without an authenticated caller the request is
   refused with 403 before anything is written; otherwise the caller's keys
   are replaced by `generated` and the answer is 200, whatever the caller held
   before.
   */
  function CreateApiKey(s: Store, auth: Option<UserId>, generated: string): (r: Response)
    requires WellFormedKey(generated)
    ensures r.status == Ok <==> auth.Some?
    ensures r.status != Ok ==> r.status == Forbidden && r.store == s
    ensures auth.Some? ==> ApiKeyValues(AttrsOf(r.store, auth.value)) == [generated]
    ensures auth.Some? ==> WithoutApiKeys(AttrsOf(r.store, auth.value)) == WithoutApiKeys(AttrsOf(s, auth.value))
    ensures auth.Some? ==> r.store - {auth.value} == s - {auth.value}
  {
    match auth
    case None => Response(Forbidden, s)
    case Some(u) => Response(Ok, AddApiKeyAttribute(s, u, generated))
  }

  /**
   Models `rotateApiKey`: 403 without an authenticated caller, 404 when the
   caller holds no key, and otherwise the same replacement as create with
   200. Only the successful path writes.
   */
  function RotateApiKey(s: Store, auth: Option<UserId>, generated: string): (r: Response)
    requires WellFormedKey(generated)
    ensures r.status == Forbidden <==> auth.None?
    ensures r.status == NotFound <==> auth.Some? && !HasApiKey(s, auth.value)
    ensures r.status == Ok <==> auth.Some? && HasApiKey(s, auth.value)
    ensures r.status != Ok ==> r.store == s
    ensures r.status == Ok ==> r == CreateApiKey(s, auth, generated)
  {
    match auth
    case None => Response(Forbidden, s)
    case Some(u) =>
      if !HasApiKey(s, u) then Response(NotFound, s)
      else Response(Ok, AddApiKeyAttribute(s, u, generated))
  }
}
