# API-key credential lifecycle

A Dafny model of the Keycloak API-key extension's `ApiKeyResource`. The
resource issues, rotates and checks opaque API keys. Each key is stored as
a user attribute named `"api-key"`.

The model replaces Keycloak's user storage with an immutable attribute
store. The store maps each user id to the ordered list of that user's
(name, value) attribute rows. A user id absent from the map has no rows.
Each endpoint is a pure transition
`(store, authentication outcome, generated key) -> (status, store')`:

- **check** (`GET /check?apiKey=…`) only reads. It answers 200 exactly when
  some user holds an `"api-key"` row with exactly that value. Otherwise it
  answers 401, also when the parameter is missing. A store failure is not
  caught here and is not modelled.
- **create** (`POST`) answers 403 and writes nothing without a bearer-token
  user. Otherwise it removes every `"api-key"` row of the caller, inserts
  the generated key and answers 200.
- **rotate** (`PUT /rotate`) answers 403 without a user and 404 when the
  caller holds no key. Otherwise it does the same replacement as create.

No endpoint returns the key in the response body, so a response is a status
only. The bearer-token authenticator is an `Option<UserId>` oracle. `None`
covers both a missing token and a rejected one. The secret generator is a
supplied key string of length 50.

Files:

- `optional.dfy`: module `Optional`, the `Option` datatype.
- `attribute_store.dfy`: module `AttributeStore`, the store and the
  removal/insertion helpers of the resource.
- `api_key_resource.dfy`: module `ApiKeyResource`, the statuses and the
  three endpoints.
- `lifecycle.dfy`: module `Lifecycle`, properties across several
  requests.

## Model

| member | source | states |
|---|---|---|
| AttributeStore.WithoutApiKeys | src/main/java/com/getvoicify/resources/ApiKeyResource.java:117-129 | no surviving row is named "api-key"; every row with another name keeps its multiplicity |
| AttributeStore.ApiKeyValues | src/main/java/com/getvoicify/resources/ApiKeyResource.java:107-113 | one value per "api-key" row: each value occurs as often as the rows contain an "api-key" row carrying it |
| AttributeStore.HasApiKey | src/main/java/com/getvoicify/resources/ApiKeyResource.java:102-115 | true exactly when the user has some "api-key" row |
| AttributeStore.RemoveApiKeyAttribute | src/main/java/com/getvoicify/resources/ApiKeyResource.java:117-129 | the user is left with no key; each other-named row of the user keeps its count; every other user is untouched; no user id is added or dropped |
| AttributeStore.AddApiKeyAttribute | src/main/java/com/getvoicify/resources/ApiKeyResource.java:88-100 | the user ends with exactly one "api-key" value, the generated key; the user's other-named rows are unchanged and in order; every other user is untouched |
| AttributeStore.ReplacedRows | src/main/java/com/getvoicify/resources/ApiKeyResource.java:88-100 | the user's rows after remove-then-insert hold exactly one key value, the new one, and the same other-named rows in the same order |
| ApiKeyResource.FindUserByAttribute | src/main/java/com/getvoicify/resources/ApiKeyResource.java:36-40 | a returned user does carry the row; None only when no user carries it |
| ApiKeyResource.CheckApiKey | src/main/java/com/getvoicify/resources/ApiKeyResource.java:35-43 | 200 iff the parameter is present and some user holds it as an "api-key" value, else 401; the store is unchanged |
| ApiKeyResource.CreateApiKey | src/main/java/com/getvoicify/resources/ApiKeyResource.java:47-55 | 200 iff authenticated; otherwise 403 and the store is unchanged; on success the caller holds exactly the generated key, the caller's other rows and all other users are unchanged |
| ApiKeyResource.RotateApiKey | src/main/java/com/getvoicify/resources/ApiKeyResource.java:60-86 | 403 iff unauthenticated (never 404 then); 404 iff authenticated without a key; 200 iff authenticated with a key; only 200 changes the store, and then it does exactly what create does |
| Lifecycle.AddKeepsInvariants | src/main/java/com/getvoicify/resources/ApiKeyResource.java:88-100 | replacing a key keeps "at most one key per user" from any store, whatever its keys hold, since every earlier key is removed first; separately, it keeps "every key has length 50" |
| Lifecycle.ApplyKeepsInvariants | src/main/java/com/getvoicify/resources/ApiKeyResource.java:35-77 | each check, create or rotate request keeps "at most one key per user" on its own, and keeps "every key has length 50" on its own |
| Lifecycle.RunKeepsInvariants | src/main/java/com/getvoicify/resources/ApiKeyResource.java:35-100 | any sequence of requests from a store with at most one key per user keeps that property, whatever the keys hold; separately, it keeps "every key has length 50" |
| Lifecycle.EmptyStoreInvariants | src/main/java/com/getvoicify/resources/ApiKeyResource.java:35-43 | the initial store satisfies both invariants and no key passes the check |
| Lifecycle.ApplyNeverRevokes | src/main/java/com/getvoicify/resources/ApiKeyResource.java:60-100 | no request takes a user who has a key back to having none |
| Lifecycle.MalformedKeyNeverIssued | src/main/java/com/getvoicify/resources/ApiKeyResource.java:88-100 | after any sequence of requests from the initial store, a value whose length is not 50 is held by no one |
| Lifecycle.ApplyIssuesOnlyWritten | src/main/java/com/getvoicify/resources/ApiKeyResource.java:45-100 | a single request puts no key into the store other than the one it writes; a create or rotate refused with 403 or 404 writes none |
| Lifecycle.RunIssuesOnlyGenerated | src/main/java/com/getvoicify/resources/ApiKeyResource.java:45-100 | after any sequence of requests, a value nobody held before and no successful create or rotate wrote is held by no one |
| Lifecycle.CheckAfterRun | src/main/java/com/getvoicify/resources/ApiKeyResource.java:35-100 | after any sequence of requests from the initial store, the check answers 401 for every value no successful create or rotate wrote, and for every value whose length is not 50 |
| Lifecycle.AddKeepsOthersFree | src/main/java/com/getvoicify/resources/ApiKeyResource.java:117-127 | replacing one user's key gives no other user a key it did not already hold |
| Lifecycle.CreateIssuesKey | src/main/java/com/getvoicify/resources/ApiKeyResource.java:88-100 | right after create, the caller holds the generated key, so the check accepts it |
| Lifecycle.ReplaceRevokesOldKey | src/main/java/com/getvoicify/resources/ApiKeyResource.java:88-100 | after a replacement, a key other than the new one is held by no one, provided no other user held it |
| Lifecycle.CreateTwiceKeepsSecond | src/main/java/com/getvoicify/resources/ApiKeyResource.java:47-55 | provided the two keys differ and no other user held the first key: after two creates for one user, the first key is no longer held and the second is |
| Lifecycle.RotateAfterCreateReplaces | src/main/java/com/getvoicify/resources/ApiKeyResource.java:60-73 | rotating after a create answers 200; provided the two keys differ and no other user held the created key, it is no longer held and the rotated one is |
| Lifecycle.CreateThenCheck | src/main/java/com/getvoicify/resources/ApiKeyResource.java:35-55 | from an empty store, create answers 200, the check answers 200 for the new key and 401 for any other value |
| Lifecycle.CreateRotateRotateKeepsLast | src/main/java/com/getvoicify/resources/ApiKeyResource.java:60-100 | when no other user holds the first two keys: after create and two rotations both rotations succeed, the first two keys are held by no one and the last is held |
| Lifecycle.CreateRotateRotate | src/main/java/com/getvoicify/resources/ApiKeyResource.java:45-77 | when no other user holds the first two keys: create and two rotations each answer 200, and of the three keys only the last passes the check |

## Where the code and its test differ

- `src/test/java/com/getvoicify/providers/ApiKeyResourceProviderTest.java:27`
  expects 401 for a POST without a bearer token. The code answers 403.
  The missing token makes `authenticate` throw `NotAuthorizedException`
  (`ApiKeyResource.java:83`), and the catch at `:52-53` maps it to
  FORBIDDEN. The model follows the code (`ApiKeyResource.CreateApiKey`).

Three further points about the code itself:

- No endpoint puts the key in the response body (`ApiKeyResource.java:51`,
  `:73`). Each transition returns a status and the new store only.
- Create and rotate map every exception to 403, store failures included
  (`:52-53`, `:74-75`).
- Nothing makes a newly generated key differ from the previous one. So the
  model does not claim it, and the revocation lemmas require the old and
  new keys to differ.

## Left out

- JPA and Keycloak plumbing: `EntityManager`, queries, `flush`/`clear`,
  `entityManager.find` of the user entity, and the realm passed to the
  attribute search. The store is one in-memory map for a single realm.
- Attribute row ids from `UUID.randomUUID()`: they have no effect on
  behaviour.
- Randomness of `SecretGenerator`: the key is a parameter. Only its length
  of 50 is required.
- The bearer-token authenticator: it is an opaque `Option<UserId>` oracle.
  A null result and a thrown authentication exception are both `None`.
- Store and runtime exceptions other than authentication failures, caught
  at `ApiKeyResource.java:52` and `:74`. All of them would answer 403.
  Whether a write already staged before the exception is rolled back
  depends on the host transaction, which is not part of this model.
- Transactions and concurrent requests: requests are handled one after
  the other.
- The attribute search's internal matching (such as the handling of long
  values): a lookup is exact string equality.
- HTTP annotations, media types, and the provider and factory classes:
  these are host wiring with no logic.
- A "get current key" operation: the resource has none.
- ApiKeyResource.CheckApiKey: `checkApiKey` catches nothing, so a store
  failure during the attribute search escapes as a server error rather than
  401; the model's store cannot fail, so it answers only 200 or 401.
- ApiKeyResource.FindUserByAttribute: does not say which of several users
  holding the same value is returned, because that order belongs to the
  database.
