/**
 The user attribute store the API-key resource reads and writes.

 Every user id maps to the ordered list of its (name, value) attribute rows.
 The resource only ever touches rows named "api-key"; everything here is
 phrased in terms of that reserved name. A user id absent from the map is a
 user with no attribute rows.
 */
module AttributeStore {

  type UserId = string

  /** One attribute row of a user: a name and a string value. */
  datatype Attribute = Attribute(name: string, value: string)

  type Store = map<UserId, seq<Attribute>>

  /** The reserved attribute name under which a user's API key is stored. */
  const ApiKeyName: string := "api-key"

  /** Length of every key the secret generator produces. */
  const KeyLength: nat := 50

  /** The row that binds key `k` to whichever user carries it. */
  function ApiKeyRow(k: string): Attribute {
    Attribute(ApiKeyName, k)
  }

  /** What the secret generator promises of a freshly generated key. */
  predicate WellFormedKey(k: string) {
    |k| == KeyLength
  }

  /** The attribute rows of user `u`; none when `u` is not in the store. */
  function AttrsOf(s: Store, u: UserId): seq<Attribute> {
    if u in s then s[u] else []
  }

  /**
   The rows of `attrs` whose name is not "api-key", in their original order:
   what survives the removal query, which filters on the name.
   */
  function WithoutApiKeys(attrs: seq<Attribute>): (r: seq<Attribute>)
    ensures forall a :: a in r ==> a.name != ApiKeyName
    ensures forall a: Attribute :: a.name != ApiKeyName ==> multiset(r)[a] == multiset(attrs)[a]
    ensures |r| <= |attrs|
  {
    if attrs == [] then []
    else
      assert attrs == [attrs[0]] + attrs[1..];
      if attrs[0].name == ApiKeyName then WithoutApiKeys(attrs[1..])
      else [attrs[0]] + WithoutApiKeys(attrs[1..])
  }

  /**
   The values of the "api-key" rows of `attrs`, one per row, in order: the
   result list of the query that selects a user's rows by that name.
   */
  function ApiKeyValues(attrs: seq<Attribute>): (r: seq<string>)
    ensures forall v :: v in r <==> ApiKeyRow(v) in attrs
    ensures forall v :: multiset(r)[v] == multiset(attrs)[ApiKeyRow(v)]
  {
    if attrs == [] then []
    else
      assert attrs == [attrs[0]] + attrs[1..];
      if attrs[0].name == ApiKeyName then [attrs[0].value] + ApiKeyValues(attrs[1..])
      else ApiKeyValues(attrs[1..])
  }

  /** Models `hasApiKey`: the query for the user's "api-key" rows is not empty. */
  function HasApiKey(s: Store, u: UserId): (r: bool)
    ensures r <==> exists v :: ApiKeyRow(v) in AttrsOf(s, u)
  {
    var values := ApiKeyValues(AttrsOf(s, u));
    assert values != [] ==> ApiKeyRow(values[0]) in AttrsOf(s, u);
    values != []
  }

  /** Some user carries an "api-key" row whose value is exactly `k`. */
  ghost predicate Issued(s: Store, k: string) {
    exists u :: u in s && ApiKeyRow(k) in s[u]
  }

  /** The uniqueness invariant: no user has more than one "api-key" row. */
  ghost predicate AtMostOneKey(s: Store) {
    forall u :: u in s ==> |ApiKeyValues(s[u])| <= 1
  }

  /** Every key held in the store has the generator's length. */
  ghost predicate KeysWellFormed(s: Store) {
    forall u, v :: u in s && ApiKeyRow(v) in s[u] ==> WellFormedKey(v)
  }

  /**
   Models `removeApiKeyAttribute`: every "api-key" row of `u` is removed,
   and nothing else.
   */
  function RemoveApiKeyAttribute(s: Store, u: UserId): (r: Store)
    ensures ApiKeyValues(AttrsOf(r, u)) == []
    ensures forall a: Attribute :: multiset(AttrsOf(r, u))[a] ==
                        (if a.name == ApiKeyName then 0 else multiset(AttrsOf(s, u))[a])
    ensures r - {u} == s - {u}
    ensures r.Keys == s.Keys
  {
    var r := if u in s then s[u := WithoutApiKeys(s[u])] else s;
    NoApiKeyValuesWithoutApiKeys(AttrsOf(s, u));
    r
  }

  /**
   Models `addApiKeyAttribute` with the generated key `k`: after removing
   every "api-key" row of `u`, one row carrying `k` is inserted. The user ends
   with exactly that key, keeps every other attribute in order, and no other
   user is affected.
   */
  function AddApiKeyAttribute(s: Store, u: UserId, k: string): (r: Store)
    requires WellFormedKey(k)
    ensures ApiKeyValues(AttrsOf(r, u)) == [k]
    ensures WithoutApiKeys(AttrsOf(r, u)) == WithoutApiKeys(AttrsOf(s, u))
    ensures r - {u} == s - {u}
    ensures r.Keys == s.Keys + {u}
  {
    var cleared := RemoveApiKeyAttribute(s, u);
    var kept := WithoutApiKeys(AttrsOf(s, u));
    assert AttrsOf(cleared, u) == kept;
    var r := cleared[u := AttrsOf(cleared, u) + [ApiKeyRow(k)]];
    assert AttrsOf(r, u) == kept + [ApiKeyRow(k)];
    ReplacedRows(AttrsOf(s, u), k);
    assert r - {u} == cleared - {u};
    r
  }

  /**
   The rows of one user after the replacement: the filtered rows followed by
   the new key's row hold exactly that key and the same other-named rows.
   */
  lemma ReplacedRows(attrs: seq<Attribute>, k: string)
    ensures ApiKeyValues(WithoutApiKeys(attrs) + [ApiKeyRow(k)]) == [k]
    ensures WithoutApiKeys(WithoutApiKeys(attrs) + [ApiKeyRow(k)]) == WithoutApiKeys(attrs)
  {
    var kept := WithoutApiKeys(attrs);
    ApiKeyValuesConcat(kept, [ApiKeyRow(k)]);
    NoApiKeyValuesWithoutApiKeys(attrs);
    assert ApiKeyValues([ApiKeyRow(k)]) == [k];
    WithoutApiKeysConcat(kept, [ApiKeyRow(k)]);
    WithoutApiKeysIdempotent(attrs);
    assert WithoutApiKeys([ApiKeyRow(k)]) == [];
  }

  /** The rows left by the filter carry no API key. */
  lemma NoApiKeyValuesWithoutApiKeys(attrs: seq<Attribute>)
    ensures ApiKeyValues(WithoutApiKeys(attrs)) == []
  {
  }

  /** Selecting the API-key values distributes over concatenation. */
  lemma {:induction false} ApiKeyValuesConcat(a: seq<Attribute>, b: seq<Attribute>)
    ensures ApiKeyValues(a + b) == ApiKeyValues(a) + ApiKeyValues(b)
  {
    if a == [] {
      assert a + b == b;
    } else {
      assert (a + b)[0] == a[0];
      assert (a + b)[1..] == a[1..] + b;
      ApiKeyValuesConcat(a[1..], b);
      if a[0].name == ApiKeyName {
        var rest := ApiKeyValues(a[1..]);
        assert [a[0].value] + (rest + ApiKeyValues(b)) == ([a[0].value] + rest) + ApiKeyValues(b);
      }
    }
  }

  /** Removing the API-key rows distributes over concatenation. */
  lemma {:induction false} WithoutApiKeysConcat(a: seq<Attribute>, b: seq<Attribute>)
    ensures WithoutApiKeys(a + b) == WithoutApiKeys(a) + WithoutApiKeys(b)
  {
    if a == [] {
      assert a + b == b;
    } else {
      assert (a + b)[0] == a[0];
      assert (a + b)[1..] == a[1..] + b;
      WithoutApiKeysConcat(a[1..], b);
      if a[0].name != ApiKeyName {
        var rest := WithoutApiKeys(a[1..]);
        assert [a[0]] + (rest + WithoutApiKeys(b)) == ([a[0]] + rest) + WithoutApiKeys(b);
      }
    }
  }

  /** A list with no API-key row is left as it is by the filter. */
  lemma {:induction false} WithoutApiKeysNoop(attrs: seq<Attribute>)
    requires forall a :: a in attrs ==> a.name != ApiKeyName
    ensures WithoutApiKeys(attrs) == attrs
  {
    if attrs != [] {
      assert attrs[0] in attrs;
      forall a | a in attrs[1..]
        ensures a.name != ApiKeyName
      {
        assert a in attrs;
      }
      WithoutApiKeysNoop(attrs[1..]);
      assert attrs == [attrs[0]] + attrs[1..];
    }
  }

  /** Removing the API-key rows twice is the same as removing them once. */
  lemma WithoutApiKeysIdempotent(attrs: seq<Attribute>)
    ensures WithoutApiKeys(WithoutApiKeys(attrs)) == WithoutApiKeys(attrs)
  {
    WithoutApiKeysNoop(WithoutApiKeys(attrs));
  }
}
