/**
 Properties of the key lifecycle that relate several requests: the
 uniqueness invariant, what a later check sees after create and rotate, and
 the per-user state machine NoKey/HasKey in which no request returns a user
 to NoKey.
 */
module Lifecycle {
  import opened Optional
  import opened AttributeStore
  import opened ApiKeyResource

  /** One request to the resource, with the authentication outcome and generated key it sees. */
  datatype Request =
    | Check(apiKey: Option<string>)
    | Create(auth: Option<UserId>, generated: string)
    | Rotate(auth: Option<UserId>, generated: string)
  {
    /** Every key a request carries for writing came from the secret generator. */
    predicate Valid() {
      match this
      case Check(_) => true
      case Create(_, k) => WellFormedKey(k)
      case Rotate(_, k) => WellFormedKey(k)
    }
  }

  /** The store after one request; a check leaves it as it is. */
  function Apply(s: Store, req: Request): Store
    requires req.Valid()
  {
    match req
    case Check(_) => s
    case Create(auth, k) => CreateApiKey(s, auth, k).store
    case Rotate(auth, k) => RotateApiKey(s, auth, k).store
  }

  /** The store after a sequence of requests handled one after the other. */
  function Run(s: Store, reqs: seq<Request>): Store
    requires forall i :: 0 <= i < |reqs| ==> reqs[i].Valid()
    decreases |reqs|
  {
    if reqs == [] then s else Run(Apply(s, reqs[0]), reqs[1..])
  }

  /**
   The key a request writes into store `s`: the generator is only called by
   a create or rotate that is answered 200, so a refused request writes none.
   */
  function Written(s: Store, req: Request): set<string>
    requires req.Valid()
  {
    match req
    case Check(_) => {}
    case Create(auth, k) => if CreateApiKey(s, auth, k).status == Ok then {k} else {}
    case Rotate(auth, k) => if RotateApiKey(s, auth, k).status == Ok then {k} else {}
  }

  /** Every key the secret generator produced for a sequence of requests from `s`. */
  function Minted(s: Store, reqs: seq<Request>): set<string>
    requires forall i :: 0 <= i < |reqs| ==> reqs[i].Valid()
    decreases |reqs|
  {
    if reqs == [] then {} else Written(s, reqs[0]) + Minted(Apply(s, reqs[0]), reqs[1..])
  }

  /** A store change confined to user `u` leaves every other user's rows alone. */
  lemma FrameElsewhere(s: Store, s': Store, u: UserId, v: UserId)
    requires s' - {u} == s - {u}
    requires v != u
    ensures v in s' <==> v in s
    ensures v in s ==> s'[v] == s[v]
  {
    assert v in s' <==> v in s' - {u};
    assert v in s <==> v in s - {u};
    if v in s {
      assert s'[v] == (s' - {u})[v];
      assert s[v] == (s - {u})[v];
    }
  }

  /**
   Replacing a user's key keeps each invariant on its own: uniqueness from
   any store, whatever its keys hold, because every earlier key of the user
   is removed; and the length of every stored key.
   */
  lemma AddKeepsInvariants(s: Store, u: UserId, k: string)
    requires WellFormedKey(k)
    ensures AtMostOneKey(s) ==> AtMostOneKey(AddApiKeyAttribute(s, u, k))
    ensures KeysWellFormed(s) ==> KeysWellFormed(AddApiKeyAttribute(s, u, k))
  {
    var s' := AddApiKeyAttribute(s, u, k);
    if AtMostOneKey(s) {
      forall v | v in s'
        ensures |ApiKeyValues(s'[v])| <= 1
      {
        if v != u {
          FrameElsewhere(s, s', u, v);
        } else {
          assert s'[v] == AttrsOf(s', u);
        }
      }
    }
    if KeysWellFormed(s) {
      forall v, key | v in s' && ApiKeyRow(key) in s'[v]
        ensures WellFormedKey(key)
      {
        if v != u {
          FrameElsewhere(s, s', u, v);
        } else {
          assert key in ApiKeyValues(AttrsOf(s', u));
        }
      }
    }
  }

  /** Every single request keeps each invariant on its own. */
  lemma ApplyKeepsInvariants(s: Store, req: Request)
    requires req.Valid()
    ensures AtMostOneKey(s) ==> AtMostOneKey(Apply(s, req))
    ensures KeysWellFormed(s) ==> KeysWellFormed(Apply(s, req))
  {
    match req
    case Check(_) =>
    case Create(auth, k) =>
      if auth.Some? { AddKeepsInvariants(s, auth.value, k); }
    case Rotate(auth, k) =>
      if auth.Some? && HasApiKey(s, auth.value) { AddKeepsInvariants(s, auth.value, k); }
  }

  /**
   Starting from a store where no user has two keys, no sequence of requests
   ever produces one that does; likewise for the length of the keys.
   */
  lemma {:induction false} RunKeepsInvariants(s: Store, reqs: seq<Request>)
    requires forall i :: 0 <= i < |reqs| ==> reqs[i].Valid()
    ensures AtMostOneKey(s) ==> AtMostOneKey(Run(s, reqs))
    ensures KeysWellFormed(s) ==> KeysWellFormed(Run(s, reqs))
    decreases |reqs|
  {
    if reqs != [] {
      ApplyKeepsInvariants(s, reqs[0]);
      RunKeepsInvariants(Apply(s, reqs[0]), reqs[1..]);
    }
  }

  /** The initial store, in which no user holds a key, satisfies both invariants. */
  lemma EmptyStoreInvariants()
    ensures AtMostOneKey(map[]) && KeysWellFormed(map[])
    ensures forall k :: !Issued(map[], k)
  {
  }

  /** No request takes a user from HasKey back to NoKey. */
  lemma ApplyNeverRevokes(s: Store, req: Request, v: UserId)
    requires req.Valid()
    requires HasApiKey(s, v)
    ensures HasApiKey(Apply(s, req), v)
  {
    var s' := Apply(s, req);
    match req
    case Check(_) =>
    case Create(auth, k) =>
      if auth.Some? && auth.value != v {
        FrameElsewhere(s, s', auth.value, v);
        assert AttrsOf(s', v) == AttrsOf(s, v);
      }
    case Rotate(auth, k) =>
      if auth.Some? && HasApiKey(s, auth.value) && auth.value != v {
        FrameElsewhere(s, s', auth.value, v);
        assert AttrsOf(s', v) == AttrsOf(s, v);
      }
  }

  /** Right after a successful create the new key is held by the caller. */
  lemma CreateIssuesKey(s: Store, u: UserId, k: string)
    requires WellFormedKey(k)
    ensures u in CreateApiKey(s, Some(u), k).store
    ensures ApiKeyRow(k) in CreateApiKey(s, Some(u), k).store[u]
    ensures Issued(CreateApiKey(s, Some(u), k).store, k)
  {
    var s' := CreateApiKey(s, Some(u), k).store;
    assert k in ApiKeyValues(AttrsOf(s', u));
  }

  /**
   Replacing `u`'s key by `k2` revokes any other key `k1` of `u`: when no
   other user holds `k1`, nobody holds it afterwards.
   */
  lemma ReplaceRevokesOldKey(s: Store, u: UserId, k1: string, k2: string)
    requires WellFormedKey(k2)
    requires k1 != k2
    requires forall v :: v in s && v != u ==> ApiKeyRow(k1) !in s[v]
    ensures !Issued(AddApiKeyAttribute(s, u, k2), k1)
  {
    var s' := AddApiKeyAttribute(s, u, k2);
    forall v | v in s'
      ensures ApiKeyRow(k1) !in s'[v]
    {
      if v != u {
        FrameElsewhere(s, s', u, v);
      } else {
        assert k1 !in ApiKeyValues(AttrsOf(s', u));
      }
    }
  }

  /** Replacing `u`'s key does not hand key `k` to any other user. */
  lemma AddKeepsOthersFree(s: Store, u: UserId, k: string, g: string)
    requires WellFormedKey(g)
    requires forall v :: v in s && v != u ==> ApiKeyRow(k) !in s[v]
    ensures forall v :: v in AddApiKeyAttribute(s, u, g) && v != u ==>
              ApiKeyRow(k) !in AddApiKeyAttribute(s, u, g)[v]
  {
    var s' := AddApiKeyAttribute(s, u, g);
    forall v | v in s' && v != u
      ensures ApiKeyRow(k) !in s'[v]
    {
      FrameElsewhere(s, s', u, v);
    }
  }

  /**
   Creating twice for the same user keeps only the second key: the first is
   no longer held (when no other user held it) and the second is.
   */
  lemma CreateTwiceKeepsSecond(s: Store, u: UserId, k1: string, k2: string)
    requires WellFormedKey(k1) && WellFormedKey(k2)
    requires k1 != k2
    requires forall v :: v in s && v != u ==> ApiKeyRow(k1) !in s[v]
    ensures var s2 := CreateApiKey(CreateApiKey(s, Some(u), k1).store, Some(u), k2).store;
            !Issued(s2, k1) && Issued(s2, k2)
  {
    var s1 := CreateApiKey(s, Some(u), k1).store;
    AddKeepsOthersFree(s, u, k1, k1);
    ReplaceRevokesOldKey(s1, u, k1, k2);
    CreateIssuesKey(s1, u, k2);
  }

  /**
   Rotating after a create succeeds and keeps only the rotated key: the
   created key is no longer held (when no other user held it).
   */
  lemma RotateAfterCreateReplaces(s: Store, u: UserId, k1: string, k2: string)
    requires WellFormedKey(k1) && WellFormedKey(k2)
    requires k1 != k2
    requires forall v :: v in s && v != u ==> ApiKeyRow(k1) !in s[v]
    ensures var s1 := CreateApiKey(s, Some(u), k1).store;
            var r := RotateApiKey(s1, Some(u), k2);
            r.status == Ok && !Issued(r.store, k1) && Issued(r.store, k2)
  {
    var s1 := CreateApiKey(s, Some(u), k1).store;
    CreateIssuesKey(s, u, k1);
    assert HasApiKey(s1, u);
    CreateTwiceKeepsSecond(s, u, k1, k2);
  }

  /**
   A single request puts no key into the store other than the one it
   writes: a value nobody held, and that the request did not write, is still
   held by nobody afterwards.
   */
  lemma ApplyIssuesOnlyWritten(s: Store, req: Request, k: string)
    requires req.Valid()
    requires !Issued(s, k)
    requires k !in Written(s, req)
    ensures !Issued(Apply(s, req), k)
  {
    match req
    case Check(_) =>
    case Create(auth, g) =>
      if auth.Some? { ReplaceRevokesOldKey(s, auth.value, k, g); }
    case Rotate(auth, g) =>
      if auth.Some? && HasApiKey(s, auth.value) { ReplaceRevokesOldKey(s, auth.value, k, g); }
  }

  /**
   Only generated keys are ever held: after any sequence of requests, a value
   that nobody held at the start and that no successful create or rotate
   wrote is held by nobody.
   */
  lemma {:induction false} RunIssuesOnlyGenerated(s: Store, reqs: seq<Request>, k: string)
    requires forall i :: 0 <= i < |reqs| ==> reqs[i].Valid()
    requires !Issued(s, k)
    requires k !in Minted(s, reqs)
    ensures !Issued(Run(s, reqs), k)
    decreases |reqs|
  {
    if reqs != [] {
      ApplyIssuesOnlyWritten(s, reqs[0], k);
      RunIssuesOnlyGenerated(Apply(s, reqs[0]), reqs[1..], k);
    }
  }

  /**
   In every store reachable from the initial one, each key has the
   generator's length, so a value of any other length is held by nobody.
   */
  lemma MalformedKeyNeverIssued(reqs: seq<Request>, k: string)
    requires forall i :: 0 <= i < |reqs| ==> reqs[i].Valid()
    requires !WellFormedKey(k)
    ensures !Issued(Run(map[], reqs), k)
  {
    EmptyStoreInvariants();
    RunKeepsInvariants(map[], reqs);
  }

  /**
   A check after any sequence of requests from the initial store rejects
   every value no successful create or rotate wrote, and every value without
   the generator's length.
   */
  method CheckAfterRun(reqs: seq<Request>, k: string) returns (status: Status)
    requires forall i :: 0 <= i < |reqs| ==> reqs[i].Valid()
    ensures k !in Minted(map[], reqs) ==> status == Unauthorized
    ensures !WellFormedKey(k) ==> status == Unauthorized
  {
    var r := CheckApiKey(Run(map[], reqs), Some(k));
    if k !in Minted(map[], reqs) {
      EmptyStoreInvariants();
      RunIssuesOnlyGenerated(map[], reqs, k);
    }
    if !WellFormedKey(k) {
      MalformedKeyNeverIssued(reqs, k);
    }
    status := r.status;
  }

  /**
   The create / check scenario from an empty store: the created key passes
   the check and any other key (such as "garbage") does not.
   */
  method CreateThenCheck(u: UserId, k1: string, other: string) returns (created: Status, valid: Status, invalid: Status)
    requires WellFormedKey(k1)
    requires other != k1
    ensures created.Code() == 200 && valid.Code() == 200 && invalid.Code() == 401
  {
    var s: Store := map[];
    var r := CreateApiKey(s, Some(u), k1);
    created := r.status;
    CreateIssuesKey(s, u, k1);
    var c1 := CheckApiKey(r.store, Some(k1));
    var c2 := CheckApiKey(r.store, Some(other));
    assert r.store.Keys == {u};
    assert ApiKeyValues(r.store[u]) == [k1];
    valid, invalid := c1.status, c2.status;
  }

  /**
   Create, then rotate twice, for one user in a store where nobody else
   holds the first two keys: both rotations succeed, and of the three keys
   only the last is held afterwards.
   */
  lemma CreateRotateRotateKeepsLast(s: Store, u: UserId, k1: string, k2: string, k3: string)
    requires WellFormedKey(k1) && WellFormedKey(k2) && WellFormedKey(k3)
    requires k1 != k2 && k2 != k3 && k1 != k3
    requires forall v :: v in s && v != u ==> ApiKeyRow(k1) !in s[v] && ApiKeyRow(k2) !in s[v]
    ensures var s1 := CreateApiKey(s, Some(u), k1).store;
            var r2 := RotateApiKey(s1, Some(u), k2);
            var r3 := RotateApiKey(r2.store, Some(u), k3);
            && r2.status == Ok && r3.status == Ok
            && !Issued(r3.store, k1) && !Issued(r3.store, k2) && Issued(r3.store, k3)
  {
    var s1 := CreateApiKey(s, Some(u), k1).store;
    CreateIssuesKey(s, u, k1);
    AddKeepsOthersFree(s, u, k1, k1);
    AddKeepsOthersFree(s, u, k2, k1);
    var s2 := RotateApiKey(s1, Some(u), k2).store;
    CreateIssuesKey(s1, u, k2);
    AddKeepsOthersFree(s1, u, k1, k2);
    AddKeepsOthersFree(s1, u, k2, k2);
    ReplaceRevokesOldKey(s2, u, k1, k3);
    ReplaceRevokesOldKey(s2, u, k2, k3);
    CreateIssuesKey(s2, u, k3);
  }

  /**
   The create / rotate / rotate scenario as the endpoints answer it: every
   call answers 200 and, of the three keys, only the last passes the check,
   when nobody else holds the first two.
   */
  method CreateRotateRotate(s: Store, u: UserId, k1: string, k2: string, k3: string)
      returns (statuses: seq<Status>, checks: seq<Status>)
    requires WellFormedKey(k1) && WellFormedKey(k2) && WellFormedKey(k3)
    requires k1 != k2 && k2 != k3 && k1 != k3
    requires forall v :: v in s && v != u ==> ApiKeyRow(k1) !in s[v] && ApiKeyRow(k2) !in s[v]
    ensures statuses == [Ok, Ok, Ok]
    ensures checks == [Unauthorized, Unauthorized, Ok]
  {
    CreateRotateRotateKeepsLast(s, u, k1, k2, k3);
    var r1 := CreateApiKey(s, Some(u), k1);
    var r2 := RotateApiKey(r1.store, Some(u), k2);
    var r3 := RotateApiKey(r2.store, Some(u), k3);
    var c1 := CheckApiKey(r3.store, Some(k1));
    var c2 := CheckApiKey(r3.store, Some(k2));
    var c3 := CheckApiKey(r3.store, Some(k3));
    statuses := [r1.status, r2.status, r3.status];
    checks := [c1.status, c2.status, c3.status];
  }
}
