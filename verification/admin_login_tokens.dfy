/** The one-time admin login links of `convex/adminLoginTokens.ts`. A token
    row is created unused; validating it marks it used, so it works once,
    and only until 15 minutes after it was created. */
module AdminLoginTokens {
  import opened Wrappers

  /** `TTL_MS`: 15 minutes in milliseconds. */
  const TtlMs: int := 15 * 60 * 1000

  /** A row of the `adminLoginTokens` table. */
  datatype Token = Token(poolId: nat, tokenHash: string, expiresAt: int, usedAt: Option<int>)

  /** JavaScript truthiness of `token.usedAt`: set and non-zero. */
  predicate Used(t: Token) {
    t.usedAt.Some? && t.usedAt.value != 0
  }

  /** The first row with this hash (the `by_tokenHash` index, `.first()`). */
  function FindToken(ts: seq<Token>, hash: string): (k: Option<nat>)
    ensures k.Some? ==> k.value < |ts| && ts[k.value].tokenHash == hash
    ensures k.Some? ==> forall j :: 0 <= j < k.value ==> ts[j].tokenHash != hash
    ensures k.None? <==> forall j :: 0 <= j < |ts| ==> ts[j].tokenHash != hash
  {
    if ts == [] then None
    else if ts[0].tokenHash == hash then Some(0)
    else
      var rest := FindToken(ts[1..], hash);
      assert forall j :: 1 <= j < |ts| ==> ts[j] == ts[1..][j - 1];
      if rest.Some? then Some(rest.value + 1) else None
  }

  /** The successful answer: the pool's slug and id. */
  datatype Login = Login(slug: string, poolId: nat)

  /** What `validateAndConsumeToken` does to the table and answers, given
      the pools table as a map from pool id to slug. */
  function Validate(ts: seq<Token>, hash: string, now: int, pools: map<nat, string>): (out: (seq<Token>, Result<Login, string>))
    ensures FindToken(ts, hash).None? ==> out == (ts, Failure("Invalid or expired link"))
    ensures out.1.Success? ==>
      var k := FindToken(ts, hash);
      && k.Some? && !Used(ts[k.value]) && now <= ts[k.value].expiresAt
      && out.1.value.poolId == ts[k.value].poolId && out.1.value.poolId in pools
      && out.1.value.slug == pools[out.1.value.poolId]
    ensures out.0 == ts || (FindToken(ts, hash).Some? && out.0 == ts[FindToken(ts, hash).value := ts[FindToken(ts, hash).value].(usedAt := Some(now))])
  {
    match FindToken(ts, hash)
    case None => (ts, Failure("Invalid or expired link"))
    case Some(k) =>
      var t := ts[k];
      if Used(t) then (ts, Failure("This link has already been used"))
      else if now > t.expiresAt then (ts, Failure("This link has expired"))
      else
        var ts2 := ts[k := t.(usedAt := Some(now))];
        if t.poolId in pools then (ts2, Success(Login(pools[t.poolId], t.poolId)))
        else (ts2, Failure("Pool not found"))
  }

  /** A link works at most once: once a validation got past the used and
      expiry checks (whether or not the pool still exists), any later
      validation of the same hash fails as already used. */
  lemma {:induction false} SecondValidationFails(ts: seq<Token>, hash: string, now: int, pools: map<nat, string>,
                                                 later: int, pools2: map<nat, string>)
    requires now != 0
    requires FindToken(ts, hash).Some?
    requires !Used(ts[FindToken(ts, hash).value]) && now <= ts[FindToken(ts, hash).value].expiresAt
    ensures Validate(Validate(ts, hash, now, pools).0, hash, later, pools2).1 == Failure("This link has already been used")
  {
    var k := FindToken(ts, hash).value;
    var ts2 := Validate(ts, hash, now, pools).0;
    assert ts2 == ts[k := ts[k].(usedAt := Some(now))];
    assert forall j :: 0 <= j < |ts| ==> ts2[j].tokenHash == ts[j].tokenHash;
    var k2 := FindToken(ts2, hash).value;
    assert ts[k2].tokenHash == hash;
    assert k2 == k;
  }

  /** A link created at `created` with a hash not already in the table
      logs in to its pool at any time up to and including `created` + 15
      minutes (the comparison is strict), and is expired after that. */
  lemma {:induction false} CreatedTokenValidates(ts: seq<Token>, poolId: nat, hash: string, created: int, now: int, pools: map<nat, string>)
    requires FindToken(ts, hash).None?
    ensures var r := Validate(ts + [Token(poolId, hash, created + TtlMs, None)], hash, now, pools).1;
      && (now <= created + TtlMs && poolId in pools ==> r == Success(Login(pools[poolId], poolId)))
      && (now <= created + TtlMs && poolId !in pools ==> r == Failure("Pool not found"))
      && (now > created + TtlMs ==> r == Failure("This link has expired"))
  {
    var ts2 := ts + [Token(poolId, hash, created + TtlMs, None)];
    assert forall j :: 0 <= j < |ts| ==> ts2[j] == ts[j];
    assert ts2[|ts|].tokenHash == hash;
    var k := FindToken(ts2, hash).value;
    assert k == |ts|;
  }

  /** The `adminLoginTokens` table. */
  class TokenTable {
    var tokens: seq<Token>

    constructor ()
      ensures tokens == []
    {
      tokens := [];
    }

    /** `createAdminLoginToken`: a new unused row expiring 15 minutes from
        `now`. */
    method CreateAdminLoginToken(poolId: nat, tokenHash: string, now: int) returns (expiresAt: int)
      modifies this
      ensures expiresAt == now + TtlMs
      ensures tokens == old(tokens) + [Token(poolId, tokenHash, expiresAt, None)]
    {
      expiresAt := now + TtlMs;
      tokens := tokens + [Token(poolId, tokenHash, expiresAt, None)];
    }

    /** `validateAndConsumeToken`. */
    method ValidateAndConsumeToken(tokenHash: string, now: int, pools: map<nat, string>) returns (r: Result<Login, string>)
      modifies this
      ensures (tokens, r) == Validate(old(tokens), tokenHash, now, pools)
    {
      var found := FindToken(tokens, tokenHash);
      if found.None? {
        return Failure("Invalid or expired link");
      }
      var k := found.value;
      var token := tokens[k];
      if Used(token) {
        return Failure("This link has already been used");
      }
      if now > token.expiresAt {
        return Failure("This link has expired");
      }
      tokens := tokens[k := token.(usedAt := Some(now))];
      if token.poolId !in pools {
        return Failure("Pool not found");
      }
      return Success(Login(pools[token.poolId], token.poolId));
    }
  }
}
