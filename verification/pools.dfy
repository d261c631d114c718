/** The pool mutations and queries of `convex/pools.ts`: creation under the
    global rate limit, the admin list, the quota change, the number draw and
    the limits record. */
module Pools {
  import opened Wrappers
  import opened Schema
  import Text
  import Sorting
  import Shuffle

  const SlugChars: string := "abcdefghijklmnopqrstuvwxyz0123456789"
  const SlugLength: nat := 8
  /** Pools that may be created per window before sponsored capacity. */
  const BaseCap: int := 100
  /** `listPools` returns at most this many summaries. */
  const ListLimit: nat := 100

  /** The single row of the `globalLimits` table. */
  datatype GlobalLimits = GlobalLimits(windowStart: int, createdCount: int, bonusCapacity: int, bonusExpiresAt: int)

  /** The row `createPool` and `addSponsorCapacity` insert when none exists. */
  function InitialLimits(now: int): GlobalLimits {
    GlobalLimits(now, 0, 0, 0)
  }

  predicate IsSlug(s: string) {
    |s| == SlugLength && forall i :: 0 <= i < |s| ==> s[i] in SlugChars
  }

  /** `generateSlug`: eight characters drawn from `SlugChars`; which one is
      drawn each time is left open. */
  method GenerateSlug() returns (slug: string)
    ensures IsSlug(slug)
  {
    slug := "";
    var i := 0;
    while i < SlugLength
      invariant 0 <= i <= SlugLength && |slug| == i
      invariant forall k :: 0 <= k < i ==> slug[k] in SlugChars
    {
      var c :| 0 <= c < |SlugChars|;
      slug := slug + [SlugChars[c]];
      i := i + 1;
    }
  }

  // ------------------------------------------------------------ email

  /** `adminEmail.trim().toLowerCase()`. */
  function NormalizeEmail(email: string): (r: string)
    ensures Text.IsTrimmed(r)
    ensures r == [] <==> Text.AllSpace(email)
    ensures forall i :: 0 <= i < |r| ==> !('A' <= r[i] <= 'Z')
  {
    Text.Lower(Text.Trim(email))
  }

  /** Normalising a stored email again changes nothing. */
  lemma NormalizeEmailIdempotent(email: string)
    ensures NormalizeEmail(NormalizeEmail(email)) == NormalizeEmail(email)
  {
    var r := NormalizeEmail(email);
    assert Text.Trim(r) == r;
    assert Text.Lower(r) == r;
  }

  // -------------------------------------------------------- rate limit

  /** A creation is admitted while fewer than 100 + bonus pools were made in
      the window. */
  predicate Admits(lim: GlobalLimits) {
    lim.createdCount < BaseCap + lim.bonusCapacity
  }

  /** How many of `attempts` creations in a row get through when nothing
      else touches the limits row. */
  function Admitted(lim: GlobalLimits, attempts: nat): nat
    decreases attempts
  {
    if attempts == 0 || !Admits(lim) then 0
    else 1 + Admitted(lim.(createdCount := lim.createdCount + 1), attempts - 1)
  }

  /** The global cap: of n attempts exactly min(n, 100 + bonus - created)
      succeed (none once the count has reached the cap). */
  lemma {:induction false} AdmittedIsCap(lim: GlobalLimits, attempts: nat)
    ensures var room := BaseCap + lim.bonusCapacity - lim.createdCount;
      Admitted(lim, attempts) == if room <= 0 then 0 else if attempts < room then attempts else room
    decreases attempts
  {
    if attempts > 0 && Admits(lim) {
      AdmittedIsCap(lim.(createdCount := lim.createdCount + 1), attempts - 1);
    }
  }

  datatype CreateError = InvalidInput | RateLimit

  /** The limits row after one more pool was created in the window. */
  function CountCreation(lim: GlobalLimits): (l: GlobalLimits)
    ensures l.createdCount == lim.createdCount + 1
    ensures l.windowStart == lim.windowStart && l.bonusCapacity == lim.bonusCapacity
    ensures l.bonusExpiresAt == lim.bonusExpiresAt
  {
    lim.(createdCount := lim.createdCount + 1)
  }

  /** The do-while of `createPool`: take draws until one is not in use. */
  method PickFreshSlug(draws: seq<string>, used: set<string>) returns (slug: string)
    requires exists k :: 0 <= k < |draws| && draws[k] !in used
    ensures slug in draws && slug !in used
  {
    var k := 0;
    slug := draws[0];
    while slug in used
      invariant 0 <= k < |draws| && slug == draws[k]
      invariant exists j :: k <= j < |draws| && draws[j] !in used
      decreases |draws| - k
    {
      k := k + 1;
      slug := draws[k];
    }
  }

  /** The deployment-wide state `createPool` consults: the limits row and
      the `by_slug` index of existing pools. */
  class Deployment {
    var limits: Option<GlobalLimits>
    var slugs: set<string>

    constructor ()
      ensures limits == None && slugs == {}
    {
      limits := None;
      slugs := {};
    }

    /** `createPool`. `draws` are the successive results of `generateSlug`;
        the do-while keeps drawing while the slug is taken. A thrown error
        rolls the whole mutation back, including a just-inserted limits row. */
    method CreatePool(title: string, adminEmail: string, maxSquaresPerPerson: int, now: int, draws: seq<string>)
      returns (r: Result<Pool, CreateError>)
      requires forall k :: 0 <= k < |draws| ==> IsSlug(draws[k])
      requires exists k :: 0 <= k < |draws| && draws[k] !in slugs
      modifies this`limits, this`slugs
      ensures Text.AllSpace(adminEmail) ==> r == Failure(InvalidInput)
      ensures !Text.AllSpace(adminEmail) && !Admits(old(limits).GetOr(InitialLimits(now))) ==> r == Failure(RateLimit)
      ensures r.Failure? ==> limits == old(limits) && slugs == old(slugs)
      ensures r.Success? ==> !Text.AllSpace(adminEmail) && Admits(old(limits).GetOr(InitialLimits(now)))
      ensures r.Success? ==> limits == Some(CountCreation(old(limits).GetOr(InitialLimits(now))))
      ensures r.Success? ==>
        && fresh(r.value) && fresh(r.value.owners) && r.value.Valid()
        && IsSlug(r.value.slug) && r.value.slug !in old(slugs)
        && slugs == old(slugs) + {r.value.slug}
      ensures r.Success? ==>
        && r.value.title == Text.Trim(title)
        && r.value.adminEmail == NormalizeEmail(adminEmail)
        && r.value.status == Open && r.value.createdAt == now
        && r.value.maxSquaresPerPerson == maxSquaresPerPerson
        && r.value.participants == []
        && r.value.rowNumbers == None && r.value.colNumbers == None
        && forall i :: 0 <= i < r.value.owners.Length ==> r.value.owners[i] == None
    {
      var email := NormalizeEmail(adminEmail);
      if email == [] {
        return Failure(InvalidInput);
      }
      var lim := if limits.Some? then limits.value else InitialLimits(now);
      assert lim == old(limits).GetOr(InitialLimits(now));
      var cap := BaseCap + lim.bonusCapacity;
      if lim.createdCount >= cap {
        return Failure(RateLimit);
      }
      var slug := PickFreshSlug(draws, slugs);
      var pool := new Pool(slug, Text.Trim(title), email, maxSquaresPerPerson, now);
      slugs := slugs + {slug};
      limits := Some(CountCreation(lim));
      return Success(pool);
    }

    /** `addSponsorCapacity`: a non-positive amount is ignored; otherwise
        the bonus grows by `amount`, on a fresh limits row if there was none. */
    method AddSponsorCapacity(amount: int, now: int)
      modifies this`limits
      ensures amount <= 0 ==> limits == old(limits)
      ensures amount > 0 ==>
        var lim := old(limits).GetOr(InitialLimits(now));
        limits == Some(lim.(bonusCapacity := lim.bonusCapacity + amount))
    {
      if amount <= 0 {
        return;
      }
      var lim := if limits.Some? then limits.value else InitialLimits(now);
      limits := Some(lim.(bonusCapacity := lim.bonusCapacity + amount));
    }

    /** `resetGlobalLimits`: restart the window when the row exists. */
    method ResetGlobalLimits(now: int)
      modifies this`limits
      ensures old(limits) == None ==> limits == None
      ensures old(limits).Some? ==> limits == Some(old(limits).value.(createdCount := 0, windowStart := now))
    {
      if limits.Some? {
        limits := Some(limits.value.(createdCount := 0, windowStart := now));
      }
    }
  }

  /** Sponsored capacity admits exactly `amount` more creations. */
  lemma SponsorRaisesCap(lim: GlobalLimits, amount: int, attempts: nat)
    requires amount > 0 && lim.createdCount <= BaseCap + lim.bonusCapacity
    ensures Admitted(lim.(bonusCapacity := lim.bonusCapacity + amount), attempts)
         == if attempts < BaseCap + lim.bonusCapacity + amount - lim.createdCount
            then attempts else BaseCap + lim.bonusCapacity + amount - lim.createdCount
  {
    AdmittedIsCap(lim.(bonusCapacity := lim.bonusCapacity + amount), attempts);
  }

  // -------------------------------------------------------------- list

  /** What `listPools` reads of one pool: its document, its participant
      count and its square rows. */
  datatype PoolRecord = PoolRecord(id: nat, title: string, slug: string, status: PoolStatus, createdAt: int,
                                   participantCount: nat, owners: seq<Option<ParticipantId>>)

  datatype PoolSummary = PoolSummary(id: nat, title: string, slug: string, status: PoolStatus, createdAt: int,
                                     participantCount: nat, claimedCount: nat)

  function Summarize(p: PoolRecord): (s: PoolSummary)
    ensures s.claimedCount == CountClaimed(p.owners) && s.createdAt == p.createdAt && s.id == p.id
  {
    PoolSummary(p.id, p.title, p.slug, p.status, p.createdAt, p.participantCount, CountClaimed(p.owners))
  }

  function CreatedAt(p: PoolRecord): int { p.createdAt }

  function MapSummaries(ps: seq<PoolRecord>): (r: seq<PoolSummary>)
    ensures |r| == |ps| && forall i :: 0 <= i < |ps| ==> r[i] == Summarize(ps[i])
  {
    if ps == [] then [] else [Summarize(ps[0])] + MapSummaries(ps[1..])
  }

  /** The pools `listPools` keeps: sorted newest first (stable), then the
      first 100. */
  function NewestFirst(pools: seq<PoolRecord>): (kept: seq<PoolRecord>)
    ensures |kept| == if |pools| < ListLimit then |pools| else ListLimit
    ensures Sorting.SortedDesc(kept, CreatedAt)
    ensures multiset(kept) <= multiset(pools)
    ensures forall p :: p in pools && p !in kept ==> forall i :: 0 <= i < |kept| ==> kept[i].createdAt >= p.createdAt
  {
    var sorted := Sorting.SortDesc(pools, CreatedAt);
    var n := if |sorted| < ListLimit then |sorted| else ListLimit;
    Sorting.PrefixOfSorted(sorted, CreatedAt, n);
    Sorting.SameMembers(sorted, pools);
    sorted[..n]
  }

  /** `listPools`: newest first, at most 100, each pool summarised with its
      number of owned squares. */
  function ListPools(pools: seq<PoolRecord>): (r: seq<PoolSummary>)
    ensures |r| == if |pools| < ListLimit then |pools| else ListLimit
    ensures forall i, j :: 0 <= i < j < |r| ==> r[i].createdAt >= r[j].createdAt
  {
    MapSummaries(NewestFirst(pools))
  }

  /** Each listed summary is the summary of an input pool, so its
      `claimedCount` is that pool's number of owned squares. */
  lemma ListPoolsFromInput(pools: seq<PoolRecord>)
    ensures var r := ListPools(pools);
      forall i :: 0 <= i < |r| ==> exists p :: p in pools && r[i] == Summarize(p)
  {
    var kept := NewestFirst(pools);
    var r := ListPools(pools);
    forall i | 0 <= i < |r| ensures exists p :: p in pools && r[i] == Summarize(p) {
      assert kept[i] in multiset(pools);
    }
  }

  /** A pool left out of the list is no newer than any listed one. */
  lemma ListPoolsDropsOldest(pools: seq<PoolRecord>)
    ensures var r := ListPools(pools);
      forall p :: p in pools ==>
        Summarize(p) in r || forall i :: 0 <= i < |r| ==> r[i].createdAt >= p.createdAt
  {
    var kept := NewestFirst(pools);
    var r := ListPools(pools);
    forall p | p in pools
      ensures Summarize(p) in r || forall i :: 0 <= i < |r| ==> r[i].createdAt >= p.createdAt
    {
      if p in kept {
        var j :| 0 <= j < |kept| && kept[j] == p;
        assert r[j] == Summarize(p);
      }
    }
  }

  // ------------------------------------------------------- max squares

  /** `Math.max(1, Math.min(100, x))` for an integral request. */
  function Clamp(x: int): (m: int)
    ensures 1 <= m <= 100
    ensures 1 <= x <= 100 ==> m == x
    ensures x < 1 ==> m == 1
    ensures x > 100 ==> m == 100
  {
    if x < 1 then 1 else if x > 100 then 100 else x
  }

  /** The keys of the counting `Map`, in insertion order: owners in the
      order they first appear on the board. */
  function Appearance(s: seq<Option<ParticipantId>>): (order: seq<ParticipantId>)
    ensures Shuffle.Distinct(order)
    ensures forall p :: p in order <==> CountOwned(s, p) > 0
  {
    if s == [] then []
    else
      var n := |s| - 1;
      var prev := Appearance(s[..n]);
      if s[n].Some? && s[n].value !in prev then prev + [s[n].value] else prev
  }

  /** The count of the first key in `order` whose count exceeds `limit`. */
  function FirstOver(order: seq<ParticipantId>, s: seq<Option<ParticipantId>>, limit: int): (c: Option<nat>)
    ensures c.Some? ==> c.value > limit && exists k :: 0 <= k < |order| && CountOwned(s, order[k]) == c.value
    ensures c.None? <==> forall k :: 0 <= k < |order| ==> CountOwned(s, order[k]) <= limit
  {
    if order == [] then None
    else if CountOwned(s, order[0]) > limit then Some(CountOwned(s, order[0]))
    else
      var rest := FirstOver(order[1..], s, limit);
      assert forall k :: 1 <= k < |order| ==> order[k] == order[1..][k - 1];
      rest
  }

  /** The scan finds an offender exactly when some participant holds more
      squares than the new limit. */
  lemma FirstOverIffSomeoneOver(s: seq<Option<ParticipantId>>, limit: int)
    requires limit >= 0
    ensures FirstOver(Appearance(s), s, limit).Some? <==> exists p :: CountOwned(s, p) > limit
  {
    var order := Appearance(s);
    var c := FirstOver(order, s, limit);
    if exists p :: CountOwned(s, p) > limit {
      var p :| CountOwned(s, p) > limit;
      assert p in order;
      var k :| 0 <= k < |order| && order[k] == p;
      assert CountOwned(s, order[k]) > limit;
    }
    if c.Some? {
      var k :| 0 <= k < |order| && CountOwned(s, order[k]) == c.value;
      assert CountOwned(s, order[k]) > limit;
    }
  }

  function TooManyMessage(count: nat): string {
    "A player already has " + Text.NatToString(count) + " squares. They must release some first."
  }

  datatype UpdateResult = UpdateResult(ok: bool, error: Option<string>)

  /** The counting loop of `updateMaxSquares`: per-owner counts in a map
      whose keys are also listed in insertion order. */
  method CountByParticipant(owners: array<Option<ParticipantId>>)
    returns (counts: map<ParticipantId, nat>, order: seq<ParticipantId>)
    ensures order == Appearance(owners[..])
    ensures forall p :: p in counts <==> p in order
    ensures forall p :: p in counts ==> counts[p] == CountOwned(owners[..], p)
  {
    counts := map[];
    order := [];
    var i := 0;
    while i < owners.Length
      invariant 0 <= i <= owners.Length
      invariant order == Appearance(owners[..i])
      invariant forall p :: p in counts <==> p in order
      invariant forall p :: p in counts ==> counts[p] == CountOwned(owners[..i], p)
    {
      assert owners[..i + 1][..i] == owners[..i];
      if owners[i].Some? {
        var p := owners[i].value;
        var c := if p in counts then counts[p] else 0;
        if p !in counts {
          order := order + [p];
        }
        counts := counts[p := c + 1];
      }
      i := i + 1;
    }
    assert owners[..i] == owners[..];
  }

  /** `updateMaxSquares`. The request is clamped to [1, 100]; raising (or
      keeping) the limit always succeeds, lowering it fails, leaving the pool
      as it was, when some participant holds more than the new limit, and the
      message names the count of the first such participant in board order. */
  method UpdateMaxSquares(pool: Pool?, requested: int) returns (r: UpdateResult)
    requires pool != null ==> pool.Valid()
    modifies if pool != null then {pool} else {}
    ensures pool == null ==> r == UpdateResult(false, Some("Pool not found"))
    ensures pool != null ==>
      var newMax := Clamp(requested);
      var offender := FirstOver(Appearance(pool.owners[..]), pool.owners[..], newMax);
      && pool.participants == old(pool.participants)
      && (if newMax < old(pool.maxSquaresPerPerson) && offender.Some?
          then r == UpdateResult(false, Some(TooManyMessage(offender.value)))
               && pool.maxSquaresPerPerson == old(pool.maxSquaresPerPerson)
          else r == UpdateResult(true, None) && pool.maxSquaresPerPerson == newMax)
    ensures pool != null ==> pool.Valid()
    ensures pool != null ==> unchanged(pool`slug, pool`title, pool`adminEmail, pool`status, pool`createdAt)
    ensures pool != null ==> unchanged(pool`rowNumbers, pool`colNumbers)
  {
    if pool == null {
      return UpdateResult(false, Some("Pool not found"));
    }
    var newMax := Clamp(requested);
    if newMax < pool.maxSquaresPerPerson {
      var counts, order := CountByParticipant(pool.owners);
      var k := 0;
      while k < |order|
        invariant 0 <= k <= |order|
        invariant FirstOver(order[k..], pool.owners[..], newMax) == FirstOver(order, pool.owners[..], newMax)
      {
        assert order[k..][1..] == order[k + 1..];
        var count := counts[order[k]];
        if count > newMax {
          return UpdateResult(false, Some(TooManyMessage(count)));
        }
        k := k + 1;
      }
    }
    pool.maxSquaresPerPerson := newMax;
    return UpdateResult(true, None);
  }

  // ----------------------------------------------------------- numbers

  datatype AssignResult = AssignResult(ok: bool, rowNumbers: Option<seq<int>>, colNumbers: Option<seq<int>>, error: Option<string>)

  /** `assignNumbers`: two independent shuffles of 0..9, stored and
      returned; nothing else about the pool changes. */
  method AssignNumbers(pool: Pool?) returns (r: AssignResult)
    modifies if pool != null then {pool} else {}
    ensures pool == null ==> r == AssignResult(false, None, None, Some("Pool not found"))
    ensures pool != null ==>
      && r.ok && r.error == None && r.rowNumbers.Some? && r.colNumbers.Some?
      && Shuffle.IsDigitPermutation(r.rowNumbers.value) && Shuffle.IsDigitPermutation(r.colNumbers.value)
      && pool.rowNumbers == r.rowNumbers && pool.colNumbers == r.colNumbers
    ensures pool != null ==> unchanged(pool`slug, pool`title, pool`adminEmail, pool`status, pool`createdAt)
    ensures pool != null ==> unchanged(pool`maxSquaresPerPerson, pool`participants)
  {
    if pool == null {
      return AssignResult(false, None, None, Some("Pool not found"));
    }
    var rowNumbers := Shuffle.ShuffleDigits();
    var colNumbers := Shuffle.ShuffleDigits();
    pool.rowNumbers := Some(rowNumbers);
    pool.colNumbers := Some(colNumbers);
    return AssignResult(true, Some(rowNumbers), Some(colNumbers), None);
  }
}
