/** The square mutations of `convex/squares.ts`: claiming in request order
    under the per-player quota, releasing, and dealing the free squares out
    round-robin after a shuffle. */
module Squares {
  import opened Wrappers
  import opened Schema
  import Shuffle

  type Board = seq<Option<ParticipantId>>

  /** The `ConvexError` codes `claimSquares` throws; the two NOT_FOUND
      cases carry different messages. */
  datatype ClaimError = PoolNotFound | PoolLocked | ParticipantNotFound | LimitReached(maxAllowed: int)

  /** The square with this index exists and had no owner. */
  predicate Claimable(snap: Board, idx: int) {
    0 <= idx < |snap| && snap[idx].None?
  }

  predicate Owned(s: Board, idx: int) {
    0 <= idx < |s| && s[idx].Some?
  }

  // ---------------------------------------------------------------- claim

  /** The indexes `claimSquares` patches, in order: each request that names
      a square free in the snapshot, until `budget` have been taken. The
      snapshot is read once, so a repeated free index is taken again. */
  function ClaimPlan(snap: Board, reqs: seq<int>, budget: int): (plan: seq<int>)
    ensures |plan| <= if budget < 0 then 0 else budget
    ensures |plan| <= |reqs|
    ensures forall k :: 0 <= k < |plan| ==> Claimable(snap, plan[k])
  {
    if reqs == [] || budget <= 0 then []
    else
      var rest := ClaimPlan(snap, reqs[1..], if Claimable(snap, reqs[0]) then budget - 1 else budget);
      if Claimable(snap, reqs[0]) then [reqs[0]] + rest else rest
  }

  /** The board after patching every index of `plan` to `p`. */
  function Mark(s: Board, plan: seq<int>, p: ParticipantId): (r: Board)
  {
    seq(|s|, i requires 0 <= i < |s| => if i in plan then Some(p) else s[i])
  }

  /** Patching one more index is one more array update. */
  lemma MarkSnoc(s: Board, plan: seq<int>, x: int, p: ParticipantId)
    requires 0 <= x < |s|
    ensures Mark(s, plan + [x], p) == Mark(s, plan, p)[x := Some(p)]
  {
  }

  /** Marking `plan` adds at most |plan| squares to `p`'s count. */
  lemma {:induction false} MarkCountBound(s: Board, plan: seq<int>, p: ParticipantId)
    ensures CountOwned(Mark(s, plan, p), p) <= CountOwned(s, p) + |plan|
    decreases |plan|
  {
    if plan != [] {
      var n := |plan| - 1;
      var prev := plan[..n];
      assert plan == prev + [plan[n]];
      MarkCountBound(s, prev, p);
      if 0 <= plan[n] < |s| {
        MarkSnoc(s, prev, plan[n], p);
        assert Mark(s, plan, p) == Mark(s, prev, p)[plan[n] := Some(p)];
        CountOwnedUpdate(Mark(s, prev, p), plan[n], Some(p), p);
      } else {
        forall i | 0 <= i < |s| ensures Mark(s, plan, p)[i] == Mark(s, prev, p)[i] {
          assert i in plan <==> i in prev;
        }
        assert Mark(s, plan, p) == Mark(s, prev, p);
      }
    } else {
      assert Mark(s, plan, p) == s;
    }
  }

  /** A participant under the quota never ends above it through a claim,
      and every square owned in the snapshot keeps its owner. */
  lemma ClaimRespectsQuota(snap: Board, reqs: seq<int>, p: ParticipantId, maxAllowed: int)
    requires CountOwned(snap, p) < maxAllowed
    ensures var plan := ClaimPlan(snap, reqs, maxAllowed - CountOwned(snap, p));
      && CountOwned(Mark(snap, plan, p), p) <= maxAllowed
      && forall i :: 0 <= i < |snap| && snap[i].Some? ==> Mark(snap, plan, p)[i] == snap[i]
  {
    var plan := ClaimPlan(snap, reqs, maxAllowed - CountOwned(snap, p));
    MarkCountBound(snap, plan, p);
  }

  /** The documented quirk: with a free square 5 and room for three, the
      request [5, 5] takes square 5 twice, spends two of the three claims and
      adds a single square to the count. */
  lemma ClaimRepeatedIndex(snap: Board, p: ParticipantId)
    requires |snap| == BoardSize && snap[5] == None
    ensures ClaimPlan(snap, [5, 5], 3) == [5, 5]
    ensures CountOwned(Mark(snap, [5, 5], p), p) == CountOwned(snap, p) + 1
  {
    assert [5, 5][1..] == [5];
    assert Mark(snap, [5, 5], p) == snap[5 := Some(p)];
    CountOwnedUpdate(snap, 5, Some(p), p);
  }

  /** The loop of `claimSquares`: walk the requests, stop once `budget`
      squares are taken, skip a request whose square is missing or owned in
      the snapshot, otherwise patch it and push it onto `claimed`. */
  method PatchPlan(owners: array<Option<ParticipantId>>, snap: Board, reqs: seq<int>, budget: int, p: ParticipantId)
    returns (claimed: seq<int>)
    requires owners[..] == snap
    modifies owners
    ensures claimed == ClaimPlan(snap, reqs, budget)
    ensures owners[..] == Mark(snap, claimed, p)
  {
    claimed := [];
    var k := 0;
    while k < |reqs|
      invariant 0 <= k <= |reqs|
      invariant claimed + ClaimPlan(snap, reqs[k..], budget - |claimed|) == ClaimPlan(snap, reqs, budget)
      invariant owners.Length == |snap|
      invariant forall i :: 0 <= i < |snap| ==> owners[i] == if i in claimed then Some(p) else snap[i]
    {
      if |claimed| >= budget {
        break;
      }
      var idx := reqs[k];
      assert reqs[k..] == [idx] + reqs[k + 1..];
      if 0 <= idx < owners.Length && snap[idx].None? {
        ghost var rest := ClaimPlan(snap, reqs[k + 1..], budget - |claimed| - 1);
        assert ClaimPlan(snap, reqs[k..], budget - |claimed|) == [idx] + rest;
        assert claimed + ([idx] + rest) == (claimed + [idx]) + rest;
        owners[idx] := Some(p);
        claimed := claimed + [idx];
      } else {
        assert ClaimPlan(snap, reqs[k..], budget - |claimed|)
            == ClaimPlan(snap, reqs[k + 1..], budget - |claimed|);
      }
      k := k + 1;
    }
    assert owners[..] == Mark(snap, claimed, p);
  }

  /** `claimSquares`. The checks run in the source's order; on success the
      claimed list is the plan over the snapshot and the board is the
      snapshot with those squares patched. A thrown error leaves the board as
      it was (the mutation is one transaction). */
  method ClaimSquares(pool: Pool?, participantId: ParticipantId, squareIndexes: seq<int>)
    returns (r: Result<seq<int>, ClaimError>)
    requires pool != null ==> pool.Valid()
    modifies if pool != null then {pool.owners} else {}
    ensures pool != null ==> pool.Valid()
    ensures pool == null ==> r == Failure(PoolNotFound)
    ensures pool != null && pool.status != Open ==> r == Failure(PoolLocked)
    ensures pool != null && pool.status == Open && participantId !in Ids(pool.participants)
      ==> r == Failure(ParticipantNotFound)
    ensures pool != null && pool.status == Open && participantId in Ids(pool.participants)
      && CountOwned(old(pool.owners[..]), participantId) >= pool.maxSquaresPerPerson
      ==> r == Failure(LimitReached(pool.maxSquaresPerPerson))
    ensures pool != null && r.Failure? ==> pool.owners[..] == old(pool.owners[..])
    ensures r.Success? ==> pool != null && pool.status == Open && participantId in Ids(pool.participants)
    ensures r.Success? ==>
      var snap := old(pool.owners[..]);
      && r.value == ClaimPlan(snap, squareIndexes, pool.maxSquaresPerPerson - CountOwned(snap, participantId))
      && pool.owners[..] == Mark(snap, r.value, participantId)
      && CountOwned(pool.owners[..], participantId) <= pool.maxSquaresPerPerson
  {
    if pool == null {
      return Failure(PoolNotFound);
    }
    if pool.status != Open {
      return Failure(PoolLocked);
    }
    if participantId !in Ids(pool.participants) {
      return Failure(ParticipantNotFound);
    }
    var snap := pool.owners[..];
    var currentCount := CountOwned(snap, participantId);
    var maxAllowed := pool.maxSquaresPerPerson;
    var canClaim := maxAllowed - currentCount;
    if canClaim <= 0 {
      return Failure(LimitReached(maxAllowed));
    }
    var claimed := PatchPlan(pool.owners, snap, squareIndexes, canClaim, participantId);
    ClaimRespectsQuota(snap, squareIndexes, participantId, maxAllowed);
    forall i | 0 <= i < pool.owners.Length && pool.owners[i].Some?
      ensures pool.owners[i].value in Ids(pool.participants)
    {
      assert pool.owners[i] == pool.owners[..][i];
      assert snap[i].Some? ==> snap[i].value in Ids(pool.participants);
    }
    return Success(claimed);
  }

  // -------------------------------------------------------------- release

  /** Releasing `reqs` one after another against the current board: the
      indexes that had an owner when their turn came, and the final board. */
  function Release(s: Board, reqs: seq<int>): (out: (seq<int>, Board))
    ensures |out.1| == |s|
    decreases |reqs|
  {
    if reqs == [] then ([], s)
    else if Owned(s, reqs[0]) then
      var rest := Release(s[reqs[0] := None], reqs[1..]);
      ([reqs[0]] + rest.0, rest.1)
    else Release(s, reqs[1..])
  }

  /** After a release every requested square is free and every other square
      is unchanged. */
  lemma {:induction false} ReleaseBoard(s: Board, reqs: seq<int>)
    ensures forall i :: 0 <= i < |s| ==> Release(s, reqs).1[i] == if i in reqs then None else s[i]
    decreases |reqs|
  {
    if reqs != [] {
      assert reqs == [reqs[0]] + reqs[1..];
      if Owned(s, reqs[0]) {
        ReleaseBoard(s[reqs[0] := None], reqs[1..]);
      } else {
        ReleaseBoard(s, reqs[1..]);
      }
    }
  }

  /** The released list holds exactly the requested indexes that had an
      owner, each once, in request order. */
  lemma {:induction false} ReleasedExactly(s: Board, reqs: seq<int>)
    ensures forall x :: x in Release(s, reqs).0 <==> x in reqs && Owned(s, x)
    ensures Shuffle.Distinct(Release(s, reqs).0)
    decreases |reqs|
  {
    if reqs != [] {
      assert reqs == [reqs[0]] + reqs[1..];
      if Owned(s, reqs[0]) {
        var rest := Release(s[reqs[0] := None], reqs[1..]).0;
        ReleasedExactly(s[reqs[0] := None], reqs[1..]);
        assert reqs[0] !in rest;
        assert Release(s, reqs).0 == [reqs[0]] + rest;
      } else {
        ReleasedExactly(s, reqs[1..]);
      }
    }
  }

  /** The loop of `releaseSquares`: look each index up in the current rows
      and, when the square has an owner, clear it and push the index. */
  method ReleaseEach(owners: array<Option<ParticipantId>>, reqs: seq<int>) returns (released: seq<int>)
    modifies owners
    ensures (released, owners[..]) == Release(old(owners[..]), reqs)
  {
    released := [];
    var k := 0;
    while k < |reqs|
      invariant 0 <= k <= |reqs|
      invariant released + Release(owners[..], reqs[k..]).0 == Release(old(owners[..]), reqs).0
      invariant Release(owners[..], reqs[k..]).1 == Release(old(owners[..]), reqs).1
    {
      var idx := reqs[k];
      assert reqs[k..] == [idx] + reqs[k + 1..];
      if 0 <= idx < owners.Length && owners[idx].Some? {
        assert owners[..][idx := None] == owners[..][idx := None];
        owners[idx] := None;
        released := released + [idx];
      }
      k := k + 1;
    }
    assert reqs[k..] == [];
    assert released + [] == released;
  }

  /** `releaseSquares`: a missing pool throws NOT_FOUND; otherwise each
      request is looked up against the current rows, so a repeated index is
      released once. */
  method ReleaseSquares(pool: Pool?, squareIndexes: seq<int>) returns (r: Option<seq<int>>)
    requires pool != null ==> pool.Valid()
    modifies if pool != null then {pool.owners} else {}
    ensures pool != null ==> pool.Valid()
    ensures pool == null <==> r == None
    ensures pool != null ==>
      var out := Release(old(pool.owners[..]), squareIndexes);
      r == Some(out.0) && pool.owners[..] == out.1
  {
    if pool == null {
      return None;
    }
    ghost var start := pool.owners[..];
    var released := ReleaseEach(pool.owners, squareIndexes);
    ReleaseBoard(start, squareIndexes);
    forall i | 0 <= i < pool.owners.Length && pool.owners[i].Some?
      ensures pool.owners[i].value in Ids(pool.participants)
    {
      assert pool.owners[i] == pool.owners[..][i];
    }
    return Some(released);
  }

  // ----------------------------------------------------------- distribute

  /** The `distributeSquares` result object. */
  datatype DistributeResult = DistributeResult(ok: bool, distributed: nat, error: Option<string>)

  /** The indexes of the free squares, in increasing order. */
  function Unowned(s: Board): (u: seq<int>)
    ensures forall x :: x in u <==> 0 <= x < |s| && s[x].None?
    ensures Shuffle.Distinct(u)
    ensures |u| == |s| - CountClaimed(s)
  {
    if s == [] then []
    else
      var n := |s| - 1;
      var u := Unowned(s[..n]);
      assert forall x :: 0 <= x < n ==> s[..n][x] == s[x];
      assert n !in u;
      if s[n].None? then u + [n] else u
  }

  /** The board after dealing `order[k]` to `ids[k mod |ids|]` for each k. */
  function Deal(s: Board, order: seq<int>, ids: seq<ParticipantId>): (r: Board)
    requires |ids| > 0
    requires forall k :: 0 <= k < |order| ==> 0 <= order[k] < |s|
    ensures |r| == |s|
    ensures forall i :: 0 <= i < |s| && i !in order ==> r[i] == s[i]
    ensures forall i :: 0 <= i < |s| && i in order ==> r[i].Some? && r[i].value in ids
  {
    if order == [] then s
    else
      var n := |order| - 1;
      assert order == order[..n] + [order[n]];
      Deal(s, order[..n], ids)[order[n] := Some(ids[n % |ids|])]
  }

  /** How many of the first n deals go to position k among p players:
      |{ j < n : j mod p == k }|. */
  function Share(n: nat, p: nat, k: nat): (c: nat)
    requires p > 0 && k < p
  {
    n / p + (if k < n % p then 1 else 0)
  }

  /** One more deal goes to position k exactly when n mod p == k. */
  lemma ShareStep(n: nat, p: nat, k: nat)
    requires p > 0 && k < p
    ensures Share(n + 1, p, k) == Share(n, p, k) + (if n % p == k then 1 else 0)
  {
    var q, m := n / p, n % p;
    assert n == q * p + m && 0 <= m < p;
    if m + 1 < p {
      assert n + 1 == q * p + (m + 1);
      DivModUnique(n + 1, p, q, m + 1);
    } else {
      assert n + 1 == (q + 1) * p + 0;
      DivModUnique(n + 1, p, q + 1, 0);
    }
  }

  lemma DivModUnique(a: nat, p: nat, q: int, m: int)
    requires p > 0 && a == q * p + m && 0 <= m < p
    ensures a / p == q && a % p == m
  {
    var q', m' := a / p, a % p;
    assert (q' - q) * p == m - m' by {
      assert a == q' * p + m';
      assert (q' - q) * p == q' * p - q * p;
    }
    MulBound(q' - q, p);
  }

  /** A non-zero multiple of p is at least p away from zero. */
  lemma MulBound(d: int, p: int)
    requires p > 0
    ensures d >= 1 ==> d * p >= p
    ensures d <= -1 ==> d * p <= -p
  {
    if d >= 1 {
      assert d * p == (d - 1) * p + p;
      assert (d - 1) * p >= 0;
    } else if d <= -1 {
      assert d * p == (d + 1) * p - p;
      assert (d + 1) * p <= 0;
    }
  }

  /** Round robin is fair: each player gets ⌊n/p⌋ or ⌈n/p⌉ of n squares. */
  lemma ShareBounds(n: nat, p: nat, k: nat)
    requires p > 0 && k < p
    ensures n / p <= Share(n, p, k) <= n / p + 1
    ensures n % p == 0 ==> Share(n, p, k) == n / p
  {
  }

  /** Dealing distinct free squares adds exactly Share(|order|, |ids|, k)
      squares to the k-th of distinct players. */
  lemma {:induction false} DealCount(s: Board, order: seq<int>, ids: seq<ParticipantId>, k: nat)
    requires |ids| > 0 && k < |ids|
    requires forall a, b :: 0 <= a < b < |ids| ==> ids[a] != ids[b]
    requires forall t :: 0 <= t < |order| ==> 0 <= order[t] < |s| && s[order[t]] == None
    requires Shuffle.Distinct(order)
    ensures CountOwned(Deal(s, order, ids), ids[k]) == CountOwned(s, ids[k]) + Share(|order|, |ids|, k)
    decreases |order|
  {
    if order != [] {
      var n := |order| - 1;
      var prev := order[..n];
      assert order == prev + [order[n]];
      DealCount(s, prev, ids, k);
      assert order[n] !in prev;
      var before := Deal(s, prev, ids);
      assert before[order[n]] == None;
      CountOwnedUpdate(before, order[n], Some(ids[n % |ids|]), ids[k]);
      ShareStep(n, |ids|, k);
    }
  }

  /** Distinct sequences with equal multisets hold the same elements. */
  lemma PermutationKeepsDistinct(a: seq<int>, b: seq<int>)
    requires Shuffle.Distinct(a) && multiset(a) == multiset(b)
    ensures Shuffle.Distinct(b)
    ensures forall x :: x in a <==> x in b
  {
    Shuffle.DistinctMultiplicityOne(a);
    Shuffle.MultiplicityOneDistinct(b);
    forall x ensures x in a <==> x in b {
      assert x in a <==> x in multiset(a);
      assert x in b <==> x in multiset(b);
    }
  }

  /** Dealing a shuffle of all free squares fills the board, leaves owned
      squares alone and gives the k-th player Share(free, players, k) more. */
  lemma DealFillsBoard(s: Board, order: seq<int>, ids: seq<ParticipantId>)
    requires |ids| > 0
    requires forall a, b :: 0 <= a < b < |ids| ==> ids[a] != ids[b]
    requires Shuffle.Distinct(order)
    requires forall x :: x in order <==> 0 <= x < |s| && s[x].None?
    ensures forall t :: 0 <= t < |order| ==> 0 <= order[t] < |s|
    ensures forall i :: 0 <= i < |s| ==> Deal(s, order, ids)[i].Some?
    ensures forall i :: 0 <= i < |s| && s[i].Some? ==> Deal(s, order, ids)[i] == s[i]
    ensures forall k :: 0 <= k < |ids| ==>
      CountOwned(Deal(s, order, ids), ids[k]) == CountOwned(s, ids[k]) + Share(|order|, |ids|, k)
  {
    assert forall t :: 0 <= t < |order| ==> 0 <= order[t] < |s| && s[order[t]] == None by {
      forall t | 0 <= t < |order| ensures 0 <= order[t] < |s| && s[order[t]] == None {
        assert order[t] in order;
      }
    }
    forall k | 0 <= k < |ids|
      ensures CountOwned(Deal(s, order, ids), ids[k]) == CountOwned(s, ids[k]) + Share(|order|, |ids|, k)
    {
      DealCount(s, order, ids, k);
    }
  }

  /** The dealing loop of `distributeSquares`: square `shuffled[i]` goes to
      `ids[i % |ids|]`. */
  method DealRoundRobin(owners: array<Option<ParticipantId>>, shuffled: array<int>, ids: seq<ParticipantId>)
    returns (distributed: nat)
    requires |ids| > 0
    requires forall t :: 0 <= t < shuffled.Length ==> 0 <= shuffled[t] < owners.Length
    modifies owners
    ensures distributed == shuffled.Length
    ensures owners[..] == Deal(old(owners[..]), shuffled[..], ids)
  {
    ghost var start := owners[..];
    ghost var order := shuffled[..];
    distributed := 0;
    var i := 0;
    while i < shuffled.Length
      invariant 0 <= i <= shuffled.Length
      invariant distributed == i
      invariant owners[..] == Deal(start, order[..i], ids)
    {
      assert order[..i + 1] == order[..i] + [order[i]];
      owners[shuffled[i]] := Some(ids[i % |ids|]);
      distributed := distributed + 1;
      i := i + 1;
    }
    assert order[..i] == order;
  }

  /** `[...unclaimed]`: a fresh array holding the list. */
  method CopyToArray(s: seq<int>) returns (a: array<int>)
    ensures fresh(a) && a[..] == s
  {
    a := new int[|s|](i requires 0 <= i < |s| => s[i]);
  }

  /** The success path of `distributeSquares`: shuffle the free squares,
      then deal them round-robin to `ids`. */
  method ShuffleAndDeal(owners: array<Option<ParticipantId>>, unclaimed: seq<int>, ids: seq<ParticipantId>)
    returns (distributed: nat)
    requires |ids| > 0 && forall a, b :: 0 <= a < b < |ids| ==> ids[a] != ids[b]
    requires unclaimed == Unowned(owners[..])
    modifies owners
    ensures distributed == |unclaimed|
    ensures forall i :: 0 <= i < owners.Length ==> owners[i].Some?
    ensures forall i :: 0 <= i < owners.Length && old(owners[i]).None? ==> owners[i].value in ids
    ensures forall i :: 0 <= i < owners.Length && old(owners[i]).Some? ==> owners[i] == old(owners[i])
    ensures forall k :: 0 <= k < |ids| ==>
      CountOwned(owners[..], ids[k]) == CountOwned(old(owners[..]), ids[k]) + Share(distributed, |ids|, k)
  {
    ghost var snap := owners[..];
    var shuffled := CopyToArray(unclaimed);
    Shuffle.ShuffleInPlace(shuffled);
    PermutationKeepsDistinct(unclaimed, shuffled[..]);
    DealFillsBoard(snap, shuffled[..], ids);
    assert forall t :: 0 <= t < shuffled.Length ==> 0 <= shuffled[t] < owners.Length by {
      assert forall t :: 0 <= t < shuffled.Length ==> shuffled[t] == shuffled[..][t];
    }
    distributed := DealRoundRobin(owners, shuffled, ids);
    assert forall i :: 0 <= i < owners.Length ==> owners[i] == owners[..][i];
  }

  /** `distributeSquares`. The three error results leave the board as it was.
      On success every square is owned, squares owned before keep their
      owner, `distributed` is the number of squares that were free, and the
      k-th participant gains Share(free, players, k) squares: ⌊free/players⌋
      or one more. `maxSquaresPerPerson` plays no part. */
  method DistributeSquares(pool: Pool?) returns (r: DistributeResult)
    requires pool != null ==> pool.Valid()
    modifies if pool != null then {pool.owners} else {}
    ensures pool != null ==> pool.Valid()
    ensures pool == null ==> r == DistributeResult(false, 0, Some("Pool not found"))
    ensures pool != null && |pool.participants| == 0
      ==> r == DistributeResult(false, 0, Some("No players have joined yet"))
    ensures pool != null && |pool.participants| > 0 && CountClaimed(old(pool.owners[..])) == BoardSize
      ==> r == DistributeResult(false, 0, Some("All squares are already claimed"))
    ensures pool != null && |pool.participants| > 0 && CountClaimed(old(pool.owners[..])) < BoardSize ==> r.ok
    ensures pool != null && !r.ok ==> pool.owners[..] == old(pool.owners[..])
    ensures r.ok ==> pool != null && |pool.participants| > 0 && r.error == None
    ensures r.ok ==>
      var before := old(pool.owners[..]);
      && r.distributed == BoardSize - CountClaimed(before) > 0
      && (forall i :: 0 <= i < BoardSize ==> pool.owners[i].Some?)
      && (forall i :: 0 <= i < BoardSize && before[i].Some? ==> pool.owners[i] == before[i])
      && forall k :: 0 <= k < |pool.participants| ==>
           CountOwned(pool.owners[..], pool.participants[k].id)
             == CountOwned(before, pool.participants[k].id)
                + Share(r.distributed, |pool.participants|, k)
  {
    if pool == null {
      return DistributeResult(false, 0, Some("Pool not found"));
    }
    var participants := pool.participants;
    if |participants| == 0 {
      return DistributeResult(false, 0, Some("No players have joined yet"));
    }
    var snap := pool.owners[..];
    var unclaimed := Unowned(snap);
    if |unclaimed| == 0 {
      return DistributeResult(false, 0, Some("All squares are already claimed"));
    }
    var distributed := ShuffleAndDeal(pool.owners, unclaimed, Ids(participants));
    return DistributeResult(true, distributed, None);
  }
}
