/** Sponsor payments of `convex/sponsor.ts`: a payments table keyed by the
    payment's idempotency key, and the fulfilment that grants the paid-for
    pool capacity once per key. */
module Sponsor {
  import opened Wrappers
  import Pools

  /** A row of the `sponsorPayments` table. */
  datatype Payment = Payment(idempotencyKey: string, amount: int, createdAt: int)

  /** The first payment recorded under `key` (the `by_idempotencyKey`
      index, `.first()`), or none. */
  function FirstPayment(ps: seq<Payment>, key: string): (r: Option<Payment>)
    ensures r.Some? ==> r.value in ps && r.value.idempotencyKey == key
    ensures r.None? <==> forall j :: 0 <= j < |ps| ==> ps[j].idempotencyKey != key
  {
    if ps == [] then None
    else if ps[0].idempotencyKey == key then Some(ps[0])
    else
      var rest := FirstPayment(ps[1..], key);
      assert forall j :: 1 <= j < |ps| ==> ps[j] == ps[1..][j - 1];
      rest
  }

  /** Recording a payment under a new key makes the lookup find exactly
      that payment; under a key already present the lookup is unchanged;
      other keys are unaffected either way. */
  lemma {:induction false} RecordThenLookup(ps: seq<Payment>, key: string, amount: int, now: int, other: string)
    ensures FirstPayment(ps, key).None? ==> FirstPayment(ps + [Payment(key, amount, now)], key) == Some(Payment(key, amount, now))
    ensures FirstPayment(ps, key).Some? ==> FirstPayment(ps + [Payment(key, amount, now)], key) == FirstPayment(ps, key)
    ensures other != key ==> FirstPayment(ps + [Payment(key, amount, now)], other) == FirstPayment(ps, other)
    decreases |ps|
  {
    if ps != [] {
      assert (ps + [Payment(key, amount, now)])[1..] == ps[1..] + [Payment(key, amount, now)];
      RecordThenLookup(ps[1..], key, amount, now, other);
    }
  }

  /** The `sponsorPayments` table. */
  class PaymentTable {
    var payments: seq<Payment>

    constructor ()
      ensures payments == []
    {
      payments := [];
    }

    /** `getPaymentByKey`: the recorded payment, or null. */
    function GetPaymentByKey(key: string): (r: Option<Payment>)
      reads this
      ensures r.Some? ==> r.value in payments && r.value.idempotencyKey == key
      ensures r.None? <==> forall j :: 0 <= j < |payments| ==> payments[j].idempotencyKey != key
    {
      FirstPayment(payments, key)
    }

    /** `recordPayment`: append a row. */
    method RecordPayment(key: string, amount: int, now: int)
      modifies this
      ensures payments == old(payments) + [Payment(key, amount, now)]
    {
      payments := payments + [Payment(key, amount, now)];
    }
  }

  datatype SponsorError = Unauthorized

  /** What `fulfillSponsorship` answers when the secret matched. */
  datatype Fulfilment = Fulfilment(ok: bool, reason: Option<string>)

  /** The webhook secret check: the configured secret must be set and
      non-empty, and equal to the one given. */
  predicate Authorized(expected: Option<string>, secret: string) {
    expected.Some? && expected.value != "" && secret == expected.value
  }

  // ------------------------------------------- one delivery, one transaction

  /** What the fulfilment reads and writes: the `sponsorPayments` table and
      the `globalLimits` row. */
  datatype Store = Store(payments: seq<Payment>, limits: Option<Pools.GlobalLimits>)

  /** `addSponsorCapacity` on the limits row, for a positive amount. */
  function AddCapacity(limits: Option<Pools.GlobalLimits>, amount: int, now: int): (l: Option<Pools.GlobalLimits>)
    ensures l.Some? && l.value.bonusCapacity == limits.GetOr(Pools.InitialLimits(now)).bonusCapacity + amount
    ensures l.value.createdCount == limits.GetOr(Pools.InitialLimits(now)).createdCount
  {
    var lim := limits.GetOr(Pools.InitialLimits(now));
    Some(lim.(bonusCapacity := lim.bonusCapacity + amount))
  }

  const AlreadyProcessed := Fulfilment(true, Some("Already processed"))
  const Granted := Fulfilment(true, None)

  /** The fulfilment of a delivery whose secret and amount passed, done as
      one transaction: a known key is "Already processed" and changes
      nothing; a new key is recorded and its amount added to the bonus. */
  function FulfilAtomic(s: Store, amount: int, key: string, now: int): (r: (Store, Fulfilment))
    ensures r.1 == AlreadyProcessed <==> FirstPayment(s.payments, key).Some?
    ensures r.1 == AlreadyProcessed ==> r.0 == s
    ensures r.1 != AlreadyProcessed ==>
      && r.1 == Granted
      && r.0.payments == s.payments + [Payment(key, amount, now)]
      && r.0.limits == AddCapacity(s.limits, amount, now)
  {
    if FirstPayment(s.payments, key).Some? then (s, AlreadyProcessed)
    else (Store(s.payments + [Payment(key, amount, now)], AddCapacity(s.limits, amount, now)), Granted)
  }

  /** Run as one transaction, a second delivery of a key changes nothing,
      whatever its amount: the key's capacity is granted once. */
  lemma RedeliveryGrantsNothing(s: Store, amount: int, amount2: int, key: string, now: int, now2: int)
    ensures var first := FulfilAtomic(s, amount, key, now);
      var second := FulfilAtomic(first.0, amount2, key, now2);
      second == (first.0, AlreadyProcessed)
  {
    var first := FulfilAtomic(s, amount, key, now);
    if first.1 != AlreadyProcessed {
      RecordThenLookup(s.payments, key, amount, now, key);
    }
  }

  // ------------------------------------ the action's three transactions

  /** How far a delivery of the action has got: before the key lookup,
      after a lookup that found nothing, after `recordPayment`, or
      answered. */
  datatype Stage = Start | Checked | Recorded | Answered(answer: Fulfilment)

  /** One delivery of the action whose secret and amount passed. */
  datatype Delivery = Delivery(amount: int, key: string, stage: Stage)

  /** The next transaction of a delivery, as `fulfillSponsorship` runs
      them: the `getPaymentByKey` query, then the `recordPayment` mutation,
      then the `addSponsorCapacity` mutation. Each reads the store as the
      previous transactions of every delivery left it. */
  function Step(s: Store, d: Delivery, now: int): (r: (Store, Delivery))
    ensures r.1.amount == d.amount && r.1.key == d.key
    ensures r.0.payments == s.payments || r.0.payments == s.payments + [Payment(d.key, d.amount, now)]
  {
    match d.stage
    case Start =>
      if FirstPayment(s.payments, d.key).Some? then (s, d.(stage := Answered(AlreadyProcessed)))
      else (s, d.(stage := Checked))
    case Checked => (s.(payments := s.payments + [Payment(d.key, d.amount, now)]), d.(stage := Recorded))
    case Recorded => (s.(limits := AddCapacity(s.limits, d.amount, now)), d.(stage := Answered(Granted)))
    case Answered(_) => (s, d)
  }

  /** Two deliveries `a` and `b` running side by side; `schedule[i]` says
      which of them takes the i-th transaction (`false` for `a`). */
  function Interleave(s: Store, a: Delivery, b: Delivery, schedule: seq<bool>, now: int): (r: (Store, Delivery, Delivery))
    ensures r.1.key == a.key && r.2.key == b.key
    ensures |s.payments| <= |r.0.payments| && r.0.payments[..|s.payments|] == s.payments
    decreases |schedule|
  {
    if schedule == [] then (s, a, b)
    else if !schedule[0] then
      var (s', a') := Step(s, a, now);
      Interleave(s', a', b, schedule[1..], now)
    else
      var (s', b') := Step(s, b, now);
      Interleave(s', a, b', schedule[1..], now)
  }

  /** A delivery that runs its transactions with nothing in between does
      what the one-transaction fulfilment does. */
  lemma AloneIsAtomic(s: Store, amount: int, key: string, now: int, b: Delivery)
    requires b.stage.Answered?
    ensures var r := Interleave(s, Delivery(amount, key, Start), b, [false, false, false], now);
      var atomic := FulfilAtomic(s, amount, key, now);
      r.0 == atomic.0 && r.1.stage == Answered(atomic.1)
  {
  }

  /** Two deliveries of one new key (a webhook retry while the first is
      still running) whose lookups both run before either records: both
      answer as granted, the payment is recorded twice and the bonus grows
      by twice the amount. */
  lemma RetryRaceGrantsTwice(s: Store, amount: int, key: string, now: int)
    requires FirstPayment(s.payments, key).None?
    ensures var r := Interleave(s, Delivery(amount, key, Start), Delivery(amount, key, Start),
                                [false, true, false, true, false, true], now);
      && r.1.stage == Answered(Granted) && r.2.stage == Answered(Granted)
      && r.0.payments == s.payments + [Payment(key, amount, now), Payment(key, amount, now)]
      && r.0.limits.Some?
      && r.0.limits.value.bonusCapacity == s.limits.GetOr(Pools.InitialLimits(now)).bonusCapacity + 2 * amount
  {
    var a0 := Delivery(amount, key, Start);
    var (s1, a1) := Step(s, a0, now);
    assert s1 == s && a1.stage == Checked;
    var (s2, b1) := Step(s1, a0, now);
    assert s2 == s && b1.stage == Checked;
    var (s3, a2) := Step(s2, a1, now);
    var (s4, b2) := Step(s3, b1, now);
    assert s4.payments == s.payments + [Payment(key, amount, now), Payment(key, amount, now)];
    var (s5, a3) := Step(s4, a2, now);
    var (s6, b3) := Step(s5, b2, now);
    assert s6.limits == AddCapacity(AddCapacity(s.limits, amount, now), amount, now);
    assert Interleave(s, a0, a0, [false, true, false, true, false, true], now) == (s6, a3, b3) by {
      assert [false, true, false, true, false, true][1..] == [true, false, true, false, true];
      assert [true, false, true, false, true][1..] == [false, true, false, true];
      assert [false, true, false, true][1..] == [true, false, true];
      assert [true, false, true][1..] == [false, true];
      assert [false, true][1..] == [true];
      assert [true][1..] == [];
    }
  }

  /** `fulfillSponsorship`. A wrong or unset secret is UNAUTHORIZED and a
      non-positive amount is refused, both without any change; a key already
      recorded answers "Already processed" and grants nothing; otherwise the
      payment is recorded and the bonus capacity grows by `amount`, so that a
      repeated call with the same key finds it. `expected` is the configured
      `SPONSOR_WEBHOOK_SECRET`. */
  method FulfillSponsorship(table: PaymentTable, deployment: Pools.Deployment, expected: Option<string>,
                            secret: string, amount: int, key: string, now: int)
    returns (r: Result<Fulfilment, SponsorError>)
    modifies table, deployment`limits
    ensures !Authorized(expected, secret) ==> r == Failure(Unauthorized)
    ensures Authorized(expected, secret) && amount <= 0 ==> r == Success(Fulfilment(false, Some("Invalid amount")))
    ensures Authorized(expected, secret) && amount > 0 && old(table.GetPaymentByKey(key)).Some? ==>
      r == Success(Fulfilment(true, Some("Already processed")))
    ensures r != Success(Fulfilment(true, None)) ==>
      table.payments == old(table.payments) && deployment.limits == old(deployment.limits)
    ensures Authorized(expected, secret) && amount > 0 && old(table.GetPaymentByKey(key)).None? ==>
      && r == Success(Fulfilment(true, None))
      && table.payments == old(table.payments) + [Payment(key, amount, now)]
      && table.GetPaymentByKey(key) == Some(Payment(key, amount, now))
      && var lim := old(deployment.limits).GetOr(Pools.InitialLimits(now));
         deployment.limits == Some(lim.(bonusCapacity := lim.bonusCapacity + amount))
    ensures Authorized(expected, secret) && amount > 0 ==>
      var atomic := FulfilAtomic(Store(old(table.payments), old(deployment.limits)), amount, key, now);
      table.payments == atomic.0.payments && deployment.limits == atomic.0.limits && r == Success(atomic.1)
  {
    if !Authorized(expected, secret) {
      return Failure(Unauthorized);
    }
    if amount <= 0 {
      return Success(Fulfilment(false, Some("Invalid amount")));
    }
    var existing := table.GetPaymentByKey(key);
    if existing.Some? {
      return Success(Fulfilment(true, Some("Already processed")));
    }
    table.RecordPayment(key, amount, now);
    RecordThenLookup(old(table.payments), key, amount, now, key);
    deployment.AddSponsorCapacity(amount, now);
    return Success(Fulfilment(true, None));
  }
}
