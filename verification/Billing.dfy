/**
 Crypto subscriptions of the cloud tier: `reconcile` turns confirmed invoices into thirty days of a plan,
 stacked on the time left on that plan. Checkouts, invoice changes and time may interleave with its turns.
 */
module Billing {
  import opened Results

  const CRYPTO_PERIOD_MS := 30 * 24 * 60 * 60 * 1000
  const DEFAULT_PLAN := "free"

  datatype Merchant = Merchant(plan: string, planExpiresAt: Option<int>)
  datatype Method = Crypto | Stripe
  datatype SubStatus = Pending | Active | Expired | Canceled
  datatype Sub = Sub(id: string, merchant: string, plan: string, paidBy: Method, status: SubStatus,
                     invoice: Option<string>, periodEnd: Option<int>)

  datatype InvoiceStatus = InvoicePending | InvoicePartial | InvoiceConfirmed | InvoiceExpired | InvoiceFailed
  datatype InvoiceRow = InvoiceRow(status: InvoiceStatus, expiresAt: int)

  type Merchants = map<string, Merchant>
  type InvoiceTable = map<string, InvoiceRow>

  /** The plan a merchant is on at a moment; a plan without expiry never lapses. */
  function EffectivePlan(m: Option<Merchant>, now: int): string {
    var plan := if m.Some? && m.value.plan != "" then m.value.plan else DEFAULT_PLAN;
    if plan == DEFAULT_PLAN then plan
    else if m.value.planExpiresAt.Some? && m.value.planExpiresAt.value < now then DEFAULT_PLAN
    else plan
  }

  /** Without a plan of their own, and after the end of a paid one, merchants are on the free plan. */
  lemma EffectivePlanIs(m: Option<Merchant>, now: int)
    ensures EffectivePlan(m, now) != "free" <==>
      && m.Some? && m.value.plan != "" && m.value.plan != "free"
      && (m.value.planExpiresAt.Some? ==> now <= m.value.planExpiresAt.value)
    ensures EffectivePlan(m, now) != "free" ==> EffectivePlan(m, now) == m.value.plan
  {
  }

  // ---------------------------------------------------------------- the tables

  predicate IsPendingCrypto(s: Sub) {
    s.status == Pending && s.paidBy == Crypto
  }

  function PendingCrypto(subs: seq<Sub>): seq<Sub> {
    if subs == [] then []
    else
      var before, s := PendingCrypto(subs[..|subs| - 1]), subs[|subs| - 1];
      if IsPendingCrypto(s) then before + [s] else before
  }

  function Close(s: Sub, status: SubStatus, periodEnd: Option<int>): Sub {
    s.(status := status, periodEnd := if periodEnd.Some? then periodEnd else s.periodEnd)
  }

  function UpdateSub(subs: seq<Sub>, id: string, status: SubStatus, periodEnd: Option<int>): seq<Sub> {
    seq(|subs|, i requires 0 <= i < |subs| => if subs[i].id == id then Close(subs[i], status, periodEnd) else subs[i])
  }

  function GetMerchant(ms: Merchants, id: string): Option<Merchant> {
    if id in ms then Some(ms[id]) else None
  }

  /** An unknown merchant is left unknown. */
  function Activate(ms: Merchants, id: string, plan: string, periodEnd: int): Merchants {
    if id in ms then ms[id := Merchant(plan, Some(periodEnd))] else ms
  }

  // ---------------------------------------------------------------- one subscription

  function Max(a: int, b: int): int { if a < b then b else a }

  /** End of the time left on this very plan, or 0. */
  function CurrentEnd(m: Option<Merchant>, plan: string): int {
    if m.Some? && m.value.plan == plan && m.value.planExpiresAt.Some? then m.value.planExpiresAt.value else 0
  }

  /** A plan that was applied: paid by `sub`, at time `at`, for the interval from `from` to `to`. */
  datatype Applied = Applied(sub: string, merchant: string, plan: string, at: int, from: int, to: int)

  datatype Sys = Sys(merchants: Merchants, subs: seq<Sub>, invoices: InvoiceTable, queue: seq<Sub>,
                     log: seq<Applied>, now: int)

  datatype Verdict = Leave | Apply | Lapse

  function Judge(sub: Sub, invoices: InvoiceTable, now: int): Verdict {
    if sub.invoice.None? || sub.invoice.value == "" || sub.invoice.value !in invoices then Leave
    else
      var inv := invoices[sub.invoice.value];
      if inv.status == InvoiceConfirmed then Apply
      else if inv.status == InvoicePending && inv.expiresAt < now then Lapse
      else if inv.status == InvoiceExpired || inv.status == InvoiceFailed then Lapse
      else Leave
  }

  /** Settles the head of the list; `paidAt` is the second reading of the clock. */
  function Settle(s: Sys, checkedAt: int, paidAt: int): Sys
    requires s.queue != []
  {
    var sub := s.queue[0];
    var t := s.(queue := s.queue[1..], now := paidAt);
    match Judge(sub, s.invoices, checkedAt)
    case Leave => t
    case Lapse => t.(subs := UpdateSub(s.subs, sub.id, Expired, None))
    case Apply =>
      var from := Max(paidAt, CurrentEnd(GetMerchant(s.merchants, sub.merchant), sub.plan));
      var to := from + CRYPTO_PERIOD_MS;
      t.(merchants := Activate(s.merchants, sub.merchant, sub.plan, to),
         subs := UpdateSub(s.subs, sub.id, Active, Some(to)),
         log := s.log + [Applied(sub.id, sub.merchant, sub.plan, paidAt, from, to)])
  }

  // ---------------------------------------------------------------- reconcile as a method

  /** What the world looks like when a turn comes: invoices as stored then, and the two clock readings. */
  datatype Moment = Moment(invoices: InvoiceTable, checkedAt: int, paidAt: int)

  function Turns(s: Sys, env: nat -> Moment, n: nat): (r: Sys)
    requires n <= |s.queue|
    ensures r.queue == s.queue[n..]
  {
    if n == 0 then s
    else
      var before, m := Turns(s, env, n - 1), env(n - 1);
      Settle(before.(invoices := m.invoices), m.checkedAt, m.paidAt)
  }

  function Begin(s: Sys): Sys {
    s.(queue := PendingCrypto(s.subs))
  }

  lemma SettleEffect(s: Sys, checkedAt: int, paidAt: int)
    requires s.queue != []
    ensures var sub, s' := s.queue[0], Settle(s, checkedAt, paidAt);
      && s'.queue == s.queue[1..] && s'.now == paidAt && s'.invoices == s.invoices
      && (if sub.invoice.None? || sub.invoice.value == "" || sub.invoice.value !in s.invoices then
            s'.merchants == s.merchants && s'.subs == s.subs && s'.log == s.log
          else
            var inv := s.invoices[sub.invoice.value];
            if inv.status == InvoiceConfirmed then
              var from := Max(paidAt, CurrentEnd(GetMerchant(s.merchants, sub.merchant), sub.plan));
              var to := from + CRYPTO_PERIOD_MS;
              && s'.merchants == Activate(s.merchants, sub.merchant, sub.plan, to)
              && s'.subs == UpdateSub(s.subs, sub.id, Active, Some(to))
              && s'.log == s.log + [Applied(sub.id, sub.merchant, sub.plan, paidAt, from, to)]
            else
              && s'.merchants == s.merchants && s'.log == s.log
              && var lapsed := inv.status == InvoicePending && inv.expiresAt < checkedAt;
                 s'.subs == if lapsed || inv.status == InvoiceExpired || inv.status == InvoiceFailed
                            then UpdateSub(s.subs, sub.id, Expired, None) else s.subs)
  {
    hide UpdateSub, Activate, CurrentEnd, Max, GetMerchant;
  }

  class BillingDb {
    var merchants: Merchants
    var subs: seq<Sub>

    constructor (merchants: Merchants)
      ensures this.merchants == merchants && subs == []
    {
      this.merchants, subs := merchants, [];
    }

    method ListPendingCryptoSubscriptions() returns (out: seq<Sub>)
      ensures out == PendingCrypto(subs)
    {
      out := [];
      for i := 0 to |subs|
        invariant out == PendingCrypto(subs[..i])
      {
        assert subs[..i + 1][..i] == subs[..i];
        if IsPendingCrypto(subs[i]) {
          out := out + [subs[i]];
        }
      }
      assert subs[..|subs|] == subs;
    }

    method UpdateMerchant(id: string, plan: string, periodEnd: int)
      modifies this`merchants
      ensures merchants == Activate(old(merchants), id, plan, periodEnd)
      ensures merchants.Keys == old(merchants).Keys
      ensures forall who | who in merchants ::
        merchants[who] == if who == id then Merchant(plan, Some(periodEnd)) else old(merchants)[who]
    {
      if id in merchants {
        merchants := merchants[id := Merchant(plan, Some(periodEnd))];
      }
    }

    method UpdateSubscription(id: string, status: SubStatus, periodEnd: Option<int>)
      modifies this`subs
      ensures subs == UpdateSub(old(subs), id, status, periodEnd)
      ensures |subs| == |old(subs)|
      ensures forall i | 0 <= i < |subs| ::
        subs[i] == if old(subs)[i].id != id then old(subs)[i]
                   else if periodEnd.None? then old(subs)[i].(status := status)
                   else old(subs)[i].(status := status, periodEnd := periodEnd)
    {
      var before := subs;
      for i := 0 to |before|
        invariant |subs| == |before|
        invariant forall j | 0 <= j < i :: subs[j] == UpdateSub(before, id, status, periodEnd)[j]
        invariant forall j | i <= j < |before| :: subs[j] == before[j]
      {
        if subs[i].id == id {
          subs := subs[i := Close(subs[i], status, periodEnd)];
        }
      }
    }
  }

  class Billing {
    const db: BillingDb
    ghost var invoices: InvoiceTable
    ghost var log: seq<Applied>
    ghost var now: int

    constructor (db: BillingDb, now: int)
      ensures this.db == db && this.now == now && invoices == map[] && log == []
    {
      this.db, this.now, this.invoices, this.log := db, now, map[], [];
    }

    ghost function View(): Sys
      reads this, db
    {
      Sys(db.merchants, db.subs, invoices, [], log, now)
    }

    method Reconcile(env: nat -> Moment)
      modifies this, db
      ensures var begun := Begin(old(View())); View() == Turns(begun, env, |begun.queue|)
    {
      hide PendingCrypto, UpdateSub, Activate, CurrentEnd, Max, GetMerchant, Settle, Judge;
      ghost var begun := Begin(View());
      var pending := db.ListPendingCryptoSubscriptions();
      for i := 0 to |pending|
        invariant View().(queue := pending[i..]) == Turns(begun, env, i)
      {
        assert pending[i..][0] == pending[i] && pending[i..][1..] == pending[i + 1..];
        var sub, m := pending[i], env(i);
        SettleEffect(Turns(begun, env, i).(invoices := m.invoices), m.checkedAt, m.paidAt);
        invoices, now := m.invoices, m.paidAt;
        if sub.invoice.None? || sub.invoice.value == "" || sub.invoice.value !in m.invoices {
          continue;
        }
        var inv := m.invoices[sub.invoice.value];
        var lapsed := inv.status == InvoicePending && inv.expiresAt < m.checkedAt;
        if inv.status == InvoiceConfirmed {
          var merchant := GetMerchant(db.merchants, sub.merchant);
          var currentEnd := CurrentEnd(merchant, sub.plan);
          var from := Max(m.paidAt, currentEnd);
          var periodEnd := from + CRYPTO_PERIOD_MS;
          db.UpdateMerchant(sub.merchant, sub.plan, periodEnd);
          db.UpdateSubscription(sub.id, Active, Some(periodEnd));
          log := log + [Applied(sub.id, sub.merchant, sub.plan, m.paidAt, from, periodEnd)];
        } else if lapsed || inv.status == InvoiceExpired || inv.status == InvoiceFailed {
          db.UpdateSubscription(sub.id, Expired, None);
        }
      }
    }
  }

  // ---------------------------------------------------------------- runs

  datatype Step =
    | Checkout(sub: Sub)
    | World(invoices: InvoiceTable)
    | Start
    | Turn(checkedAt: int, paidAt: int)

  predicate Enabled(s: Sys, step: Step) {
    match step
    case Checkout(sub) =>
      && sub.paidBy == Crypto && sub.status == Pending && sub.periodEnd.None?
      && forall i | 0 <= i < |s.subs| :: s.subs[i].id != sub.id
    case World(_) => true
    case Start => s.queue == []
    case Turn(checkedAt, paidAt) => s.queue != [] && s.now <= checkedAt <= paidAt
  }

  function Next(s: Sys, step: Step): Sys
    requires Enabled(s, step)
  {
    match step
    case Checkout(sub) => s.(subs := s.subs + [sub])
    case World(invoices) => s.(invoices := invoices)
    case Start => Begin(s)
    case Turn(checkedAt, paidAt) => Settle(s, checkedAt, paidAt)
  }

  /** A known merchant who buys one paid plan only. */
  ghost predicate Run(states: seq<Sys>, steps: seq<Step>, who: string, plan: string) {
    && |states| == |steps| + 1
    && plan != "" && plan != DEFAULT_PLAN
    && states[0].subs == [] && states[0].queue == [] && states[0].log == [] && states[0].now >= 0
    && who in states[0].merchants
    && (forall i | 0 <= i < |steps| :: Enabled(states[i], steps[i]) && states[i + 1] == Next(states[i], steps[i]))
    && (forall i | 0 <= i < |steps| && steps[i].Checkout? && steps[i].sub.merchant == who :: steps[i].sub.plan == plan)
  }

  // ---------------------------------------------------------------- bookkeeping of every run

  predicate Settled(log: seq<Applied>, sub: Sub) {
    exists k :: 0 <= k < |log| && log[k].sub == sub.id && sub.periodEnd == Some(log[k].to)
      && log[k].merchant == sub.merchant && log[k].plan == sub.plan
  }

  /** Ids are unique, the list holds pending rows as stored, and a row is active exactly if it was applied. */
  ghost predicate Books(s: Sys) {
    && (forall i, j | 0 <= i < j < |s.subs| :: s.subs[i].id != s.subs[j].id)
    && (forall i | 0 <= i < |s.subs| ::
          s.subs[i].paidBy == Crypto && (s.subs[i].status == Active <==> Settled(s.log, s.subs[i])))
    && (forall i | 0 <= i < |s.subs| :: s.subs[i].periodEnd.Some? ==> s.subs[i].status == Active)
    && (forall q | 0 <= q < |s.queue| :: Stored(s.subs, s.queue[q]))
    && (forall q | 0 <= q < |s.queue| :: s.queue[q].status == Pending)
    && (forall p, q | 0 <= p < q < |s.queue| :: s.queue[p].id != s.queue[q].id)
    && (forall k | 0 <= k < |s.log| :: Bought(s.subs, s.log[k].sub))
    && (forall j, k | 0 <= j < k < |s.log| :: s.log[j].sub != s.log[k].sub)
  }

  predicate Stored(subs: seq<Sub>, sub: Sub) {
    exists i :: 0 <= i < |subs| && subs[i] == sub
  }

  predicate Bought(subs: seq<Sub>, id: string) {
    exists i :: 0 <= i < |subs| && subs[i].id == id && subs[i].status == Active
  }

  ghost predicate Snapshot(subs: seq<Sub>, queue: seq<Sub>) {
    && (forall q | 0 <= q < |queue| :: Stored(subs, queue[q]))
    && (forall q | 0 <= q < |queue| :: queue[q].status == Pending)
    && (forall p, q | 0 <= p < q < |queue| :: queue[p].id != queue[q].id)
  }

  lemma SnapshotPush(subs: seq<Sub>, queue: seq<Sub>, sub: Sub)
    requires Snapshot(subs, queue) && forall i | 0 <= i < |subs| :: subs[i].id != sub.id
    ensures Snapshot(subs + [sub], queue) && (sub.status == Pending ==> Snapshot(subs + [sub], queue + [sub]))
  {
    forall q | 0 <= q < |queue| ensures Stored(subs + [sub], queue[q]) && queue[q].id != sub.id {
      assert Stored(subs, queue[q]);
      var i :| 0 <= i < |subs| && subs[i] == queue[q];
      assert (subs + [sub])[i] == queue[q];
    }
    assert (subs + [sub])[|subs|] == sub;
  }

  lemma {:induction false} PendingIsSnapshot(subs: seq<Sub>)
    requires forall i, j | 0 <= i < j < |subs| :: subs[i].id != subs[j].id
    ensures Snapshot(subs, PendingCrypto(subs))
  {
    hide Snapshot;
    if subs == [] {
      NothingPending();
    } else {
      var n := |subs| - 1;
      PendingIsSnapshot(subs[..n]);
      SnapshotPush(subs[..n], PendingCrypto(subs[..n]), subs[n]);
      assert subs == subs[..n] + [subs[n]];
    }
  }

  lemma NothingPending()
    ensures Snapshot([], [])
  {
  }

  lemma CheckoutKeepsBooks(s: Sys, sub: Sub)
    requires Books(s) && Enabled(s, Checkout(sub))
    ensures Books(Next(s, Checkout(sub)))
  {
    hide Settled;
    var s' := Next(s, Checkout(sub));
    SnapshotPush(s.subs, s.queue, sub);
    forall k | 0 <= k < |s.log| ensures Bought(s'.subs, s.log[k].sub) && s.log[k].sub != sub.id {
      var i :| 0 <= i < |s.subs| && s.subs[i].id == s.log[k].sub && s.subs[i].status == Active;
      assert s'.subs[i] == s.subs[i];
    }
    assert !Settled(s.log, sub) by { NotSettled(s.log, sub); }
  }

  lemma NotSettled(log: seq<Applied>, sub: Sub)
    requires forall k | 0 <= k < |log| :: log[k].sub != sub.id
    ensures !Settled(log, sub)
  {
  }

  lemma SettledPush(log: seq<Applied>, a: Applied, sub: Sub)
    ensures a.sub != sub.id ==> (Settled(log + [a], sub) <==> Settled(log, sub))
    ensures a.sub == sub.id && a.merchant == sub.merchant && a.plan == sub.plan && sub.periodEnd == Some(a.to) ==>
      Settled(log + [a], sub)
  {
    if Settled(log, sub) {
      var k :| 0 <= k < |log| && log[k].sub == sub.id && sub.periodEnd == Some(log[k].to)
        && log[k].merchant == sub.merchant && log[k].plan == sub.plan;
      assert (log + [a])[k] == log[k];
    }
    assert (log + [a])[|log|] == a;
  }

  /** Every row but the one of the settled subscription stays as it is. */
  lemma RowsAfter(s: Sys, checkedAt: int, paidAt: int) returns (at: nat)
    requires Books(s) && Enabled(s, Turn(checkedAt, paidAt))
    ensures at < |s.subs| && s.subs[at] == s.queue[0] && |Settle(s, checkedAt, paidAt).subs| == |s.subs|
    ensures forall i | 0 <= i < |s.subs| && i != at ::
      Settle(s, checkedAt, paidAt).subs[i] == s.subs[i] && s.subs[i].id != s.queue[0].id
    ensures var v, row := Judge(s.queue[0], s.invoices, checkedAt), Settle(s, checkedAt, paidAt).subs[at];
      && row.id == s.subs[at].id
      && (v.Leave? ==> row == s.subs[at])
      && (v.Lapse? ==> row == s.subs[at].(status := Expired))
      && (v.Apply? ==>
            var a := Settle(s, checkedAt, paidAt).log[|s.log|];
            row == s.subs[at].(status := Active, periodEnd := Some(a.to)))
  {
    hide Settled, Judge;
    assert Stored(s.subs, s.queue[0]);
    at :| 0 <= at < |s.subs| && s.subs[at] == s.queue[0];
  }

  lemma TurnKeepsBooks(s: Sys, checkedAt: int, paidAt: int)
    requires Books(s) && Enabled(s, Turn(checkedAt, paidAt))
    ensures Books(Settle(s, checkedAt, paidAt))
  {
    hide Settled, Judge, UpdateSub, Activate, GetMerchant;
    var s', sub := Settle(s, checkedAt, paidAt), s.queue[0];
    var at := RowsAfter(s, checkedAt, paidAt);
    var v := Judge(sub, s.invoices, checkedAt);
    assert forall k | 0 <= k < |s.log| :: s'.log[k] == s.log[k];
    QueueKept(s, s', at);
    BoughtKept(s, s', at, v.Apply?);
    forall i | 0 <= i < |s'.subs| ensures s'.subs[i].status == Active <==> Settled(s'.log, s'.subs[i]) {
      if v.Apply? {
        SettledPush(s.log, s'.log[|s.log|], s'.subs[i]);
        assert s'.log == s.log + [s'.log[|s.log|]];
      } else if i == at {
        NotSettled(s.log, s'.subs[i]);
      }
    }
  }

  lemma QueueKept(s: Sys, s': Sys, at: nat)
    requires Books(s) && s.queue != [] && s'.queue == s.queue[1..] && |s'.subs| == |s.subs|
    requires at < |s.subs| && s.subs[at] == s.queue[0]
    requires forall i | 0 <= i < |s.subs| && i != at :: s'.subs[i] == s.subs[i]
    ensures Snapshot(s'.subs, s'.queue)
  {
    hide Settled, Bought;
    forall q | 0 <= q < |s'.queue| ensures Stored(s'.subs, s'.queue[q]) {
      assert s'.queue[q] == s.queue[q + 1] && Stored(s.subs, s.queue[q + 1]);
      var i :| 0 <= i < |s.subs| && s.subs[i] == s.queue[q + 1];
      assert s'.subs[i] == s.subs[i];
    }
  }

  /** Applied subscriptions stay active; the one settled now was pending, so it had not been applied. */
  lemma BoughtKept(s: Sys, s': Sys, at: nat, applied: bool)
    requires Books(s) && s.queue != [] && |s'.subs| == |s.subs|
    requires at < |s.subs| && s.subs[at] == s.queue[0] && s'.subs[at].id == s.subs[at].id
    requires forall i | 0 <= i < |s.subs| && i != at :: s'.subs[i] == s.subs[i]
    requires applied ==> s'.subs[at].status == Active
    ensures forall k | 0 <= k < |s.log| :: Bought(s'.subs, s.log[k].sub) && s.log[k].sub != s.subs[at].id
    ensures applied ==> Bought(s'.subs, s.subs[at].id)
  {
    hide Settled, Stored;
    forall k | 0 <= k < |s.log| ensures Bought(s'.subs, s.log[k].sub) && s.log[k].sub != s.subs[at].id {
      var i :| 0 <= i < |s.subs| && s.subs[i].id == s.log[k].sub && s.subs[i].status == Active;
      assert i != at;
      assert s'.subs[i] == s.subs[i];
    }
  }

  lemma {:induction false} RunKeepsBooks(states: seq<Sys>, steps: seq<Step>, who: string, plan: string, i: nat)
    requires Run(states, steps, who, plan) && i < |states|
    ensures Books(states[i])
  {
    hide Books, Settle, PendingCrypto;
    if i == 0 {
      EmptyBooks(states[0]);
    } else {
      RunKeepsBooks(states, steps, who, plan, i - 1);
      var s := states[i - 1];
      match steps[i - 1]
      case Checkout(sub) => CheckoutKeepsBooks(s, sub);
      case World(invoices) => WorldKeepsBooks(s, invoices);
      case Start => StartKeepsBooks(s);
      case Turn(checkedAt, paidAt) => TurnKeepsBooks(s, checkedAt, paidAt);
    }
  }

  lemma EmptyBooks(s: Sys)
    requires s.subs == [] && s.queue == [] && s.log == []
    ensures Books(s)
  {
  }

  lemma WorldKeepsBooks(s: Sys, invoices: InvoiceTable)
    requires Books(s)
    ensures Books(s.(invoices := invoices))
  {
  }

  lemma StartKeepsBooks(s: Sys)
    requires Books(s)
    ensures Books(Begin(s))
  {
    hide Settled, PendingCrypto;
    PendingIsSnapshot(s.subs);
  }

  // ---------------------------------------------------------------- which subscriptions are settled

  /** How many pending crypto subscriptions are stored before position `i`. */
  function PendingBefore(subs: seq<Sub>, i: nat): nat
    requires i <= |subs|
  {
    if i == 0 then 0
    else PendingBefore(subs, i - 1) + if subs[i - 1].status == Pending && subs[i - 1].paidBy == Crypto then 1 else 0
  }

  lemma {:induction false} BeforePrefix(subs: seq<Sub>, n: nat, i: nat)
    requires i <= n <= |subs|
    ensures PendingBefore(subs[..n], i) == PendingBefore(subs, i)
  {
    if i > 0 {
      BeforePrefix(subs, n, i - 1);
    }
  }

  /** The list holds exactly the pending crypto subscriptions. */
  lemma {:induction false} ListedMembers(subs: seq<Sub>)
    ensures |PendingCrypto(subs)| == PendingBefore(subs, |subs|)
    ensures forall x :: x in PendingCrypto(subs) <==> x in subs && x.status == Pending && x.paidBy == Crypto
  {
    if subs != [] {
      var n := |subs| - 1;
      ListedMembers(subs[..n]);
      BeforePrefix(subs, n, n);
      assert subs == subs[..n] + [subs[n]];
    }
  }

  /** Each of them comes after those stored before it. */
  lemma {:induction false} ListedInPlace(subs: seq<Sub>, i: nat)
    requires i < |subs| && subs[i].status == Pending && subs[i].paidBy == Crypto
    ensures PendingBefore(subs, i) < |PendingCrypto(subs)| && PendingCrypto(subs)[PendingBefore(subs, i)] == subs[i]
  {
    var n := |subs| - 1;
    BeforePrefix(subs, n, i);
    if i < n {
      ListedInPlace(subs[..n], i);
    } else {
      ListedMembers(subs[..n]);
    }
  }

  /** A subscription that was checked out is listed by the next reconcile. */
  lemma CheckoutIsListed(s: Sys, sub: Sub)
    requires Enabled(s, Checkout(sub))
    ensures sub in PendingCrypto(Next(s, Checkout(sub)).subs)
  {
    ListedMembers(s.subs + [sub]);
    assert (s.subs + [sub])[|s.subs|] == sub;
  }

  /** The clock does not run backwards from turn to turn. */
  ghost predicate Clocked(env: nat -> Moment, from: int) {
    forall k: nat :: from <= env(k).checkedAt <= env(k).paidAt <= env(k + 1).checkedAt
  }

  predicate ConfirmedIn(sub: Sub, invoices: InvoiceTable) {
    && sub.invoice.Some? && sub.invoice.value != "" && sub.invoice.value in invoices
    && invoices[sub.invoice.value].status == InvoiceConfirmed
  }

  /** The invoice has expired or failed, or is pending past its expiry. */
  predicate LapsedIn(sub: Sub, invoices: InvoiceTable, checkedAt: int) {
    && sub.invoice.Some? && sub.invoice.value != "" && sub.invoice.value in invoices
    && var inv := invoices[sub.invoice.value];
       || inv.status == InvoiceExpired || inv.status == InvoiceFailed
       || (inv.status == InvoicePending && inv.expiresAt < checkedAt)
  }

  /** What becomes of a pending subscription at its turn. */
  predicate Outcome(before: Sub, after: Sub, m: Moment) {
    && after.id == before.id
    && (after.status == Active <==> ConfirmedIn(before, m.invoices))
    && (after.status == Expired <==> LapsedIn(before, m.invoices, m.checkedAt))
    && (after.status != Active && after.status != Expired ==> after == before)
  }

  lemma {:induction false} TurnsReach(s: Sys, env: nat -> Moment, n: nat, i: nat, q: nat)
    requires n <= |s.queue| && Books(s) && Clocked(env, s.now)
    requires i < |s.subs| && q < |s.queue| && s.queue[q] == s.subs[i]
    ensures var t := Turns(s, env, n);
      && Books(t) && |t.subs| == |s.subs| && t.now <= env(n).checkedAt
      && t.subs[i].id == s.subs[i].id
      && (n <= q ==> t.subs[i] == s.subs[i])
      && (n > q ==> Outcome(s.subs[i], t.subs[i], env(q)))
  {
    hide Settle, Books, Outcome;
    if n > 0 {
      TurnsReach(s, env, n - 1, i, q);
      var before, m := Turns(s, env, n - 1), env(n - 1);
      var here := before.(invoices := m.invoices);
      assert m.checkedAt <= m.paidAt <= env(n - 1 + 1).checkedAt;
      WorldKeepsBooks(before, m.invoices);
      TurnKeepsBooks(here, m.checkedAt, m.paidAt);
      OneTurn(here, m, i);
      assert here.queue[0] == s.queue[n - 1];
      assert n - 1 != q ==> s.queue[n - 1].id != s.queue[q].id by {
        if n - 1 != q {
          DifferentTurns(s, n - 1, q);
        }
      }
    }
  }

  lemma DifferentTurns(s: Sys, p: nat, q: nat)
    requires Books(s) && p < |s.queue| && q < |s.queue| && p != q
    ensures s.queue[p].id != s.queue[q].id
  {
  }

  /** A turn settles the row at the head of the list and leaves the others alone. */
  lemma OneTurn(s: Sys, m: Moment, i: nat)
    requires Books(s) && s.invoices == m.invoices && Enabled(s, Turn(m.checkedAt, m.paidAt)) && i < |s.subs|
    ensures var t := Settle(s, m.checkedAt, m.paidAt);
      && |t.subs| == |s.subs| && t.now == m.paidAt && t.subs[i].id == s.subs[i].id
      && (s.subs[i].id != s.queue[0].id ==> t.subs[i] == s.subs[i])
      && (s.subs[i] == s.queue[0] ==> Outcome(s.subs[i], t.subs[i], m))
  {
    hide Settled, Bought, UpdateSub, Activate, GetMerchant;
    var at := RowsAfter(s, m.checkedAt, m.paidAt);
  }

  /**
   Over a whole `reconcile`: a pending subscription is active afterwards exactly if its invoice is confirmed when
   its turn comes, which is after those stored before it, and it is then applied exactly once; it is expired
   exactly if its invoice has lapsed by then, and stays as it is otherwise.
   */
  lemma ReconcileSettles(s: Sys, env: nat -> Moment, i: nat)
    requires Books(s) && Clocked(env, s.now) && i < |s.subs| && s.subs[i].status == Pending
    ensures var begun := Begin(s);
      var t := Turns(begun, env, |begun.queue|);
      && t.queue == [] && |t.subs| == |s.subs| && t.subs[i].id == s.subs[i].id
      && Outcome(s.subs[i], t.subs[i], env(PendingBefore(s.subs, i)))
      && (t.subs[i].status == Active ==> AppliedOnce(t.log, s.subs[i].id))
  {
    hide PendingCrypto, Settled, Settle, Stored, Bought;
    ListedInPlace(s.subs, i);
    StartKeepsBooks(s);
    var n := |Begin(s).queue|;
    TurnsReach(Begin(s), env, n, i, PendingBefore(s.subs, i));
    var t := Turns(Begin(s), env, n);
    if t.subs[i].status == Active {
      OnceSettled(t.log, t.subs[i]);
    }
  }

  /** Exactly one entry of the log is about this subscription. */
  predicate AppliedOnce(log: seq<Applied>, id: string) {
    exists k :: 0 <= k < |log| && log[k].sub == id && forall j | 0 <= j < |log| && j != k :: log[j].sub != id
  }

  lemma OnceSettled(log: seq<Applied>, sub: Sub)
    requires Settled(log, sub) && forall j, k | 0 <= j < k < |log| :: log[j].sub != log[k].sub
    ensures AppliedOnce(log, sub.id)
  {
  }

  // ---------------------------------------------------------------- paid time of one merchant

  /** What was applied for one merchant, in order. */
  function For(log: seq<Applied>, who: string): seq<Applied> {
    if log == [] then []
    else
      var before, a := For(log[..|log| - 1], who), log[|log| - 1];
      if a.merchant == who then before + [a] else before
  }

  lemma ForPush(log: seq<Applied>, a: Applied, who: string)
    ensures For(log + [a], who) == if a.merchant == who then For(log, who) + [a] else For(log, who)
  {
    assert (log + [a])[..|log|] == log;
  }

  /** Thirty days each, paid no later than they begin, one after the other. */
  ghost predicate Stacked(paid: seq<Applied>, plan: string) {
    && (forall k | 0 <= k < |paid| ::
          paid[k].plan == plan && paid[k].at <= paid[k].from && paid[k].to == paid[k].from + CRYPTO_PERIOD_MS)
    && (forall j, k | 0 <= j < k < |paid| :: paid[j].to <= paid[k].from)
    && (forall j, k | 0 <= j && k == j + 1 < |paid| :: paid[k].from == Max(paid[k].at, paid[j].to))
  }

  ghost predicate Ledger(s: Sys, who: string, plan: string, initial: Merchant) {
    var paid := For(s.log, who);
    && Stacked(paid, plan)
    && s.now >= 0 && (forall k | 0 <= k < |paid| :: paid[k].at <= s.now)
    && (forall i | 0 <= i < |s.subs| && s.subs[i].merchant == who :: s.subs[i].plan == plan)
    && (forall q | 0 <= q < |s.queue| && s.queue[q].merchant == who :: s.queue[q].plan == plan)
    && who in s.merchants
    && s.merchants[who] == (if paid == [] then initial else Merchant(plan, Some(paid[|paid| - 1].to)))
    && (paid != [] ==> paid[0].from == Max(paid[0].at, CurrentEnd(Some(initial), plan)))
  }

  lemma StackPush(paid: seq<Applied>, a: Applied, plan: string)
    requires Stacked(paid, plan) && a.plan == plan && a.to == a.from + CRYPTO_PERIOD_MS && a.at <= a.from
    requires paid != [] ==> a.from == Max(a.at, paid[|paid| - 1].to)
    ensures Stacked(paid + [a], plan)
  {
    var next, n := paid + [a], |paid|;
    forall j | 0 <= j < n ensures paid[j].to <= a.from {
      assert paid[j].to <= paid[n - 1].to by { assert j < n - 1 ==> paid[j].to <= paid[n - 1].from; }
    }
    assert forall k | 0 <= k < n :: next[k] == paid[k];
  }

  /** The stored expiry is where the stack ends, so the next interval is put on top of it. */
  lemma StackGrows(paid: seq<Applied>, a: Applied, plan: string, m: Merchant, initial: Merchant)
    requires Stacked(paid, plan) && a.plan == plan && a.to == a.from + CRYPTO_PERIOD_MS
    requires m == (if paid == [] then initial else Merchant(plan, Some(paid[|paid| - 1].to)))
    requires a.from == Max(a.at, CurrentEnd(Some(m), plan))
    requires paid != [] ==> paid[0].from == Max(paid[0].at, CurrentEnd(Some(initial), plan))
    ensures Stacked(paid + [a], plan)
    ensures (paid + [a])[0].from == Max((paid + [a])[0].at, CurrentEnd(Some(initial), plan))
  {
    hide Stacked;
    StackPush(paid, a, plan);
  }

  lemma TurnKeepsLedger(s: Sys, checkedAt: int, paidAt: int, who: string, plan: string, initial: Merchant)
    requires Books(s) && Ledger(s, who, plan, initial) && Enabled(s, Turn(checkedAt, paidAt))
    ensures Ledger(Settle(s, checkedAt, paidAt), who, plan, initial)
  {
    hide Judge, Books, For, Stacked, UpdateSub, Max, CurrentEnd;
    var s', sub, paid := Settle(s, checkedAt, paidAt), s.queue[0], For(s.log, who);
    var at := RowsAfter(s, checkedAt, paidAt);
    SubsKeepPlan(s, s', at, who, plan);
    if Judge(sub, s.invoices, checkedAt).Apply? {
      var a := s'.log[|s.log|];
      assert s'.log == s.log + [a];
      ForPush(s.log, a, who);
      if sub.merchant == who {
        StackGrows(paid, a, plan, s.merchants[who], initial);
      }
    }
  }

  lemma SubsKeepPlan(s: Sys, s': Sys, at: nat, who: string, plan: string)
    requires |s'.subs| == |s.subs| && at < |s.subs| && s.queue != [] && s'.queue == s.queue[1..]
    requires s'.subs[at].merchant == s.subs[at].merchant && s'.subs[at].plan == s.subs[at].plan
    requires forall i | 0 <= i < |s.subs| && i != at :: s'.subs[i] == s.subs[i]
    requires forall i | 0 <= i < |s.subs| && s.subs[i].merchant == who :: s.subs[i].plan == plan
    requires forall q | 0 <= q < |s.queue| && s.queue[q].merchant == who :: s.queue[q].plan == plan
    ensures forall i | 0 <= i < |s'.subs| && s'.subs[i].merchant == who :: s'.subs[i].plan == plan
    ensures forall q | 0 <= q < |s'.queue| && s'.queue[q].merchant == who :: s'.queue[q].plan == plan
  {
    assert forall q | 0 <= q < |s'.queue| :: s'.queue[q] == s.queue[q + 1];
  }

  lemma {:induction false} PendingKeepsPlan(subs: seq<Sub>, who: string, plan: string)
    requires forall i | 0 <= i < |subs| && subs[i].merchant == who :: subs[i].plan == plan
    ensures forall q | 0 <= q < |PendingCrypto(subs)| && PendingCrypto(subs)[q].merchant == who ::
      PendingCrypto(subs)[q].plan == plan
  {
    if subs != [] {
      PendingKeepsPlan(subs[..|subs| - 1], who, plan);
    }
  }

  lemma {:induction false} RunKeepsLedger(states: seq<Sys>, steps: seq<Step>, who: string, plan: string, i: nat)
    requires Run(states, steps, who, plan) && i < |states|
    ensures Ledger(states[i], who, plan, states[0].merchants[who])
  {
    hide Books, Settle, PendingCrypto, Stacked;
    if i == 0 {
      assert Stacked([], plan) by { EmptyStack(plan); }
    } else {
      RunKeepsLedger(states, steps, who, plan, i - 1);
      RunKeepsBooks(states, steps, who, plan, i - 1);
      var s := states[i - 1];
      match steps[i - 1]
      case Start => PendingKeepsPlan(s.subs, who, plan);
      case Turn(checkedAt, paidAt) => TurnKeepsLedger(s, checkedAt, paidAt, who, plan, states[0].merchants[who]);
      case _ =>
    }
  }

  lemma EmptyStack(plan: string)
    ensures Stacked([], plan)
  {
  }

  /** `reconcile` as it runs is a piece of such a run: it keeps the books and the merchant's ledger. */
  lemma {:induction false} ReconcileKeeps(s: Sys, env: nat -> Moment, n: nat, who: string, plan: string,
                                          initial: Merchant)
    requires n <= |s.queue| && Books(s) && Ledger(s, who, plan, initial)
    requires Clocked(env, s.now)
    ensures Books(Turns(s, env, n)) && Ledger(Turns(s, env, n), who, plan, initial)
    ensures Turns(s, env, n).now <= env(n).checkedAt
  {
    hide Books, Ledger, Judge, UpdateSub, Activate;
    if n > 0 {
      ReconcileKeeps(s, env, n - 1, who, plan, initial);
      var before, m := Turns(s, env, n - 1), env(n - 1);
      assert m.paidAt <= env(n - 1 + 1).checkedAt;
      var here := before.(invoices := m.invoices);
      WorldKeepsBooks(before, m.invoices);
      WorldKeepsLedger(before, m.invoices, who, plan, initial);
      TurnKeepsBooks(here, m.checkedAt, m.paidAt);
      TurnKeepsLedger(here, m.checkedAt, m.paidAt, who, plan, initial);
    }
  }

  lemma WorldKeepsLedger(s: Sys, invoices: InvoiceTable, who: string, plan: string, initial: Merchant)
    requires Ledger(s, who, plan, initial)
    ensures Ledger(s.(invoices := invoices), who, plan, initial)
  {
  }

  // ---------------------------------------------------------------- the promises

  /**
   Over every run each applied subscription is applied once, for its own thirty days of the plan it paid for;
   the intervals do not overlap, none begins before it was paid, and each follows the one before without loss.
   */
  lemma PaidTimeIsStacked(states: seq<Sys>, steps: seq<Step>, who: string, plan: string, i: nat)
    requires Run(states, steps, who, plan) && i < |states|
    ensures Stacked(For(states[i].log, who), plan)
    ensures forall k | 0 <= k < |For(states[i].log, who)| ::
      For(states[i].log, who)[k].to == For(states[i].log, who)[k].from + 2_592_000_000
    ensures forall j, k | 0 <= j < k < |states[i].log| :: states[i].log[j].sub != states[i].log[k].sub
    ensures forall r | 0 <= r < |states[i].subs| ::
      states[i].subs[r].status == Active <==> Settled(states[i].log, states[i].subs[r])
  {
    hide Stacked, Settled, Run;
    RunKeepsLedger(states, steps, who, plan, i);
    RunKeepsBooks(states, steps, who, plan, i);
    ThirtyDays(For(states[i].log, who), plan);
  }

  lemma ThirtyDays(paid: seq<Applied>, plan: string)
    requires Stacked(paid, plan)
    ensures forall k | 0 <= k < |paid| :: paid[k].to == paid[k].from + 2_592_000_000
  {
  }

  /**
   Once something was paid, the merchant is on the plan at a moment exactly if that moment is no later than
   the end of the last interval; so the plan is in force throughout every interval paid for.
   */
  lemma PlanInForce(states: seq<Sys>, steps: seq<Step>, who: string, plan: string, i: nat, t: int)
    requires Run(states, steps, who, plan) && i < |states| && For(states[i].log, who) != []
    ensures var paid := For(states[i].log, who); var m := GetMerchant(states[i].merchants, who);
      && (EffectivePlan(m, t) == plan <==> t <= paid[|paid| - 1].to)
      && (EffectivePlan(m, t) != plan ==> EffectivePlan(m, t) == DEFAULT_PLAN)
      && forall k | 0 <= k < |paid| && paid[k].from <= t <= paid[k].to :: EffectivePlan(m, t) == plan
  {
    hide Books, For, Next, Stacked;
    RunKeepsLedger(states, steps, who, plan, i);
    var paid := For(states[i].log, who);
    forall k | 0 <= k < |paid| ensures paid[k].to <= paid[|paid| - 1].to {
      EndsBefore(paid, plan, k);
    }
  }

  /** Milliseconds of an interval list that lie before `t`. */
  function UsedBy(paid: seq<Applied>, t: int): int {
    if paid == [] then 0
    else
      var a := paid[|paid| - 1];
      UsedBy(paid[..|paid| - 1], t) + if t <= a.from then 0 else if t >= a.to then CRYPTO_PERIOD_MS else t - a.from
  }

  lemma {:induction false} UsedBefore(paid: seq<Applied>, t: int)
    requires forall k | 0 <= k < |paid| :: paid[k].to == paid[k].from + CRYPTO_PERIOD_MS && paid[k].to <= t
    ensures UsedBy(paid, t) == CRYPTO_PERIOD_MS * |paid|
  {
    if paid != [] {
      UsedBefore(paid[..|paid| - 1], t);
    }
  }

  /** A list of intervals without its last one, and where the last one begins. */
  lemma StackPop(paid: seq<Applied>, plan: string)
    requires Stacked(paid, plan) && |paid| > 1
    ensures var n := |paid| - 1;
      && Stacked(paid[..n], plan)
      && paid[n].from == Max(paid[n].at, paid[n - 1].to) && paid[n].to == paid[n].from + CRYPTO_PERIOD_MS
  {
  }

  lemma EndsBefore(paid: seq<Applied>, plan: string, k: nat)
    requires Stacked(paid, plan) && k < |paid|
    ensures paid[k].to == paid[k].from + CRYPTO_PERIOD_MS && paid[k].to <= paid[|paid| - 1].to
  {
    assert k < |paid| - 1 ==> paid[k].to <= paid[|paid| - 1].from;
  }

  lemma UsedAll(paid: seq<Applied>, plan: string, t: int)
    requires Stacked(paid, plan) && paid != [] && paid[|paid| - 1].to <= t
    ensures UsedBy(paid, t) == CRYPTO_PERIOD_MS * |paid| && paid[0].from < t
  {
    hide Stacked;
    forall k | 0 <= k < |paid| ensures paid[k].to == paid[k].from + CRYPTO_PERIOD_MS && paid[k].to <= t {
      EndsBefore(paid, plan, k);
    }
    UsedBefore(paid, t);
  }

  lemma {:induction false} UsedSplit(paid: seq<Applied>, plan: string, t: int)
    requires Stacked(paid, plan) && paid != [] && t <= paid[|paid| - 1].to
    requires forall k | 0 <= k < |paid| :: paid[k].at <= t
    ensures UsedBy(paid, t) + (paid[|paid| - 1].to - t) == CRYPTO_PERIOD_MS * |paid| + Max(0, paid[0].from - t)
  {
    hide Stacked;
    var n := |paid| - 1;
    EndsBefore(paid, plan, n);
    if n == 0 {
      assert paid[..n] == [];
    } else {
      StackPop(paid, plan);
      if t <= paid[n - 1].to {
        UsedSplit(paid[..n], plan, t);
      } else {
        UsedAll(paid[..n], plan, t);
      }
    }
  }

  /**
   Paid time is conserved: what was used up by now and what is left add up to thirty days per payment and
   whatever was left of the same plan at the start.
   */
  lemma PaidTimeIsConserved(states: seq<Sys>, steps: seq<Step>, who: string, plan: string, i: nat)
    requires Run(states, steps, who, plan) && i < |states| && For(states[i].log, who) != []
    ensures var paid, now := For(states[i].log, who), states[i].now;
      var m := GetMerchant(states[i].merchants, who);
      && m.Some? && m.value.planExpiresAt.Some?
      && UsedBy(paid, now) + Max(0, m.value.planExpiresAt.value - now)
         == CRYPTO_PERIOD_MS * |paid| + Max(0, CurrentEnd(GetMerchant(states[0].merchants, who), plan) - now)
  {
    hide Books, For, Next, Stacked;
    RunKeepsLedger(states, steps, who, plan, i);
    var paid, now := For(states[i].log, who), states[i].now;
    if now <= paid[|paid| - 1].to {
      UsedSplit(paid, plan, now);
    } else {
      UsedAll(paid, plan, now);
    }
  }

  /** A subscription leaves `pending` once: active and expired ones never change again, whatever their invoice does. */
  lemma {:induction false} SettledStays(states: seq<Sys>, steps: seq<Step>, who: string, plan: string, i: nat, j: nat,
                                        r: nat)
    requires Run(states, steps, who, plan) && i <= j < |states| && r < |states[i].subs|
    ensures r < |states[j].subs| && states[j].subs[r].id == states[i].subs[r].id
    ensures states[i].subs[r].status != Pending ==> states[j].subs[r] == states[i].subs[r]
    decreases j - i
  {
    hide Settle, PendingCrypto, Settled, Stored, Bought, Judge;
    if i < j {
      SettledStays(states, steps, who, plan, i, j - 1, r);
      RunKeepsBooks(states, steps, who, plan, j - 1);
      var s := states[j - 1];
      match steps[j - 1]
      case Turn(checkedAt, paidAt) =>
        var at := RowsAfter(s, checkedAt, paidAt);
      case _ =>
    }
  }

  /** A turn applies the subscription at the head exactly when its invoice is confirmed at that moment. */
  lemma TurnAppliesConfirmed(s: Sys, checkedAt: int, paidAt: int)
    requires Books(s) && Enabled(s, Turn(checkedAt, paidAt))
    ensures var s', sub := Settle(s, checkedAt, paidAt), s.queue[0];
      Bought(s'.subs, sub.id) <==>
        && sub.invoice.Some? && sub.invoice.value != "" && sub.invoice.value in s.invoices
        && s.invoices[sub.invoice.value].status == InvoiceConfirmed
  {
    hide Settled, Activate, UpdateSub, GetMerchant;
    var at := RowsAfter(s, checkedAt, paidAt);
    assert Settle(s, checkedAt, paidAt).subs[at].id == s.queue[0].id;
  }

  /** The turn applies its subscription, of a plan that is for sale, to a known merchant. */
  predicate Applies(s: Sys, checkedAt: int, paidAt: int) {
    && s.queue != [] && s.queue[0].merchant in s.merchants
    && s.queue[0].plan != "" && s.queue[0].plan != DEFAULT_PLAN
    && Judge(s.queue[0], s.invoices, checkedAt).Apply?
  }

  /**
   What a purchase buys: thirty days, from the payment on or, if the merchant is on this plan with a later end date,
   from that date on; the merchant is then on the plan to the end of them.
   */
  lemma PurchaseBuys(s: Sys, checkedAt: int, paidAt: int)
    requires Applies(s, checkedAt, paidAt) && paidAt >= 0
    ensures var sub, s' := s.queue[0], Settle(s, checkedAt, paidAt);
      var before := s.merchants[sub.merchant];
      var stacked := before.plan == sub.plan && before.planExpiresAt.Some? && before.planExpiresAt.value > paidAt;
      var from := if stacked then before.planExpiresAt.value else paidAt;
      && s'.log == s.log + [Applied(sub.id, sub.merchant, sub.plan, paidAt, from, from + 2_592_000_000)]
      && s'.merchants == s.merchants[sub.merchant := Merchant(sub.plan, Some(from + 2_592_000_000))]
  {
    hide Judge, UpdateSub;
  }

  /**
   When a purchase keeps the time already held on the plan it buys, exactly: unless the merchant held that
   plan without an end date, which then ends with the purchased period.
   */
  lemma HeldTimeKeptIff(s: Sys, checkedAt: int, paidAt: int)
    requires Applies(s, checkedAt, paidAt)
    ensures var sub := s.queue[0];
      var before, after := s.merchants[sub.merchant], GetMerchant(Settle(s, checkedAt, paidAt).merchants, sub.merchant);
      (forall t | t >= paidAt && EffectivePlan(Some(before), t) == sub.plan :: EffectivePlan(after, t) == sub.plan)
      <==> !(before.plan == sub.plan && before.planExpiresAt.None?)
  {
    hide Judge, UpdateSub;
    var sub := s.queue[0];
    var before, after := s.merchants[sub.merchant], GetMerchant(Settle(s, checkedAt, paidAt).merchants, sub.merchant);
    if before.plan == sub.plan && before.planExpiresAt.None? {
      var late := after.value.planExpiresAt.value + 1;
      assert EffectivePlan(Some(before), late) == sub.plan && EffectivePlan(after, late) != sub.plan;
    }
  }

  /**
   When it keeps whatever paid plan is in force, exactly: if none is, or if it is the plan bought and has an
   end date. Time left on another plan is lost.
   */
  lemma PlanInForceKeptIff(s: Sys, checkedAt: int, paidAt: int)
    requires Applies(s, checkedAt, paidAt)
    ensures var sub := s.queue[0];
      var before, after := s.merchants[sub.merchant], GetMerchant(Settle(s, checkedAt, paidAt).merchants, sub.merchant);
      (forall t | t >= paidAt && EffectivePlan(Some(before), t) != DEFAULT_PLAN ::
         EffectivePlan(after, t) == EffectivePlan(Some(before), t))
      <==> EffectivePlan(Some(before), paidAt) == DEFAULT_PLAN
           || (before.plan == sub.plan && before.planExpiresAt.Some?)
  {
    hide Judge, UpdateSub;
    var sub := s.queue[0];
    var before, after := s.merchants[sub.merchant], GetMerchant(Settle(s, checkedAt, paidAt).merchants, sub.merchant);
    if EffectivePlan(Some(before), paidAt) != DEFAULT_PLAN && before.plan == sub.plan && before.planExpiresAt.None? {
      var late := after.value.planExpiresAt.value + 1;
      assert EffectivePlan(Some(before), late) == sub.plan && EffectivePlan(after, late) != sub.plan;
    } else {
      assert EffectivePlan(after, paidAt) == sub.plan;
    }
  }

  /** A witness: an operator's open-ended grant is cut by buying the same plan. */
  lemma OpenEndedPlanIsCut(plan: string, paidAt: int)
    requires plan != "" && plan != DEFAULT_PLAN
    ensures var sub := Sub("s", "m", plan, Crypto, Pending, Some("i"), None);
      var s := Sys(map["m" := Merchant(plan, None)], [sub], map["i" := InvoiceRow(InvoiceConfirmed, paidAt)],
                   [sub], [], paidAt);
      && Applies(s, paidAt, paidAt)
      && exists t :: t >= paidAt && EffectivePlan(GetMerchant(s.merchants, "m"), t) == plan
           && EffectivePlan(GetMerchant(Settle(s, paidAt, paidAt).merchants, "m"), t) == DEFAULT_PLAN
  {
    hide UpdateSub;
    var sub := Sub("s", "m", plan, Crypto, Pending, Some("i"), None);
    var s := Sys(map["m" := Merchant(plan, None)], [sub], map["i" := InvoiceRow(InvoiceConfirmed, paidAt)],
                 [sub], [], paidAt);
    HeldTimeKeptIff(s, paidAt, paidAt);
  }
}
