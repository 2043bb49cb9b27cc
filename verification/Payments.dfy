/** The promises of the fixed-address mode, over every run of the protocol. */
module Payments {
  import opened Results
  import opened Strings
  import opened Quorum
  import opened AmountNonce
  import opened Invoices
  import opened InvoiceCore
  import opened Watcher
  import opened Votes
  import opened Protocol

  // ---------------------------------------------------------------- what changes in a run

  /**
   Whatever the endpoints answer, only an agreed payment confirms: if an invoice is not confirmed before a
   step and confirmed after it, the step is a poll whose endpoints agree on a transfer of the invoice's token
   with exactly its amount, at least `minConfirmations` deep; its hash is the one stored.
   */
  lemma ConfirmedOnlyIfAgreed(cfg: Config, states: seq<System>, steps: seq<Step>, i: nat, r: nat)
    requires Run(cfg, states, steps) && i < |steps| && r < |states[i].st.rows|
    ensures |states[i].st.rows| <= |states[i + 1].st.rows|
    ensures states[i].st.rows[r].status != Confirmed && states[i + 1].st.rows[r].status == Confirmed ==>
      && steps[i].PollAll?
      && states[i].st.rows[r].status == Pending
      && Backed(cfg, steps[i].inputs, states[i].st.rows[r], states[i + 1].st.rows[r].txHash)
  {
    hide RowsInv, EventsInv, Backed, Stale, Poll, Next;
    RunKeepsInv(cfg, states, steps, i);
    var s, s' := states[i], states[i + 1];
    assert Next(cfg, s, steps[i], s');
    if steps[i].PollAll? {
      PollStep(cfg, s, steps[i], s');
      assert Justified(cfg, steps[i].inputs, s.st.rows[r], s'.st.rows[r]);
    } else {
      OtherSteps(cfg, s, steps[i], s');
    }
  }

  lemma PollStep(cfg: Config, s: System, step: Step, s': System)
    requires Inv(cfg, s) && Next(cfg, s, step, s') && step.PollAll?
    ensures Advances(cfg, step.inputs, s.st, s'.st) && Inv(cfg, s')
  {
    hide RowsInv, EventsInv, Advances, Poll;
    PollKeepsInv(cfg, step.inputs, s, s');
  }

  /** A confirmed invoice stays confirmed and an expired one stays expired, with all else unchanged. */
  lemma {:induction false} SettledStays(cfg: Config, states: seq<System>, steps: seq<Step>, i: nat, j: nat, r: nat)
    requires Run(cfg, states, steps) && i <= j < |states| && r < |states[i].st.rows|
    ensures |states[i].st.rows| <= |states[j].st.rows|
    ensures var a, b := states[i].st.rows[r], states[j].st.rows[r];
      && b == a.(status := b.status, txHash := b.txHash)
      && (a.status != Pending ==> b.status == a.status)
      && (a.status != Pending && a.status != Confirmed ==> b == a)
    decreases j - i
  {
    hide RowsInv, EventsInv, Backed, Stale, Poll, Next;
    if i < j {
      SettledStays(cfg, states, steps, i, j - 1, r);
      RunKeepsInv(cfg, states, steps, j - 1);
      var s, s' := states[j - 1], states[j];
      assert Next(cfg, s, steps[j - 1], s');
      if steps[j - 1].PollAll? {
        PollStep(cfg, s, steps[j - 1], s');
        assert Justified(cfg, steps[j - 1].inputs, s.st.rows[r], s'.st.rows[r]);
      } else {
        OtherSteps(cfg, s, steps[j - 1], s');
      }
    }
  }

  /** Every decision of a run reports a transfer that some earlier poll of the run agreed on. */
  lemma {:induction false} EventsAreVoted(cfg: Config, states: seq<System>, steps: seq<Step>, i: nat, e: nat)
    returns (j: nat)
    requires Run(cfg, states, steps) && i < |states| && e < |states[i].st.events|
    ensures j < i && steps[j].PollAll? && Voted(cfg, steps[j].inputs, states[i].st.events[e])
  {
    hide RowsInv, EventsInv, Justified, Voted, Poll, Next;
    RunKeepsInv(cfg, states, steps, i - 1);
    var s, s' := states[i - 1], states[i];
    assert Next(cfg, s, steps[i - 1], s');
    if steps[i - 1].PollAll? {
      PollStep(cfg, s, steps[i - 1], s');
    } else {
      OtherSteps(cfg, s, steps[i - 1], s');
    }
    if e < |s.st.events| {
      j := EventsAreVoted(cfg, states, steps, i - 1, e);
      assert s.st.events[e] == s'.st.events[e];
    } else {
      j := i - 1;
    }
  }

  // ---------------------------------------------------------------- what an agreement is worth

  /** What is true of one token during a poll, and which endpoints may lie about it. */
  datatype TokenTruth = TokenTruth(ledger: Ledger, faulty: set<nat>)

  /** For each token, the faulty endpoints alone do not reach the threshold and the others tell the truth. */
  ghost predicate HonestPoll(cfg: Config, inputs: seq<ChainInput>, truth: seq<seq<TokenTruth>>) {
    && FitsConfig(cfg, inputs) && |truth| == |inputs|
    && forall i | 0 <= i < |inputs| :: HonestChain(cfg, inputs[i], truth[i])
  }

  ghost predicate HonestChain(cfg: Config, input: ChainInput, truth: seq<TokenTruth>) {
    && |truth| == |input.replies|
    && forall k | 0 <= k < |truth| :: HonestQuorum(input.replies[k], truth[k].faulty, truth[k].ledger, cfg.quorum)
  }

  /** Transfer `t` pays invoice `inv` on chain `ci` in token `k`, deep enough and in time. */
  ghost predicate PaidAt(cfg: Config, inputs: seq<ChainInput>, truth: seq<seq<TokenTruth>>, ci: nat, k: nat,
                         t: Transfer, inv: Invoice)
  {
    && FitsConfig(cfg, inputs) && |truth| == |inputs|
    && ci < |inputs| && k < |inputs[ci].replies| && k < |truth[ci]|
    && var c, ledger := cfg.chains[ci], truth[ci][k].ledger;
       && t in ledger.transfers && inv.amount == Units(t.value)
       && inv.chain == c.chain && Upper(inv.asset) == c.tokens[k].symbol
       && Lower(inv.address) == Lower(cfg.address)
       && DepthOn(ledger, t) >= c.minConfirmations
       && InTime(inputs[ci], inv)
  }

  ghost predicate Paid(cfg: Config, inputs: seq<ChainInput>, truth: seq<seq<TokenTruth>>, inv: Invoice,
                       txHash: Option<string>)
  {
    exists ci: nat, k: nat, t :: PaidAt(cfg, inputs, truth, ci, k, t, inv) && txHash == Some(t.txHash)
  }

  ghost predicate RealAt(cfg: Config, inputs: seq<ChainInput>, truth: seq<seq<TokenTruth>>, ci: nat, k: nat,
                         t: Transfer, ev: Event)
  {
    && FitsConfig(cfg, inputs) && |truth| == |inputs|
    && ci < |inputs| && k < |inputs[ci].replies| && k < |truth[ci]|
    && t in truth[ci][k].ledger.transfers
    && ev.chain == cfg.chains[ci].chain && ev.key == SeenKey(cfg.chains[ci].tokens[k], TransferKey(t))
    && ev.body.txHash == t.txHash && ev.body.value == t.value
  }

  /** The event names a transfer that is on the chain, by its own hash and value. */
  ghost predicate RealEvent(cfg: Config, inputs: seq<ChainInput>, truth: seq<seq<TokenTruth>>, ev: Event) {
    exists ci: nat, k: nat, t :: RealAt(cfg, inputs, truth, ci, k, t, ev)
  }

  lemma AgreedTransfer(cfg: Config, inputs: seq<ChainInput>, truth: seq<seq<TokenTruth>>, ci: nat, k: nat, m: nat)
    returns (t: Transfer)
    requires HonestPoll(cfg, inputs, truth) && AgreedAt(cfg, inputs, ci, k, m)
    ensures |truth| == |inputs| && k < |truth[ci]| && t in truth[ci][k].ledger.transfers
    ensures var e, d := EntriesAt(inputs, ci, k)[m], DecisionAt(cfg, inputs, ci, k, m);
      && TransferKey(t) == e.key && t.txHash == e.txHash && t.value == d.value
      && d.confirmations <= DepthOn(truth[ci][k].ledger, t)
  {
    hide EntriesOf, AllReports, Readable, Responded, Decide, HonestQuorum, DepthOn;
    assert HonestChain(cfg, inputs[ci], truth[ci]);
    t := AgreedIsReal(inputs[ci].replies[k], truth[ci][k].faulty, truth[ci][k].ledger, cfg.quorum, m);
  }

  lemma BackedIsPaid(cfg: Config, inputs: seq<ChainInput>, truth: seq<seq<TokenTruth>>, inv: Invoice,
                     txHash: Option<string>)
    requires HonestPoll(cfg, inputs, truth) && Backed(cfg, inputs, inv, txHash)
    ensures Paid(cfg, inputs, truth, inv, txHash)
  {
    hide EntriesOf, AllReports, Readable, Responded, Decide, HonestPoll, DepthOn, Upper, Lower;
    var ci: nat, k: nat, m: nat :|
      BackedAt(cfg, inputs, ci, k, m, inv) && txHash == Some(EntriesAt(inputs, ci, k)[m].txHash);
    var t := AgreedTransfer(cfg, inputs, truth, ci, k, m);
    assert PaidAt(cfg, inputs, truth, ci, k, t, inv);
  }

  lemma VotedIsReal(cfg: Config, inputs: seq<ChainInput>, truth: seq<seq<TokenTruth>>, ev: Event)
    requires HonestPoll(cfg, inputs, truth) && Voted(cfg, inputs, ev)
    ensures RealEvent(cfg, inputs, truth, ev)
  {
    hide EntriesOf, AllReports, Readable, Responded, Decide, HonestPoll, DepthOn;
    var ci: nat, k: nat, m: nat :| VotedAt(cfg, inputs, ci, k, m, ev);
    var t := AgreedTransfer(cfg, inputs, truth, ci, k, m);
    assert RealAt(cfg, inputs, truth, ci, k, t, ev);
  }

  /**
   Only a real payment confirms: in a poll whose faulty endpoints do not reach the threshold by their own
   reports, an invoice turns confirmed only if the chain holds a transfer of its token to the watched
   address with exactly its amount, at least `minConfirmations` deep. The rest of the run may be dishonest.
   */
  lemma ConfirmedOnlyIfPaid(cfg: Config, states: seq<System>, steps: seq<Step>, i: nat, r: nat,
                            truth: seq<seq<TokenTruth>>)
    requires Run(cfg, states, steps) && i < |steps| && r < |states[i].st.rows|
    requires steps[i].PollAll? ==> HonestPoll(cfg, steps[i].inputs, truth)
    ensures |states[i].st.rows| <= |states[i + 1].st.rows|
    ensures states[i].st.rows[r].status != Confirmed && states[i + 1].st.rows[r].status == Confirmed ==>
      && steps[i].PollAll? && states[i].st.rows[r].status == Pending
      && Paid(cfg, steps[i].inputs, truth, states[i].st.rows[r], states[i + 1].st.rows[r].txHash)
  {
    hide Backed, Paid, HonestPoll, Init, Next;
    ConfirmedOnlyIfAgreed(cfg, states, steps, i, r);
    if states[i].st.rows[r].status != Confirmed && states[i + 1].st.rows[r].status == Confirmed {
      BackedIsPaid(cfg, steps[i].inputs, truth, states[i].st.rows[r], states[i + 1].st.rows[r].txHash);
    }
  }

  /** In a run of such polls every decision names a transfer that really happened. */
  lemma EventsAreReal(cfg: Config, states: seq<System>, steps: seq<Step>, truths: seq<seq<seq<TokenTruth>>>, i: nat,
                      e: nat) returns (j: nat)
    requires Run(cfg, states, steps) && i < |states| && e < |states[i].st.events| && |truths| == |steps|
    requires forall n | 0 <= n < |steps| && steps[n].PollAll? :: HonestPoll(cfg, steps[n].inputs, truths[n])
    ensures j < i && steps[j].PollAll? && RealEvent(cfg, steps[j].inputs, truths[j], states[i].st.events[e])
  {
    hide Voted, RealEvent, HonestPoll, Inv, Next;
    j := EventsAreVoted(cfg, states, steps, i, e);
    VotedIsReal(cfg, steps[j].inputs, truths[j], states[i].st.events[e]);
  }

  // ---------------------------------------------------------------- unambiguous amounts

  /** Two active invoices a payer could confuse never have the same amount. */
  lemma AmountsIdentifyInvoices(cfg: Config, states: seq<System>, steps: seq<Step>, i: nat, a: nat, b: nat)
    requires Run(cfg, states, steps) && i < |states|
    requires a < b < |states[i].st.rows|
    requires var x, y := states[i].st.rows[a], states[i].st.rows[b];
      IsFixed(x) && IsFixed(y) && SamePool(x, y) && Active(x, states[i].now) && Active(y, states[i].now)
    ensures states[i].st.rows[a].amount != states[i].st.rows[b].amount
  {
    hide Next;
    RunKeepsInv(cfg, states, steps, i);
  }

  /** What a poll lists for one token at the time it lists the chain. */
  function Candidates(cfg: Config, rows: seq<Invoice>, c: ChainConfig, token: Token, input: ChainInput): seq<Invoice> {
    ForToken(Unexpired(PendingForChain(rows, cfg.address, c.chain, input.listedAt), input.filteredAt), token)
  }

  lemma CandidateMember(cfg: Config, rows: seq<Invoice>, c: ChainConfig, token: Token, input: ChainInput)
    ensures forall inv :: inv in Candidates(cfg, rows, c, token, input) <==>
      && inv in rows && IsListed(inv, c.chain, input.listedAt) && Lower(inv.address) == Lower(cfg.address)
      && !IsExpired(inv, input.filteredAt) && Upper(inv.asset) == token.symbol
  {
    hide Lower, Upper, PendingForChain, Unexpired;
    var pending := PendingForChain(rows, cfg.address, c.chain, input.listedAt);
    PendingMember(rows, cfg.address, c.chain, input.listedAt);
    UnexpiredMember(pending, input.filteredAt);
    FilterMember(Unexpired(pending, input.filteredAt), (inv: Invoice) => Upper(inv.asset) == token.symbol);
  }

  /** At most one candidate has a given amount. */
  lemma OneCandidate(cfg: Config, rows: seq<Invoice>, now: int, c: ChainConfig, token: Token, input: ChainInput,
                     x: Invoice, y: Invoice)
    requires RowsInv(cfg, rows, now) && now <= input.listedAt && c in cfg.chains
    requires x in Candidates(cfg, rows, c, token, input) && y in Candidates(cfg, rows, c, token, input)
    requires x.amount == y.amount
    ensures x == y && IsFixed(x) && Encoded(x)
  {
    hide Lower, Upper, Candidates;
    CandidateMember(cfg, rows, c, token, input);
    var i :| 0 <= i < |rows| && rows[i] == x;
    var j :| 0 <= j < |rows| && rows[j] == y;
    var k :| 0 <= k < |cfg.chains| && cfg.chains[k] == c;
    assert OnWatchedChain(cfg, x) && OnWatchedChain(cfg, y);
    assert SamePool(x, y) && Active(x, now) && Active(y, now);
    assert i == j;
  }

  lemma {:induction false} FindByValueFinds(active: seq<Invoice>, value: int)
    ensures var m := FindByValue(active, value);
      && (m.Some? ==> m.value.0 in active && m.value.0.amount == Units(value) && m.value.1 == value % NONCE_MODULUS)
      && (m.Some? <==>
            0 <= value && value % NONCE_MODULUS != 0 && exists inv :: inv in active && inv.amount == Units(value))
  {
    MatchOwnBase(value);
    if active != [] {
      FindByValueFinds(active[1..], value);
      assert active == [active[0]] + active[1..];
    }
  }

  /** The match does not depend on the order in which storage lists the invoices. */
  lemma MatchIgnoresOrder(cfg: Config, rows: seq<Invoice>, now: int, c: ChainConfig, token: Token, input: ChainInput,
                          listed: seq<Invoice>, value: int)
    requires RowsInv(cfg, rows, now) && now <= input.listedAt && c in cfg.chains
    requires forall inv :: inv in listed <==> inv in Candidates(cfg, rows, c, token, input)
    ensures FindByValue(listed, value) == FindByValue(Candidates(cfg, rows, c, token, input), value)
  {
    hide Candidates, RowsInv;
    var candidates := Candidates(cfg, rows, c, token, input);
    FindByValueFinds(listed, value);
    FindByValueFinds(candidates, value);
    if FindByValue(listed, value).Some? && FindByValue(candidates, value).Some? {
      OneCandidate(cfg, rows, now, c, token, input, FindByValue(listed, value).value.0,
                   FindByValue(candidates, value).value.0);
    }
  }

  // ---------------------------------------------------------------- one decision per transfer

  /**
   Within one process every (chain, token, transaction, log) is decided at most once, and `seen` holds
   exactly what was decided.
   */
  lemma DecidedAtMostOnce(cfg: Config, states: seq<System>, steps: seq<Step>, i: nat)
    requires Run(cfg, states, steps) && i < |states|
    ensures forall j, k | 0 <= j < k < |states[i].st.events| ::
      !(states[i].st.events[j].chain == states[i].st.events[k].chain
        && states[i].st.events[j].key == states[i].st.events[k].key)
    ensures forall chain, key :: key in SeenFor(states[i].st.seen, chain) <==> Decided(states[i].st.events, chain, key)
  {
    hide Next, RowsInv;
    RunKeepsInv(cfg, states, steps, i);
    var st := states[i].st;
    forall chain, key | Decided(st.events, chain, key) ensures key in SeenFor(st.seen, chain) {
      var j :| 0 <= j < |st.events| && st.events[j].chain == chain && st.events[j].key == key;
    }
  }

  // ---------------------------------------------------------------- which keys a poll decides

  /** Keys of the entries that reach a final verdict. */
  function FinalKeys(token: Token, active: seq<Invoice>, entries: seq<Entry>, threshold: int,
                     minConfirmations: nat): set<string> {
    set e | e in entries && !Judge(active, e.observations, threshold, minConfirmations).Wait? :: SeenKey(token, e.key)
  }

  function FinalKey(token: Token, active: seq<Invoice>, e: Entry, threshold: int, minConfirmations: nat): set<string> {
    if Judge(active, e.observations, threshold, minConfirmations).Wait? then {} else {SeenKey(token, e.key)}
  }

  lemma FinalKeysPush(token: Token, active: seq<Invoice>, entries: seq<Entry>, e: Entry, threshold: int,
                      minConfirmations: nat)
    ensures FinalKeys(token, active, entries + [e], threshold, minConfirmations)
         == FinalKeys(token, active, entries, threshold, minConfirmations)
            + FinalKey(token, active, e, threshold, minConfirmations)
  {
    hide Judge, SeenKey;
  }

  lemma EntryDecides(st: State, c: ChainConfig, token: Token, active: seq<Invoice>, e: Entry, threshold: int)
    ensures var s' := HandleEntry(st, c, token, active, e, threshold);
      && SeenFor(s'.seen, c.chain)
         == SeenFor(st.seen, c.chain) + FinalKey(token, active, e, threshold, c.minConfirmations)
      && forall chain | chain != c.chain :: SeenFor(s'.seen, chain) == SeenFor(st.seen, chain)
  {
    hide Judge, SeenKey, Update;
  }

  lemma {:induction false} ScanDecides(st: State, c: ChainConfig, token: Token, active: seq<Invoice>,
                                       entries: seq<Entry>, threshold: int)
    ensures var s' := HandleAll(st, c, token, active, entries, threshold);
      && SeenFor(s'.seen, c.chain)
         == SeenFor(st.seen, c.chain) + FinalKeys(token, active, entries, threshold, c.minConfirmations)
      && forall chain | chain != c.chain :: SeenFor(s'.seen, chain) == SeenFor(st.seen, chain)
  {
    hide HandleEntry, FinalKeys, FinalKey, SeenFor;
    if entries == [] {
      NoFinalKeys(token, active, threshold, c.minConfirmations);
    } else {
      var n := |entries| - 1;
      ScanDecides(st, c, token, active, entries[..n], threshold);
      FinalKeysPush(token, active, entries[..n], entries[n], threshold, c.minConfirmations);
      EntryDecides(HandleAll(st, c, token, active, entries[..n], threshold), c, token, active, entries[n], threshold);
      assert entries == entries[..n] + [entries[n]];
    }
  }

  lemma NoFinalKeys(token: Token, active: seq<Invoice>, threshold: int, minConfirmations: nat)
    ensures FinalKeys(token, active, [], threshold, minConfirmations) == {}
  {
  }

  /** The keys token `k` of a chain decides: none unless its scan completes. */
  function TokenKeys(c: ChainConfig, k: nat, active: seq<Invoice>, replies: seq<Reply>, quorum: int): set<string>
    requires k < |c.tokens|
  {
    if Responded(replies) < Threshold(|replies|, quorum) || !Readable(replies) then {}
    else
      FinalKeys(c.tokens[k], ForToken(active, c.tokens[k]), EntriesOf(AllReports(replies)),
                Threshold(|replies|, quorum), c.minConfirmations)
  }

  /** The scan of token `k` is reached: no earlier token of the chain was aborted by a malformed log. */
  predicate Reached(replies: seq<seq<Reply>>, quorum: int, k: nat)
    requires k <= |replies|
  {
    forall j | 0 <= j < k :: Responded(replies[j]) < Threshold(|replies[j]|, quorum) || Readable(replies[j])
  }

  lemma {:induction false} ReachedIff(st: State, c: ChainConfig, active: seq<Invoice>, replies: seq<seq<Reply>>,
                                      quorum: int, k: nat)
    requires k <= |c.tokens| == |replies|
    ensures Reached(replies, quorum, k) <==> ScanTokens(st, c, active, replies, quorum, k).1 != Threw
  {
    hide Responded, Readable, HandleAll, EntriesOf, AllReports, ForToken, Threshold;
    if k > 0 {
      ReachedIff(st, c, active, replies, quorum, k - 1);
    }
  }

  /** A key of the chain is decided by the first `n` tokens exactly when one of them is reached and decides it. */
  lemma {:induction false} TokensDecide(st: State, c: ChainConfig, active: seq<Invoice>, replies: seq<seq<Reply>>,
                                        quorum: int, n: nat, key: string)
    requires n <= |c.tokens| == |replies|
    ensures var s' := ScanTokens(st, c, active, replies, quorum, n).0;
      && (forall chain | chain != c.chain :: SeenFor(s'.seen, chain) == SeenFor(st.seen, chain))
      && (key in SeenFor(s'.seen, c.chain) <==>
            || key in SeenFor(st.seen, c.chain)
            || exists k :: 0 <= k < n && Reached(replies, quorum, k)
                 && key in TokenKeys(c, k, active, replies[k], quorum))
  {
    hide Responded, Readable, HandleAll, EntriesOf, AllReports, ForToken, Threshold, FinalKeys, Reached, SeenFor;
    if n > 0 {
      TokensDecide(st, c, active, replies, quorum, n - 1, key);
      ReachedIff(st, c, active, replies, quorum, n - 1);
      var before := ScanTokens(st, c, active, replies, quorum, n - 1);
      if before.1 != Threw {
        var mine := ForToken(active, c.tokens[n - 1]);
        if Responded(replies[n - 1]) >= Threshold(|replies[n - 1]|, quorum) && Readable(replies[n - 1]) {
          ScanDecides(before.0, c, c.tokens[n - 1], mine, EntriesOf(AllReports(replies[n - 1])),
            Threshold(|replies[n - 1]|, quorum));
        }
      }
    }
  }

  // ---------------------------------------------------------------- chains do not disturb each other

  /** Polling one chain changes only rows of that chain. */
  lemma OwnRowsOnly(cfg: Config, inputs: seq<ChainInput>, ci: nat, s: State, r: nat)
    requires FitsConfig(cfg, inputs) && ci < |inputs| && UniqueIds(s.rows) && r < |s.rows|
    requires Timed(inputs[ci])
    ensures var s' := PollChain(s, cfg, cfg.chains[ci], inputs[ci]).st;
      |s'.rows| == |s.rows| && (s.rows[r].chain != cfg.chains[ci].chain ==> s'.rows[r] == s.rows[r])
  {
    hide ScanTokens, PendingForChain, Unexpired, ExpireStale, EventsInv, Voted;
    var alone := cfg.(chains := [cfg.chains[ci]]);
    ChainAdvances(alone, [inputs[ci]], 0, s);
    var s' := PollChain(s, cfg, cfg.chains[ci], inputs[ci]).st;
    assert s' == PollChain(s, alone, alone.chains[0], [inputs[ci]][0]).st;
    assert Justified(alone, [inputs[ci]], s.rows[r], s'.rows[r]);
  }

  lemma {:induction false} OtherRowsAlone(cfg: Config, inputs: seq<ChainInput>, s: State,
                                          from: nat, n: nat, r: nat)
    requires FitsConfig(cfg, inputs) && from <= n <= |inputs| && UniqueIds(s.rows) && r < |s.rows|
    requires forall i | 0 <= i < |inputs| :: Timed(inputs[i])
    requires forall i | from <= i < n :: s.rows[r].chain != cfg.chains[i].chain
    ensures var a, b := PollChains(s, cfg, inputs, from).st, PollChains(s, cfg, inputs, n).st;
      |a.rows| == |b.rows| == |s.rows| && a.rows[r].chain == s.rows[r].chain && b.rows[r] == a.rows[r]
    decreases n - from
  {
    hide PollChain, EventsInv, Voted, Backed, Stale;
    ChainsAdvance(cfg, inputs, s, from);
    assert Justified(cfg, inputs, s.rows[r], PollChains(s, cfg, inputs, from).st.rows[r]);
    if from < n {
      OtherRowsAlone(cfg, inputs, s, from, n - 1, r);
      var m := PollChains(s, cfg, inputs, n - 1).st;
      ChainsAdvance(cfg, inputs, s, n - 1);
      AdvanceKeepsIds(cfg, inputs, s, m);
      OwnRowsOnly(cfg, inputs, n - 1, m, r);
    }
  }

  lemma {:induction false} SameListing(a: seq<Invoice>, b: seq<Invoice>, chain: string, now: int)
    requires |a| == |b|
    requires forall r | 0 <= r < |a| :: a[r].chain == b[r].chain && (a[r].chain == chain ==> a[r] == b[r])
    ensures ListPending(a, chain, now) == ListPending(b, chain, now)
  {
    if a != [] {
      SameListing(a[..|a| - 1], b[..|b| - 1], chain, now);
      FilterPush(a, |a| - 1, inv => IsListed(inv, chain, now));
      FilterPush(b, |b| - 1, inv => IsListed(inv, chain, now));
      assert a[..|a| - 1 + 1] == a && b[..|b| - 1 + 1] == b;
    }
  }

  /** When its turn comes, a chain's listing is the one of the start of the poll. */
  lemma ListingUnchanged(cfg: Config, inputs: seq<ChainInput>, s: State, ci: nat)
    requires GoodConfig(cfg) && FitsConfig(cfg, inputs) && ci < |inputs| && UniqueIds(s.rows)
    requires forall i | 0 <= i < |inputs| :: Timed(inputs[i])
    ensures var c, listedAt := cfg.chains[ci], inputs[ci].listedAt;
      PendingForChain(PollChains(s, cfg, inputs, ci).st.rows, cfg.address, c.chain, listedAt)
      == PendingForChain(s.rows, cfg.address, c.chain, listedAt)
  {
    hide PollChains, ListPending, Justified, EventsInv, Voted;
    var c := cfg.chains[ci];
    var m := PollChains(s, cfg, inputs, ci).st;
    ChainsAdvance(cfg, inputs, s, ci);
    forall r | 0 <= r < |s.rows|
      ensures m.rows[r].chain == s.rows[r].chain && (m.rows[r].chain == c.chain ==> m.rows[r] == s.rows[r])
    {
      SameChain(cfg, inputs, s, m, r);
      if s.rows[r].chain == c.chain {
        FirstState(s, cfg, inputs);
        OtherRowsAlone(cfg, inputs, s, 0, ci, r);
      }
    }
    SameListing(m.rows, s.rows, c.chain, inputs[ci].listedAt);
  }

  lemma FirstState(s: State, cfg: Config, inputs: seq<ChainInput>)
    requires FitsConfig(cfg, inputs)
    ensures PollChains(s, cfg, inputs, 0).st == s
  {
  }

  lemma SameChain(cfg: Config, inputs: seq<ChainInput>, s: State, s': State, r: nat)
    requires Advances(cfg, inputs, s, s') && r < |s.rows|
    ensures s'.rows[r].chain == s.rows[r].chain
  {
    hide EventsInv, Voted, Backed, Stale;
    assert Justified(cfg, inputs, s.rows[r], s'.rows[r]);
  }

  lemma {:induction false} SeenByOtherChains(cfg: Config, inputs: seq<ChainInput>, s: State, from: nat, n: nat,
                                             chain: string)
    requires FitsConfig(cfg, inputs) && from <= n <= |inputs|
    requires forall i | from <= i < n :: cfg.chains[i].chain != chain
    ensures SeenFor(PollChains(s, cfg, inputs, n).st.seen, chain)
         == SeenFor(PollChains(s, cfg, inputs, from).st.seen, chain)
    decreases n - from
  {
    hide ScanTokens, SeenFor, PendingForChain, ExpireStale, Unexpired;
    if from < n {
      SeenByOtherChains(cfg, inputs, s, from, n - 1, chain);
      var m := PollChains(s, cfg, inputs, n - 1).st;
      var c, input := cfg.chains[n - 1], inputs[n - 1];
      var pending := PendingForChain(m.rows, cfg.address, c.chain, input.listedAt);
      TokensDecide(m.(rows := ExpireStale(m.rows, pending, input.expiredAt)), c, Unexpired(pending, input.filteredAt),
                   input.replies, cfg.quorum, |c.tokens|, "");
    }
  }

  // ---------------------------------------------------------------- which invoices expire

  /** A row expired at the start of its chain's turn is left alone by the scans of that turn. */
  lemma OwnExpiry(cfg: Config, inputs: seq<ChainInput>, ci: nat, s: State, r: nat)
    requires FitsConfig(cfg, inputs) && ci < |inputs| && UniqueIds(s.rows) && r < |s.rows| && Timed(inputs[ci])
    requires s.rows[r].status == Pending && StaleAt(cfg, inputs, ci, s.rows[r])
    ensures var s' := PollChain(s, cfg, cfg.chains[ci], inputs[ci]).st;
      |s'.rows| == |s.rows| && s'.rows[r].status == Expired
  {
    hide ScanTokens, PendingForChain, Unexpired, ExpireStale, EventsInv, Voted, Backed, ActiveRows, Lower;
    var c, input := cfg.chains[ci], inputs[ci];
    var pending := PendingForChain(s.rows, cfg.address, c.chain, input.listedAt);
    PendingMember(s.rows, cfg.address, c.chain, input.listedAt);
    ExpireEffect(s.rows, pending, input.expiredAt);
    ExpiryAdvances(cfg, inputs, ci, s);
    var m := s.(rows := ExpireStale(s.rows, pending, input.expiredAt));
    TokensAdvance(cfg, inputs, ci, m, Unexpired(pending, input.filteredAt), |c.tokens|);
    assert Justified(cfg, inputs, m.rows[r], PollChain(s, cfg, c, input).st.rows[r]);
  }

  /** A poll expires a pending invoice exactly if it expires between being listed and being checked. */
  lemma ExpiresIff(cfg: Config, inputs: seq<ChainInput>, s: State, ci: nat, r: nat)
    requires GoodConfig(cfg) && FitsConfig(cfg, inputs) && ci < |inputs| && UniqueIds(s.rows) && r < |s.rows|
    requires forall i | 0 <= i < |inputs| :: Timed(inputs[i])
    requires s.rows[r].status == Pending && s.rows[r].chain == cfg.chains[ci].chain
    ensures |Poll(s, cfg, inputs).rows| == |s.rows|
    ensures Poll(s, cfg, inputs).rows[r].status == Expired
            <==> IsHexAddress(cfg.address) && StaleAt(cfg, inputs, ci, s.rows[r])
  {
    hide PollChains, PollChain, EventsInv, Voted, Backed, GoodTokens, IsHexAddress, Lower;
    PollAdvances(cfg, inputs, s);
    assert Justified(cfg, inputs, s.rows[r], Poll(s, cfg, inputs).rows[r]);
    if IsHexAddress(cfg.address) && StaleAt(cfg, inputs, ci, s.rows[r]) {
      FirstState(s, cfg, inputs);
      OtherRowsAlone(cfg, inputs, s, 0, ci, r);
      var before := PollChains(s, cfg, inputs, ci).st;
      ChainsAdvance(cfg, inputs, s, ci);
      AdvanceKeepsIds(cfg, inputs, s, before);
      OwnExpiry(cfg, inputs, ci, before, r);
      NextChain(s, cfg, inputs, ci);
      OtherRowsAlone(cfg, inputs, s, ci + 1, |inputs|, r);
    }
  }

  lemma NextChain(s: State, cfg: Config, inputs: seq<ChainInput>, ci: nat)
    requires FitsConfig(cfg, inputs) && ci < |inputs|
    ensures PollChains(s, cfg, inputs, ci + 1).st
         == PollChain(PollChains(s, cfg, inputs, ci).st, cfg, cfg.chains[ci], inputs[ci]).st
  {
  }

  /** Some step of the run from `i` to `j` reads this invoice past its expiry. */
  predicate ReadBetween(steps: seq<Step>, i: nat, j: nat, inv: Invoice)
    requires i <= j <= |steps|
  {
    exists n :: i <= n < j && steps[n].ReadInvoice? && Lapsed(inv, steps[n].id, steps[n].at)
  }

  /** An invoice still pending at its expiry instant is not confirmed any more, and expires only by being read. */
  lemma {:induction false} MissedExpiryStays(cfg: Config, states: seq<System>, steps: seq<Step>, i: nat, j: nat, r: nat)
    requires Run(cfg, states, steps) && i <= j < |states| && r < |states[i].st.rows|
    requires states[i].st.rows[r].status == Pending && states[i].st.rows[r].expiresAt <= states[i].now
    ensures states[i].now <= states[j].now && r < |states[j].st.rows|
    ensures states[j].st.rows[r]
         == if ReadBetween(steps, i, j, states[i].st.rows[r]) then states[i].st.rows[r].(status := Expired)
            else states[i].st.rows[r]
    decreases j - i
  {
    hide RowsInv, EventsInv, Justified, Voted, Poll, Next;
    if i < j {
      MissedExpiryStays(cfg, states, steps, i, j - 1, r);
      RunKeepsInv(cfg, states, steps, j - 1);
      var s, s' := states[j - 1], states[j];
      assert Next(cfg, s, steps[j - 1], s');
      TimePasses(cfg, s, steps[j - 1], s');
      if steps[j - 1].PollAll? {
        PollStep(cfg, s, steps[j - 1], s');
        MissedIsLeftAlone(cfg, steps[j - 1].inputs, s.st.rows[r], s'.st.rows[r]);
      } else {
        OtherSteps(cfg, s, steps[j - 1], s');
      }
    }
  }

  lemma MissedIsLeftAlone(cfg: Config, inputs: seq<ChainInput>, a: Invoice, b: Invoice)
    requires Justified(cfg, inputs, a, b) && (a.status == Pending || a.status == Expired)
    requires forall ci | 0 <= ci < |inputs| :: a.expiresAt <= inputs[ci].listedAt
    ensures b == a
  {
    hide Readable, Responded, DecisionAt, EntriesAt, Lower, Upper;
  }

  lemma TimePasses(cfg: Config, s: System, step: Step, s': System)
    requires Next(cfg, s, step, s')
    ensures s.now <= s'.now
    ensures step.PollAll? ==> forall ci | 0 <= ci < |step.inputs| :: s.now <= step.inputs[ci].listedAt
  {
    hide Create, OnWatchedChain, Poll;
  }

  // ---------------------------------------------------------------- what a poll reports

  /** Enough endpoints answer, and nothing they list is malformed. */
  predicate Answered(replies: seq<Reply>, quorum: int) {
    Responded(replies) >= Threshold(|replies|, quorum) && Readable(replies)
  }

  lemma {:induction false} CompleteIff(st: State, c: ChainConfig, active: seq<Invoice>, replies: seq<seq<Reply>>,
                                       quorum: int, n: nat)
    requires n <= |c.tokens| == |replies|
    ensures ScanTokens(st, c, active, replies, quorum, n).1 == Complete <==>
      forall k | 0 <= k < n :: Answered(replies[k], quorum)
  {
    hide Responded, Readable, HandleAll, EntriesOf, AllReports, ForToken, Threshold;
    if n > 0 {
      CompleteIff(st, c, active, replies, quorum, n - 1);
    }
  }

  /** A poll is healthy exactly if every token of every chain is answered. */
  lemma {:induction false} HealthyIff(cfg: Config, inputs: seq<ChainInput>, s: State, n: nat)
    requires FitsConfig(cfg, inputs) && n <= |inputs|
    ensures PollChains(s, cfg, inputs, n).ok <==>
      forall i, k | 0 <= i < n && 0 <= k < |inputs[i].replies| :: Answered(inputs[i].replies[k], cfg.quorum)
  {
    hide ScanTokens, PendingForChain, ExpireStale, Unexpired, Answered;
    if n > 0 {
      HealthyIff(cfg, inputs, s, n - 1);
      var m := PollChains(s, cfg, inputs, n - 1).st;
      var c, input := cfg.chains[n - 1], inputs[n - 1];
      var pending := PendingForChain(m.rows, cfg.address, c.chain, input.listedAt);
      CompleteIff(m.(rows := ExpireStale(m.rows, pending, input.expiredAt)), c, Unexpired(pending, input.filteredAt),
                  input.replies, cfg.quorum, |c.tokens|);
    }
  }

  /** How many pending invoices of a chain await a payment to this address. */
  function Awaiting(rows: seq<Invoice>, address: string, chain: string, at: int): nat {
    if rows == [] then 0
    else
      var inv := rows[|rows| - 1];
      Awaiting(rows[..|rows| - 1], address, chain, at)
      + if inv.status == Pending && inv.expiresAt > at && inv.chain == chain && SameText(inv.address, address) then 1
        else 0
  }

  lemma {:induction false} AwaitingListed(rows: seq<Invoice>, address: string, chain: string, at: int)
    ensures |PendingForChain(rows, address, chain, at)| == Awaiting(rows, address, chain, at)
  {
    hide Lower, SameText;
    if rows != [] {
      var n := |rows| - 1;
      var p, q := (inv: Invoice) => IsListed(inv, chain, at), (inv: Invoice) => Lower(inv.address) == Lower(address);
      AwaitingListed(rows[..n], address, chain, at);
      FoldsIff(rows[n].address, address);
      var before := ListPending(rows[..n], chain, at);
      FilterOne(before, rows[n], q);
      assert before + [] == before;
    }
  }

  lemma FilterOne(s: seq<Invoice>, x: Invoice, p: Invoice -> bool)
    ensures Filter(s + [x], p) == Filter(s, p) + if p(x) then [x] else []
  {
    assert (s + [x])[..|s|] == s;
  }

  function AwaitingAll(cfg: Config, rows: seq<Invoice>, inputs: seq<ChainInput>, n: nat): nat
    requires n <= |cfg.chains| == |inputs|
  {
    if n == 0 then 0
    else
      AwaitingAll(cfg, rows, inputs, n - 1)
      + Awaiting(rows, cfg.address, cfg.chains[n - 1].chain, inputs[n - 1].listedAt)
  }

  /** The pending count adds up, chain by chain, what awaited a payment when the poll began. */
  lemma {:induction false} PendingCounted(cfg: Config, inputs: seq<ChainInput>, s: State, n: nat)
    requires GoodConfig(cfg) && FitsConfig(cfg, inputs) && n <= |inputs| && UniqueIds(s.rows)
    requires forall i | 0 <= i < |inputs| :: Timed(inputs[i])
    ensures PollChains(s, cfg, inputs, n).pending == AwaitingAll(cfg, s.rows, inputs, n)
  {
    hide PendingForChain, ScanTokens, ExpireStale, Unexpired, UniqueIds, GoodTokens;
    if n > 0 {
      PendingCounted(cfg, inputs, s, n - 1);
      ListingUnchanged(cfg, inputs, s, n - 1);
      AwaitingListed(s.rows, cfg.address, cfg.chains[n - 1].chain, inputs[n - 1].listedAt);
    }
  }

  // ---------------------------------------------------------------- exactly what becomes seen

  function Listed(cfg: Config, rows: seq<Invoice>, inputs: seq<ChainInput>, ci: nat): seq<Invoice>
    requires FitsConfig(cfg, inputs) && ci < |inputs|
  {
    Unexpired(PendingForChain(rows, cfg.address, cfg.chains[ci].chain, inputs[ci].listedAt), inputs[ci].filteredAt)
  }

  /** Some token of the chain is scanned and its vote settles this key. */
  predicate DecidesKey(cfg: Config, rows: seq<Invoice>, inputs: seq<ChainInput>, ci: nat, key: string)
    requires FitsConfig(cfg, inputs) && ci < |inputs|
  {
    exists k :: 0 <= k < |cfg.chains[ci].tokens| && Reached(inputs[ci].replies, cfg.quorum, k)
      && key in TokenKeys(cfg.chains[ci], k, Listed(cfg, rows, inputs, ci), inputs[ci].replies[k], cfg.quorum)
  }

  /** A poll marks a key as seen exactly when it settles it; every other transfer can be decided later. */
  lemma PollDecides(cfg: Config, inputs: seq<ChainInput>, s: State, ci: nat, key: string)
    requires GoodConfig(cfg) && FitsConfig(cfg, inputs) && ci < |inputs| && UniqueIds(s.rows)
    requires forall i | 0 <= i < |inputs| :: Timed(inputs[i])
    requires IsHexAddress(cfg.address)
    ensures var chain := cfg.chains[ci].chain;
      key in SeenFor(Poll(s, cfg, inputs).seen, chain) <==>
        key in SeenFor(s.seen, chain) || DecidesKey(cfg, s.rows, inputs, ci, key)
  {
    hide ScanTokens, SeenFor, PendingForChain, ExpireStale, Unexpired, UniqueIds, IsHexAddress, Reached,
         TokenKeys, GoodTokens;
    var c, input := cfg.chains[ci], inputs[ci];
    FirstState(s, cfg, inputs);
    SeenByOtherChains(cfg, inputs, s, 0, ci, c.chain);
    SeenByOtherChains(cfg, inputs, s, ci + 1, |inputs|, c.chain);
    ListingUnchanged(cfg, inputs, s, ci);
    var m := PollChains(s, cfg, inputs, ci).st;
    var pending := PendingForChain(m.rows, cfg.address, c.chain, input.listedAt);
    TokensDecide(m.(rows := ExpireStale(m.rows, pending, input.expiredAt)), c, Unexpired(pending, input.filteredAt),
                 input.replies, cfg.quorum, |c.tokens|, key);
  }

  /** A key names one token and one log: it is decided by that token's vote on that log or not at all. */
  lemma KeyBelongs(c: ChainConfig, k: nat, j: nat, logKey: string, active: seq<Invoice>, replies: seq<Reply>,
                   quorum: int) returns (x: Entry)
    requires GoodTokens(c.tokens) && k < |c.tokens| && j < |c.tokens|
    requires SeenKey(c.tokens[k], logKey) in TokenKeys(c, j, active, replies, quorum)
    ensures j == k && Responded(replies) >= Threshold(|replies|, quorum) && Readable(replies)
    ensures x in EntriesOf(AllReports(replies)) && x.key == logKey
    ensures var mine := ForToken(active, c.tokens[k]);
      !Judge(mine, x.observations, Threshold(|replies|, quorum), c.minConfirmations).Wait?
  {
    hide EntriesOf, AllReports, Readable, Judge, ForToken, Responded, Threshold;
    x :| x in EntriesOf(AllReports(replies))
      && !Judge(ForToken(active, c.tokens[j]), x.observations, Threshold(|replies|, quorum), c.minConfirmations).Wait?
      && SeenKey(c.tokens[j], x.key) == SeenKey(c.tokens[k], logKey);
    SplitAtColon(c.tokens[j].symbol, x.key, c.tokens[k].symbol, logKey);
  }

  lemma OneEntry(replies: seq<Reply>, x: Entry, m: nat)
    requires Readable(replies) && m < |EntriesOf(AllReports(replies))|
    requires x in EntriesOf(AllReports(replies)) && x.key == EntriesOf(AllReports(replies))[m].key
    ensures x == EntriesOf(AllReports(replies))[m]
  {
    hide EntriesOf, AllReports, Readable, FindEntry, EntryFits;
    EntriesFit(AllReports(replies));
    var n :| 0 <= n < |EntriesOf(AllReports(replies))| && EntriesOf(AllReports(replies))[n] == x;
    assert n == m;
  }

  /** The vote on log `m` of token `k` against the invoices listed for it. */
  function VerdictAt(cfg: Config, rows: seq<Invoice>, inputs: seq<ChainInput>, ci: nat, k: nat, m: nat): Verdict
    requires FitsConfig(cfg, inputs) && ci < |inputs| && k < |cfg.chains[ci].tokens| && Readable(inputs[ci].replies[k])
    requires m < |EntriesAt(inputs, ci, k)|
  {
    Judge(ForToken(Listed(cfg, rows, inputs, ci), cfg.chains[ci].tokens[k]), EntriesAt(inputs, ci, k)[m].observations,
          ThresholdAt(cfg, inputs, ci, k), cfg.chains[ci].minConfirmations)
  }

  function KeyAt(cfg: Config, inputs: seq<ChainInput>, ci: nat, k: nat, m: nat): string
    requires FitsConfig(cfg, inputs) && ci < |inputs| && k < |cfg.chains[ci].tokens| && Readable(inputs[ci].replies[k])
    requires m < |EntriesAt(inputs, ci, k)|
  {
    SeenKey(cfg.chains[ci].tokens[k], EntriesAt(inputs, ci, k)[m].key)
  }

  /** Conflicting, under-reported and immature transfers stay open; agreed ones are closed. */
  lemma OpenUnlessFinal(cfg: Config, inputs: seq<ChainInput>, s: State, ci: nat, k: nat,
                        m: nat)
    requires GoodConfig(cfg) && FitsConfig(cfg, inputs) && ci < |inputs| && UniqueIds(s.rows)
    requires forall i | 0 <= i < |inputs| :: Timed(inputs[i])
    requires IsHexAddress(cfg.address) && k < |cfg.chains[ci].tokens| && Readable(inputs[ci].replies[k])
    requires m < |EntriesAt(inputs, ci, k)|
    ensures var chain, key := cfg.chains[ci].chain, KeyAt(cfg, inputs, ci, k, m);
      key in SeenFor(Poll(s, cfg, inputs).seen, chain) <==>
        || key in SeenFor(s.seen, chain)
        || (&& Reached(inputs[ci].replies, cfg.quorum, k)
            && Responded(inputs[ci].replies[k]) >= ThresholdAt(cfg, inputs, ci, k)
            && !VerdictAt(cfg, s.rows, inputs, ci, k, m).Wait?)
  {
    hide EntriesOf, AllReports, Readable, Judge, ForToken, Listed, Reached, Responded, SeenFor, Poll, UniqueIds,
         IsHexAddress, GoodTokens;
    var c := cfg.chains[ci];
    var key := KeyAt(cfg, inputs, ci, k, m);
    var active := Listed(cfg, s.rows, inputs, ci);
    PollDecides(cfg, inputs, s, ci, key);
    if DecidesKey(cfg, s.rows, inputs, ci, key) {
      var j :| 0 <= j < |c.tokens| && Reached(inputs[ci].replies, cfg.quorum, j)
        && key in TokenKeys(c, j, active, inputs[ci].replies[j], cfg.quorum);
      var x := KeyBelongs(c, k, j, EntriesAt(inputs, ci, k)[m].key, active, inputs[ci].replies[j], cfg.quorum);
      OneEntry(inputs[ci].replies[k], x, m);
    }
    if Reached(inputs[ci].replies, cfg.quorum, k) && Responded(inputs[ci].replies[k]) >= ThresholdAt(cfg, inputs, ci, k)
       && !VerdictAt(cfg, s.rows, inputs, ci, k, m).Wait? {
      assert EntriesAt(inputs, ci, k)[m] in EntriesOf(AllReports(inputs[ci].replies[k]));
      assert key in TokenKeys(c, k, active, inputs[ci].replies[k], cfg.quorum);
    }
  }
}
