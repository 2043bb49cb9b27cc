/** No payment is lost: the first poll that agrees on a deep enough transfer confirms the invoice it pays. */
module Settlement {
  import opened Quorum
  import opened Invoices
  import opened InvoiceCore
  import opened Watcher
  import opened Votes
  import opened Protocol
  import opened Payments

  // ---------------------------------------------------------------- confirmation sticks

  /** Ids stay where they are and confirmed rows stay confirmed. */
  ghost predicate Sticks(rows: seq<Invoice>, after: seq<Invoice>) {
    && |after| == |rows|
    && forall r | 0 <= r < |rows| ::
         after[r].id == rows[r].id && (rows[r].status == Confirmed ==> after[r].status == Confirmed)
  }

  lemma EntrySticks(st: State, c: ChainConfig, token: Token, active: seq<Invoice>, e: Entry, threshold: int)
    ensures Sticks(st.rows, HandleEntry(st, c, token, active, e, threshold).rows)
  {
    hide Judge, SeenKey, SeenFor;
  }

  lemma {:induction false} ScanSticks(st: State, c: ChainConfig, token: Token, active: seq<Invoice>,
                                      entries: seq<Entry>, threshold: int)
    ensures Sticks(st.rows, HandleAll(st, c, token, active, entries, threshold).rows)
  {
    hide HandleEntry;
    if entries != [] {
      var n := |entries| - 1;
      ScanSticks(st, c, token, active, entries[..n], threshold);
      EntrySticks(HandleAll(st, c, token, active, entries[..n], threshold), c, token, active, entries[n], threshold);
    }
  }

  lemma TokenSticks(st: State, c: ChainConfig, token: Token, active: seq<Invoice>, replies: seq<Reply>, quorum: int)
    ensures Sticks(st.rows, ScanToken(st, c, token, active, replies, quorum).0.rows)
  {
    hide HandleAll, EntriesOf, AllReports;
    if Readable(replies) {
      ScanSticks(st, c, token, active, EntriesOf(AllReports(replies)), Threshold(|replies|, quorum));
    }
  }

  lemma {:induction false} TokensStick(st: State, c: ChainConfig, active: seq<Invoice>, replies: seq<seq<Reply>>,
                                       quorum: int, n: nat)
    requires n <= |c.tokens| == |replies|
    ensures Sticks(st.rows, ScanTokens(st, c, active, replies, quorum, n).0.rows)
  {
    hide ScanToken, ForToken;
    if n > 0 {
      TokensStick(st, c, active, replies, quorum, n - 1);
      var before := ScanTokens(st, c, active, replies, quorum, n - 1);
      TokenSticks(before.0, c, c.tokens[n - 1], ForToken(active, c.tokens[n - 1]), replies[n - 1], quorum);
    }
  }

  lemma {:induction false} ExpiryKeepsIds(rows: seq<Invoice>, pending: seq<Invoice>, clock: Clock)
    ensures forall r | 0 <= r < |rows| :: ExpireStale(rows, pending, clock)[r].id == rows[r].id
  {
    if pending != [] {
      ExpiryKeepsIds(rows, pending[..|pending| - 1], clock);
    }
  }

  // ---------------------------------------------------------------- one scan

  lemma SeenKeyInjective(token: Token, a: string, b: string)
    requires SeenKey(token, a) == SeenKey(token, b)
    ensures a == b
  {
    assert SeenKey(token, a)[|token.symbol| + 1..] == a;
    assert SeenKey(token, b)[|token.symbol| + 1..] == b;
  }

  /** An entry whose verdict is to confirm confirms, whatever the scan does before and after it. */
  lemma {:induction false} ScanConfirms(st: State, c: ChainConfig, token: Token, active: seq<Invoice>,
                                        entries: seq<Entry>,
                                        threshold: int, m: nat, r: nat)
    requires DistinctKeys(entries) && m < |entries| && r < |st.rows|
    requires SeenKey(token, entries[m].key) !in SeenFor(st.seen, c.chain)
    requires var v := Judge(active, entries[m].observations, threshold, c.minConfirmations);
      v.Confirm? && v.inv.id == st.rows[r].id
    ensures var s' := HandleAll(st, c, token, active, entries, threshold);
      |s'.rows| == |st.rows| && s'.rows[r].status == Confirmed
  {
    hide Judge, SeenKey, SeenFor;
    var n := |entries| - 1;
    var before := HandleAll(st, c, token, active, entries[..n], threshold);
    ScanSticks(st, c, token, active, entries[..n], threshold);
    if m < n {
      ScanConfirms(st, c, token, active, entries[..n], threshold, m, r);
      EntrySticks(before, c, token, active, entries[n], threshold);
    } else {
      NotYetFinal(token, active, entries, threshold, c.minConfirmations, m);
      ScanDecides(st, c, token, active, entries[..n], threshold);
    }
  }

  lemma NotYetFinal(token: Token, active: seq<Invoice>, entries: seq<Entry>, threshold: int, minConfirmations: nat,
                    m: nat)
    requires DistinctKeys(entries) && m < |entries|
    ensures SeenKey(token, entries[m].key) !in FinalKeys(token, active, entries[..m], threshold, minConfirmations)
  {
    hide Judge, SeenKey;
    forall e | e in entries[..m] ensures SeenKey(token, e.key) != SeenKey(token, entries[m].key) {
      if SeenKey(token, e.key) == SeenKey(token, entries[m].key) {
        SeenKeyInjective(token, e.key, entries[m].key);
      }
    }
  }

  // ---------------------------------------------------------------- one chain

  /** Token `k` is scanned to the end. */
  predicate ScanCompletes(replies: seq<seq<Reply>>, quorum: int, k: nat)
    requires k < |replies|
  {
    Reached(replies, quorum, k) && Responded(replies[k]) >= Threshold(|replies[k]|, quorum) && Readable(replies[k])
  }

  lemma {:induction false} TokensConfirm(st: State, c: ChainConfig, active: seq<Invoice>, replies: seq<seq<Reply>>,
                                         quorum: int,
                                         k: nat, n: nat, m: nat, r: nat)
    requires GoodTokens(c.tokens) && k < n <= |c.tokens| == |replies| && r < |st.rows|
    requires ScanCompletes(replies, quorum, k) && m < |EntriesOf(AllReports(replies[k]))|
    requires var e := EntriesOf(AllReports(replies[k]))[m];
      var mine, threshold := ForToken(active, c.tokens[k]), Threshold(|replies[k]|, quorum);
      var v := Judge(mine, e.observations, threshold, c.minConfirmations);
      SeenKey(c.tokens[k], e.key) !in SeenFor(st.seen, c.chain) && v.Confirm? && v.inv.id == st.rows[r].id
    ensures var s' := ScanTokens(st, c, active, replies, quorum, n).0;
      |s'.rows| == |st.rows| && s'.rows[r].status == Confirmed
    decreases n
  {
    hide Judge, SeenKey, SeenFor, HandleAll, EntriesOf, AllReports, ForToken, Responded, Readable, Threshold,
         TokenKeys, GoodTokens;
    var before := ScanTokens(st, c, active, replies, quorum, n - 1);
    TokensStick(st, c, active, replies, quorum, n - 1);
    ReachedIff(st, c, active, replies, quorum, n - 1);
    if k < n - 1 {
      TokensConfirm(st, c, active, replies, quorum, k, n - 1, m, r);
      if before.1 != Threw {
        TokenSticks(before.0, c, c.tokens[n - 1], ForToken(active, c.tokens[n - 1]), replies[n - 1], quorum);
      }
    } else {
      var e := EntriesOf(AllReports(replies[k]))[m];
      var key := SeenKey(c.tokens[k], e.key);
      TokensDecide(st, c, active, replies, quorum, k, key);
      forall j | 0 <= j < k ensures key !in TokenKeys(c, j, active, replies[j], quorum) {
        if key in TokenKeys(c, j, active, replies[j], quorum) {
          var x := KeyBelongs(c, k, j, e.key, active, replies[j], quorum);
        }
      }
      EntriesFit(AllReports(replies[k]));
      ScanConfirms(before.0, c, c.tokens[k], ForToken(active, c.tokens[k]), EntriesOf(AllReports(replies[k])),
                   Threshold(|replies[k]|, quorum), m, r);
    }
  }

  // ---------------------------------------------------------------- one poll

  /** The poll scans the token, agrees on log `m` deep enough, and an invoice listed for it awaits that value. */
  ghost predicate AgreedFor(cfg: Config, rows: seq<Invoice>, inputs: seq<ChainInput>, ci: nat, k: nat, m: nat,
                            inv: Invoice) {
    && FitsConfig(cfg, inputs) && IsHexAddress(cfg.address) && ci < |inputs| && k < |inputs[ci].replies|
    && ScanCompletes(inputs[ci].replies, cfg.quorum, k) && m < |EntriesAt(inputs, ci, k)|
    && inv in Candidates(cfg, rows, cfg.chains[ci], cfg.chains[ci].tokens[k], inputs[ci])
    && var d := Decide(EntriesAt(inputs, ci, k)[m].observations, ThresholdAt(cfg, inputs, ci, k));
       d.Agreed? && inv.amount == Units(d.value) && d.confirmations >= cfg.chains[ci].minConfirmations
  }

  /** The verdict on such a log is to confirm exactly that invoice. */
  lemma VerdictIsConfirm(cfg: Config, s: System, inputs: seq<ChainInput>, ci: nat, k: nat, m: nat, inv: Invoice)
    requires Inv(cfg, s) && AgreedFor(cfg, s.st.rows, inputs, ci, k, m, inv) && s.now <= inputs[ci].listedAt
    ensures var v := VerdictAt(cfg, s.st.rows, inputs, ci, k, m);
      v.Confirm? && v.inv == inv
  {
    hide RowsInv, EventsInv, Candidates, Readable, EntriesOf, AllReports, Decide, Reached, Responded, IsHexAddress;
    var c, token := cfg.chains[ci], cfg.chains[ci].tokens[k];
    var candidates := Candidates(cfg, s.st.rows, c, token, inputs[ci]);
    assert candidates == ForToken(Listed(cfg, s.st.rows, inputs, ci), token) by {
      SameList(cfg, s.st.rows, inputs, ci, k);
    }
    var value := Decide(EntriesAt(inputs, ci, k)[m].observations, ThresholdAt(cfg, inputs, ci, k)).value;
    OneCandidate(cfg, s.st.rows, s.now, c, token, inputs[ci], inv, inv);
    FindByValueFinds(candidates, value);
    OneCandidate(cfg, s.st.rows, s.now, c, token, inputs[ci], inv, FindByValue(candidates, value).value.0);
  }

  lemma SameList(cfg: Config, rows: seq<Invoice>, inputs: seq<ChainInput>, ci: nat, k: nat)
    requires FitsConfig(cfg, inputs) && ci < |inputs| && k < |inputs[ci].replies|
    ensures Candidates(cfg, rows, cfg.chains[ci], cfg.chains[ci].tokens[k], inputs[ci])
         == ForToken(Listed(cfg, rows, inputs, ci), cfg.chains[ci].tokens[k])
  {
  }

  lemma ChainConfirms(cfg: Config, inputs: seq<ChainInput>, st: State, ci: nat, k: nat, m: nat, r: nat)
    requires GoodConfig(cfg) && FitsConfig(cfg, inputs) && ci < |inputs| && k < |inputs[ci].replies| && r < |st.rows|
    requires ScanCompletes(inputs[ci].replies, cfg.quorum, k) && m < |EntriesAt(inputs, ci, k)|
    requires KeyAt(cfg, inputs, ci, k, m) !in SeenFor(st.seen, cfg.chains[ci].chain)
    requires var v := VerdictAt(cfg, st.rows, inputs, ci, k, m); v.Confirm? && v.inv.id == st.rows[r].id
    ensures var s' := PollChain(st, cfg, cfg.chains[ci], inputs[ci]).st;
      |s'.rows| == |st.rows| && s'.rows[r].status == Confirmed
  {
    hide Judge, SeenKey, SeenFor, ScanTokens, EntriesOf, AllReports, ForToken, Responded, Readable, Reached,
         ExpireStale, Unexpired,
         PendingForChain, GoodTokens;
    var c, input := cfg.chains[ci], inputs[ci];
    var pending := PendingForChain(st.rows, cfg.address, c.chain, input.listedAt);
    ExpiryKeepsIds(st.rows, pending, input.expiredAt);
    TokensConfirm(st.(rows := ExpireStale(st.rows, pending, input.expiredAt)), c, Unexpired(pending, input.filteredAt),
                  input.replies, cfg.quorum, k, |c.tokens|, m, r);
  }

  /**
   A quorum-agreed, deep enough payment whose invoice is still active confirms that invoice in this very
   poll, provided no earlier decision of the same process already consumed the log.
   */
  lemma PaymentConfirms(cfg: Config, s: System, inputs: seq<ChainInput>, until: int,
                        ci: nat, k: nat, m: nat, r: nat)
    requires GoodConfig(cfg) && Inv(cfg, s) && FitsConfig(cfg, inputs) && Clocked(inputs, s.now, until)
    requires r < |s.st.rows| && AgreedFor(cfg, s.st.rows, inputs, ci, k, m, s.st.rows[r])
    requires KeyAt(cfg, inputs, ci, k, m) !in SeenFor(s.st.seen, cfg.chains[ci].chain)
    ensures var after := Poll(s.st, cfg, inputs);
      && |after.rows| == |s.st.rows| && after.rows[r].status == Confirmed
      && KeyAt(cfg, inputs, ci, k, m) in SeenFor(after.seen, cfg.chains[ci].chain)
  {
    hide DistinctAmounts, EventsInv, EntriesOf, AllReports, Readable, Judge, ForToken, Reached, Responded,
         Candidates,
         SeenFor, SeenKey, Decide, PollChain, PendingForChain, GoodTokens, IsHexAddress, Lower, Upper;
    var c := cfg.chains[ci];
    VerdictIsConfirm(cfg, s, inputs, ci, k, m, s.st.rows[r]);
    OpenUnlessFinal(cfg, inputs, s.st, ci, k, m);
    CandidateMember(cfg, s.st.rows, c, c.tokens[k], inputs[ci]);
    BeforeItsTurn(cfg, inputs, s.st, ci, k, m, r);
    var before := PollChains(s.st, cfg, inputs, ci).st;
    ChainConfirms(cfg, inputs, before, ci, k, m, r);
    OtherRowsAlone(cfg, inputs, s.st, ci + 1, |inputs|, r);
  }

  /** The chains polled earlier leave the row, the verdict and the seen keys of this chain as they were. */
  lemma BeforeItsTurn(cfg: Config, inputs: seq<ChainInput>, st: State, ci: nat, k: nat,
                      m: nat, r: nat)
    requires GoodConfig(cfg) && FitsConfig(cfg, inputs) && UniqueIds(st.rows) && ci < |inputs| && r < |st.rows|
    requires forall i | 0 <= i < |inputs| :: Timed(inputs[i])
    requires k < |inputs[ci].replies| && Readable(inputs[ci].replies[k]) && m < |EntriesAt(inputs, ci, k)|
    requires st.rows[r].chain == cfg.chains[ci].chain
    ensures var before := PollChains(st, cfg, inputs, ci).st;
      && |before.rows| == |st.rows| && before.rows[r] == st.rows[r]
      && SeenFor(before.seen, cfg.chains[ci].chain) == SeenFor(st.seen, cfg.chains[ci].chain)
      && VerdictAt(cfg, before.rows, inputs, ci, k, m) == VerdictAt(cfg, st.rows, inputs, ci, k, m)
  {
    hide EntriesOf, AllReports, Readable, Judge, ForToken, SeenFor, PollChains, PendingForChain,
         GoodTokens, UniqueIds;
    FirstState(st, cfg, inputs);
    OtherRowsAlone(cfg, inputs, st, 0, ci, r);
    SeenByOtherChains(cfg, inputs, st, 0, ci, cfg.chains[ci].chain);
    ListingUnchanged(cfg, inputs, st, ci);
  }

  // ---------------------------------------------------------------- when the endpoints agree

  /** The endpoints in `listers` list the log with this value, enough of them and more than half of all its reports. */
  predicate Majority(replies: seq<Reply>, listers: set<nat>, key: string, v: int, threshold: int)
    requires Readable(replies)
  {
    && (forall i | i in listers :: i < |replies| && ListsValue(replies[i], key, v))
    && |listers| >= threshold && 2 * |listers| > |ObservationsOf(AllReports(replies), key)|
  }

  lemma MajorityVotes(replies: seq<Reply>, listers: set<nat>, key: string, v: int, threshold: int) returns (m: nat)
    requires Readable(replies) && threshold >= 1 && Majority(replies, listers, key, v, threshold)
    ensures Responded(replies) >= threshold && m < |EntriesOf(AllReports(replies))|
    ensures var e := EntriesOf(AllReports(replies))[m];
      var d := Decide(e.observations, threshold);
      && e.key == key && e.observations == ObservationsOf(AllReports(replies), key)
      && d.Agreed? && d.value == v
  {
    hide EntriesOf, AllReports, ObservationsOf, Decide, Count, Responded, ListsValue;
    assert Below(listers, |replies|) == listers;
    ListersVote(replies, listers, key, v);
    m := EntryOfVotes(AllReports(replies), key, v);
    MajorityWins(ObservationsOf(AllReports(replies), key), v, threshold);
  }

  /** The agreed depth is at least `depth` exactly if every endpoint that lists the agreed value has it that deep. */
  lemma AgreedDepthIff(replies: seq<Reply>, m: nat, threshold: int, depth: nat)
    requires Readable(replies) && m < |EntriesOf(AllReports(replies))|
    requires Decide(EntriesOf(AllReports(replies))[m].observations, threshold).Agreed?
    ensures var e := EntriesOf(AllReports(replies))[m];
      var d := Decide(e.observations, threshold);
      d.confirmations >= depth <==> DeepReports(replies, e.key, d.value, depth)
  {
    hide EntriesOf, AllReports, ObservationsOf, Decide, Count, DeepReports;
    var e := EntriesOf(AllReports(replies))[m];
    var d := Decide(e.observations, threshold);
    AgreedVotes(replies, threshold, m);
    AgreedIff(e.observations, threshold);
    DeepReportsIff(replies, e.key, d.value, depth);
    var i :| 0 <= i < |e.observations| && e.observations[i] == Observation(d.value, d.confirmations);
    assert e.observations[i] in e.observations;
  }

  /**
   When a majority lists the payment of an active invoice, the endpoints agree on it exactly if all that list it
   have it deep enough: one endpoint with a shallow report holds the payment up.
   */
  lemma MajorityAgreesIff(cfg: Config, rows: seq<Invoice>, inputs: seq<ChainInput>, ci: nat, k: nat,
                          listers: set<nat>, key: string, v: int, inv: Invoice) returns (m: nat)
    requires FitsConfig(cfg, inputs) && IsHexAddress(cfg.address) && ci < |inputs| && k < |inputs[ci].replies|
    requires Reached(inputs[ci].replies, cfg.quorum, k) && Readable(inputs[ci].replies[k])
    requires Majority(inputs[ci].replies[k], listers, key, v, ThresholdAt(cfg, inputs, ci, k))
    requires inv in Candidates(cfg, rows, cfg.chains[ci], cfg.chains[ci].tokens[k], inputs[ci])
    requires inv.amount == Units(v)
    ensures m < |EntriesAt(inputs, ci, k)| && EntriesAt(inputs, ci, k)[m].key == key
    ensures AgreedFor(cfg, rows, inputs, ci, k, m, inv)
            <==> DeepReports(inputs[ci].replies[k], key, v, cfg.chains[ci].minConfirmations)
  {
    hide EntriesOf, AllReports, Readable, Reached, Responded, Decide, Majority, DeepReports, Candidates, IsHexAddress;
    m := MajorityVotes(inputs[ci].replies[k], listers, key, v, ThresholdAt(cfg, inputs, ci, k));
    AgreedDepthIff(inputs[ci].replies[k], m, ThresholdAt(cfg, inputs, ci, k), cfg.chains[ci].minConfirmations);
  }

  /** All endpoints together are a majority that reaches the threshold, whatever the quorum. */
  lemma AllAreMajority(replies: seq<Reply>, key: string, v: int, quorum: int) returns (listers: set<nat>)
    requires Readable(replies) && replies != [] && AllList(replies, key, v)
    ensures Majority(replies, listers, key, v, Threshold(|replies|, quorum))
  {
    hide ListsValue, ListsOnce, Readable, AllReports, ObservationsOf, Threshold;
    ThresholdIs(|replies|, quorum);
    assert forall i | 0 <= i < |replies| && replies[i].Some? :: ListsOnce(replies[i].value.logs);
    OneReportEach(replies, key);
    listers := Sets.Upto(|replies|);
  }

  /**
   One malformed log of one endpoint ends the scan of the chain: this token and all after it change nothing in
   this poll, whatever the other endpoints answer.
   */
  lemma MalformedLogAborts(st: State, c: ChainConfig, active: seq<Invoice>, replies: seq<seq<Reply>>, quorum: int,
                           k: nat, n: nat, i: nat, j: nat)
    requires k < n <= |c.tokens| == |replies| && Reached(replies, quorum, k)
    requires Responded(replies[k]) >= Threshold(|replies[k]|, quorum) && i < |replies[k]| && replies[k][i].Some?
    requires j < |replies[k][i].value.logs| && !WellFormed(replies[k][i].value.logs[j])
    ensures ScanTokens(st, c, active, replies, quorum, n) == (ScanTokens(st, c, active, replies, quorum, k).0, Threw)
  {
    hide HandleAll, EntriesOf, AllReports, ForToken, Responded, Threshold, Reached;
    ReachedIff(st, c, active, replies, quorum, k);
    assert !ReadableScan(replies[k][i].value.logs);
    var before := ScanTokens(st, c, active, replies, quorum, k);
    assert ScanTokens(st, c, active, replies, quorum, k + 1) == (before.0, Threw);
    ThrewStays(st, c, active, replies, quorum, k + 1, n);
  }

  // ---------------------------------------------------------------- over whole runs

  /** The step is a poll that settles this key of chain `ci`. */
  ghost predicate Settles(cfg: Config, s: System, step: Step, ci: nat, key: string) {
    step.PollAll? && FitsConfig(cfg, step.inputs) && ci < |step.inputs| && IsHexAddress(cfg.address)
    && DecidesKey(cfg, s.st.rows, step.inputs, ci, key)
  }

  /** A key is seen exactly when an earlier poll of the run settled it. */
  lemma {:induction false} SeenIffSettled(cfg: Config, states: seq<System>, steps: seq<Step>, i: nat, ci: nat,
                                          key: string)
    requires Run(cfg, states, steps) && i < |states| && ci < |cfg.chains|
    ensures key in SeenFor(states[i].st.seen, cfg.chains[ci].chain) <==>
      exists j :: 0 <= j < i && Settles(cfg, states[j], steps[j], ci, key)
  {
    hide RowsInv, EventsInv, Create, OnWatchedChain, Poll, DecidesKey, GoodTokens, IsHexAddress;
    if i > 0 {
      SeenIffSettled(cfg, states, steps, i - 1, ci, key);
      RunKeepsInv(cfg, states, steps, i - 1);
      var s, s' := states[i - 1], states[i];
      match steps[i - 1]
      case PollAll(inputs) =>
        PollSettles(cfg, inputs, s, s', ci, key);
      case _ =>
    }
  }

  lemma PollSettles(cfg: Config, inputs: seq<ChainInput>, s: System, s': System, ci: nat,
                    key: string)
    requires GoodConfig(cfg) && Inv(cfg, s) && Next(cfg, s, PollAll(inputs), s') && ci < |cfg.chains|
    ensures key in SeenFor(s'.st.seen, cfg.chains[ci].chain) <==>
      || key in SeenFor(s.st.seen, cfg.chains[ci].chain)
      || Settles(cfg, s, PollAll(inputs), ci, key)
  {
    hide EventsInv, DistinctAmounts, PollChains, DecidesKey, GoodTokens, IsHexAddress;
    if IsHexAddress(cfg.address) {
      PollDecides(cfg, inputs, s.st, ci, key);
    }
  }

  /** An invoice listed for the token awaits exactly this value. */
  predicate Awaited(cfg: Config, rows: seq<Invoice>, inputs: seq<ChainInput>, ci: nat, k: nat, value: int)
    requires FitsConfig(cfg, inputs) && ci < |inputs| && k < |inputs[ci].replies|
  {
    exists inv :: inv in Candidates(cfg, rows, cfg.chains[ci], cfg.chains[ci].tokens[k], inputs[ci])
      && inv.amount == Units(value)
  }

  /** The poll scans the token and its endpoints agree on this log, deep enough or on a value nobody awaits. */
  predicate FinalVote(cfg: Config, rows: seq<Invoice>, inputs: seq<ChainInput>, ci: nat, k: nat, logKey: string) {
    && FitsConfig(cfg, inputs) && IsHexAddress(cfg.address) && ci < |inputs| && k < |inputs[ci].replies|
    && ScanCompletes(inputs[ci].replies, cfg.quorum, k)
    && exists m :: 0 <= m < |EntriesAt(inputs, ci, k)| && EntriesAt(inputs, ci, k)[m].key == logKey
         && FinalAt(cfg, rows, inputs, ci, k, m)
  }

  predicate FinalAt(cfg: Config, rows: seq<Invoice>, inputs: seq<ChainInput>, ci: nat, k: nat, m: nat)
    requires FitsConfig(cfg, inputs) && ci < |inputs| && k < |inputs[ci].replies| && Readable(inputs[ci].replies[k])
    requires m < |EntriesAt(inputs, ci, k)|
  {
    var d := DecisionAt(cfg, inputs, ci, k, m);
    d.Agreed? && (d.confirmations >= cfg.chains[ci].minConfirmations || !Awaited(cfg, rows, inputs, ci, k, d.value))
  }

  /** The verdict on a log is final exactly if the vote on it is. */
  lemma FinalVerdictIff(cfg: Config, s: System, inputs: seq<ChainInput>, ci: nat, k: nat, m: nat)
    requires Inv(cfg, s) && FitsConfig(cfg, inputs) && ci < |inputs| && k < |inputs[ci].replies|
    requires Readable(inputs[ci].replies[k]) && m < |EntriesAt(inputs, ci, k)| && s.now <= inputs[ci].listedAt
    ensures !VerdictAt(cfg, s.st.rows, inputs, ci, k, m).Wait? <==> FinalAt(cfg, s.st.rows, inputs, ci, k, m)
  {
    hide RowsInv, EventsInv, Candidates, Readable, EntriesOf, AllReports, Decide;
    var c, token := cfg.chains[ci], cfg.chains[ci].tokens[k];
    var candidates := Candidates(cfg, s.st.rows, c, token, inputs[ci]);
    SameList(cfg, s.st.rows, inputs, ci, k);
    var d := DecisionAt(cfg, inputs, ci, k, m);
    if d.Agreed? {
      FindByValueFinds(candidates, d.value);
      if Awaited(cfg, s.st.rows, inputs, ci, k, d.value) {
        var inv :| inv in candidates && inv.amount == Units(d.value);
        OneCandidate(cfg, s.st.rows, s.now, c, token, inputs[ci], inv, inv);
      }
    }
  }

  /** A poll settles a log exactly if its vote on that log is final. */
  lemma SettlesIff(cfg: Config, s: System, inputs: seq<ChainInput>, ci: nat, k: nat, logKey: string)
    requires GoodConfig(cfg) && Inv(cfg, s) && FitsConfig(cfg, inputs) && ci < |inputs| && k < |cfg.chains[ci].tokens|
    requires s.now <= inputs[ci].listedAt
    ensures Settles(cfg, s, PollAll(inputs), ci, SeenKey(cfg.chains[ci].tokens[k], logKey))
            <==> FinalVote(cfg, s.st.rows, inputs, ci, k, logKey)
  {
    hide EntriesOf, AllReports, Readable, Judge, ForToken, Listed, Reached, Responded, SeenKey, RowsInv, EventsInv,
         FinalAt, GoodTokens, IsHexAddress, Threshold;
    var c, key := cfg.chains[ci], SeenKey(cfg.chains[ci].tokens[k], logKey);
    var active := Listed(cfg, s.st.rows, inputs, ci);
    if Settles(cfg, s, PollAll(inputs), ci, key) {
      var j :| 0 <= j < |c.tokens| && Reached(inputs[ci].replies, cfg.quorum, j)
        && key in TokenKeys(c, j, active, inputs[ci].replies[j], cfg.quorum);
      var x := KeyBelongs(c, k, j, logKey, active, inputs[ci].replies[j], cfg.quorum);
      var m :| 0 <= m < |EntriesAt(inputs, ci, k)| && EntriesAt(inputs, ci, k)[m] == x;
      FinalVerdictIff(cfg, s, inputs, ci, k, m);
    }
    if FinalVote(cfg, s.st.rows, inputs, ci, k, logKey) {
      var m :| 0 <= m < |EntriesAt(inputs, ci, k)| && EntriesAt(inputs, ci, k)[m].key == logKey
        && FinalAt(cfg, s.st.rows, inputs, ci, k, m);
      FinalVerdictIff(cfg, s, inputs, ci, k, m);
      assert EntriesAt(inputs, ci, k)[m] in EntriesOf(AllReports(inputs[ci].replies[k]));
      assert key in TokenKeys(c, k, active, inputs[ci].replies[k], cfg.quorum);
    }
  }

  lemma ConfirmsForGood(cfg: Config, states: seq<System>, steps: seq<Step>, i: nat, ci: nat, k: nat, m: nat, r: nat)
    requires Run(cfg, states, steps) && i < |steps| && steps[i].PollAll? && r < |states[i].st.rows|
    requires AgreedFor(cfg, states[i].st.rows, steps[i].inputs, ci, k, m, states[i].st.rows[r])
    requires forall j | 0 <= j < i :: !Settles(cfg, states[j], steps[j], ci, KeyAt(cfg, steps[i].inputs, ci, k, m))
    ensures forall j | i < j < |states| :: r < |states[j].st.rows| && states[j].st.rows[r].status == Confirmed
  {
    hide RowsInv, EventsInv, Poll, Settles, AgreedFor, SeenFor, KeyAt, Readable;
    var key := KeyOf(cfg, states[i].st.rows, steps[i].inputs, ci, k, m, states[i].st.rows[r]);
    SeenIffSettled(cfg, states, steps, i, ci, key);
    RunKeepsInv(cfg, states, steps, i);
    PaymentConfirms(cfg, states[i], steps[i].inputs, states[i + 1].now, ci, k, m, r);
    forall j | i < j < |states| ensures r < |states[j].st.rows| && states[j].st.rows[r].status == Confirmed {
      SettledStays(cfg, states, steps, i + 1, j, r);
    }
  }

  /**
   Over every run, whatever the endpoints answer: the first poll that agrees on a log deep enough, while an
   invoice for its value is active, confirms that invoice for good. Earlier polls may have found the log
   conflicting, under-reported, or agreed but too shallow for an invoice that awaited it, any number of times.
   */
  lemma FirstAgreementConfirms(cfg: Config, states: seq<System>, steps: seq<Step>, i: nat, ci: nat, k: nat, m: nat,
                               r: nat)
    requires Run(cfg, states, steps) && i < |steps| && steps[i].PollAll? && r < |states[i].st.rows|
    requires AgreedFor(cfg, states[i].st.rows, steps[i].inputs, ci, k, m, states[i].st.rows[r])
    requires forall j | 0 <= j < i && steps[j].PollAll? ::
      !FinalVote(cfg, states[j].st.rows, steps[j].inputs, ci, k, EntriesAt(steps[i].inputs, ci, k)[m].key)
    ensures forall j | i < j < |states| :: r < |states[j].st.rows| && states[j].st.rows[r].status == Confirmed
  {
    hide RowsInv, EventsInv, Poll, Settles, SeenFor, Readable, FinalVote, AgreedFor, SeenKey, EntriesAt;
    var key := KeyOf(cfg, states[i].st.rows, steps[i].inputs, ci, k, m, states[i].st.rows[r]);
    var logKey := EntriesAt(steps[i].inputs, ci, k)[m].key;
    forall j | 0 <= j < i ensures !Settles(cfg, states[j], steps[j], ci, key) {
      NotSettledBefore(cfg, states, steps, j, ci, k, logKey);
    }
    ConfirmsForGood(cfg, states, steps, i, ci, k, m, r);
  }

  /**
   An honest majority gets the payment through: in the first poll with a final vote on the log, a majority lists
   it with the value an active invoice awaits, all deep enough, and no log up to its token is malformed.
   */
  lemma HonestMajorityConfirms(cfg: Config, states: seq<System>, steps: seq<Step>, i: nat, ci: nat, k: nat,
                               listers: set<nat>, key: string, v: int, r: nat)
    requires Run(cfg, states, steps) && i < |steps| && steps[i].PollAll? && r < |states[i].st.rows|
    requires IsHexAddress(cfg.address) && ci < |cfg.chains| && k < |cfg.chains[ci].tokens|
    requires FitsConfig(cfg, steps[i].inputs)
    requires forall j | 0 <= j <= k :: Readable(steps[i].inputs[ci].replies[j])
    requires Majority(steps[i].inputs[ci].replies[k], listers, key, v, ThresholdAt(cfg, steps[i].inputs, ci, k))
    requires DeepReports(steps[i].inputs[ci].replies[k], key, v, cfg.chains[ci].minConfirmations)
    requires states[i].st.rows[r].amount == Units(v)
    requires states[i].st.rows[r]
             in Candidates(cfg, states[i].st.rows, cfg.chains[ci], cfg.chains[ci].tokens[k], steps[i].inputs[ci])
    requires forall j | 0 <= j < i && steps[j].PollAll? ::
      !FinalVote(cfg, states[j].st.rows, steps[j].inputs, ci, k, key)
    ensures forall j | i < j < |states| :: r < |states[j].st.rows| && states[j].st.rows[r].status == Confirmed
  {
    hide Init, Next, AgreedFor, FinalVote, Candidates, Majority, DeepReports, Readable, EntriesAt, IsHexAddress;
    var m := MajorityAgreesIff(cfg, states[i].st.rows, steps[i].inputs, ci, k, listers, key, v, states[i].st.rows[r]);
    FirstAgreementConfirms(cfg, states, steps, i, ci, k, m, r);
  }

  /** What all of at least one endpoint list deep enough gets through, whatever the quorum. */
  lemma UnanimityConfirms(cfg: Config, states: seq<System>, steps: seq<Step>, i: nat, ci: nat, k: nat, key: string,
                          v: int, r: nat)
    requires Run(cfg, states, steps) && i < |steps| && steps[i].PollAll? && r < |states[i].st.rows|
    requires IsHexAddress(cfg.address) && ci < |cfg.chains| && k < |cfg.chains[ci].tokens|
    requires FitsConfig(cfg, steps[i].inputs)
    requires forall j | 0 <= j <= k :: Readable(steps[i].inputs[ci].replies[j])
    requires |steps[i].inputs[ci].replies[k]| >= 1 && AllList(steps[i].inputs[ci].replies[k], key, v)
    requires DeepReports(steps[i].inputs[ci].replies[k], key, v, cfg.chains[ci].minConfirmations)
    requires states[i].st.rows[r].amount == Units(v)
    requires states[i].st.rows[r]
             in Candidates(cfg, states[i].st.rows, cfg.chains[ci], cfg.chains[ci].tokens[k], steps[i].inputs[ci])
    requires forall j | 0 <= j < i && steps[j].PollAll? ::
      !FinalVote(cfg, states[j].st.rows, steps[j].inputs, ci, k, key)
    ensures ScanCompletes(steps[i].inputs[ci].replies, cfg.quorum, k)
    ensures forall j | i < j < |states| :: r < |states[j].st.rows| && states[j].st.rows[r].status == Confirmed
  {
    hide Init, Next, FinalVote, Candidates, Majority, DeepReports, Readable, AllList, IsHexAddress, Threshold,
         Responded, AllReports, EntriesOf;
    var replies := steps[i].inputs[ci].replies[k];
    var listers := AllAreMajority(replies, key, v, cfg.quorum);
    ThresholdIs(|replies|, cfg.quorum);
    var m := MajorityVotes(replies, listers, key, v, Threshold(|replies|, cfg.quorum));
    HonestMajorityConfirms(cfg, states, steps, i, ci, k, listers, key, v, r);
  }

  lemma NotSettledBefore(cfg: Config, states: seq<System>, steps: seq<Step>, j: nat, ci: nat, k: nat, logKey: string)
    requires Run(cfg, states, steps) && j < |steps| && ci < |cfg.chains| && k < |cfg.chains[ci].tokens|
    requires steps[j].PollAll? ==> !FinalVote(cfg, states[j].st.rows, steps[j].inputs, ci, k, logKey)
    ensures !Settles(cfg, states[j], steps[j], ci, SeenKey(cfg.chains[ci].tokens[k], logKey))
  {
    hide RowsInv, EventsInv, Poll, DecidesKey, FinalVote, SeenKey, IsHexAddress;
    RunKeepsInv(cfg, states, steps, j);
    assert Next(cfg, states[j], steps[j], states[j + 1]);
    if steps[j].PollAll? {
      SettlesIff(cfg, states[j], steps[j].inputs, ci, k, logKey);
    }
  }

  lemma KeyOf(cfg: Config, rows: seq<Invoice>, inputs: seq<ChainInput>, ci: nat, k: nat, m: nat,
              inv: Invoice) returns (key: string)
    requires AgreedFor(cfg, rows, inputs, ci, k, m, inv)
    ensures ci < |cfg.chains| && k < |cfg.chains[ci].tokens| && FitsConfig(cfg, inputs)
    ensures Readable(inputs[ci].replies[k])
    ensures m < |EntriesAt(inputs, ci, k)| && key == KeyAt(cfg, inputs, ci, k, m)
  {
    key := KeyAt(cfg, inputs, ci, k, m);
  }
}
