/**
 One endpoint, two votes: the watcher counts a report per listed log, so an endpoint that lists a forged log
 twice reaches a quorum of two alone. Everything else the confirmations rely on holds here: the other
 endpoint tells the truth, and fewer endpoints than the threshold lie.
 */
module Forgery {
  import opened Results
  import opened Quorum
  import opened Invoices
  import opened InvoiceCore
  import opened Watcher
  import opened Votes
  import opened Protocol
  import opened Payments
  import opened Settlement

  /** Endpoint 0 lists the log twice, endpoint 1 answers truthfully that there is nothing. */
  function ForgedReplies(lg: RpcLog, latest: int): seq<Reply> {
    [Some(Scan(latest, [lg, lg])), Some(Scan(0, []))]
  }

  const EMPTY_CHAIN := Ledger(0, {})

  lemma OnlyOneLies(lg: RpcLog, latest: int)
    ensures var replies := ForgedReplies(lg, latest);
      |{0}| < Threshold(|replies|, 2) && Consistent(replies, {0}, EMPTY_CHAIN) && HexIds(EMPTY_CHAIN)
  {
  }

  lemma RepeatedLog(lg: RpcLog, latest: int)
    requires WellFormed(lg)
    ensures LogReports(latest, [lg, lg]) == [ReportOf(latest, lg), ReportOf(latest, lg)]
  {
    hide ReportOf;
    assert [lg, lg][..1] == [lg] && [lg][..0] == [];
    assert LogReports(latest, []) == [];
    assert LogReports(latest, [lg]) == [] + [ReportOf(latest, lg)];
    assert LogReports(latest, [lg, lg]) == [ReportOf(latest, lg)] + [ReportOf(latest, lg)];
  }

  lemma TwoReplies(a: Reply, b: Reply)
    requires a.Some? && b.Some? && ReadableScan(a.value.logs) && ReadableScan(b.value.logs)
    ensures Readable([a, b]) && Responded([a, b]) == 2 && AllReports([a, b]) == ReplyReports(a) + ReplyReports(b)
  {
    hide ReplyReports, ReadableScan;
    assert [a, b][..1] == [a] && [a][..0] == [];
    assert Responded([]) == 0 && AllReports([]) == [];
    assert Responded([a]) == 1 && AllReports([a]) == [] + ReplyReports(a);
  }

  lemma ForgedReports(lg: RpcLog, latest: int)
    requires WellFormed(lg)
    ensures var replies, r := ForgedReplies(lg, latest), ReportOf(latest, lg);
      Readable(replies) && Responded(replies) == 2 && AllReports(replies) == [r, r]
  {
    hide AllReports, Responded, ReportOf;
    var replies, r := ForgedReplies(lg, latest), ReportOf(latest, lg);
    RepeatedLog(lg, latest);
    TwoReplies(replies[0], replies[1]);
    assert ReplyReports(replies[1]) == [];
    assert [r, r] + [] == [r, r];
  }

  lemma ForgedEntry(r: Report)
    ensures EntriesOf([r, r]) == [Entry(r.key, r.txHash, [r.obs, r.obs])]
  {
    assert [r, r][..1] == [r] && [r][..0] == [];
    var once := Entry(r.key, r.txHash, [r.obs]);
    assert EntriesOf([r]) == [once] && FindEntry([once], r.key) == 0;
    assert [r.obs] + [r.obs] == [r.obs, r.obs];
  }

  lemma TwoAgree(o: Observation)
    ensures Decide([o, o], 2) == Agreed(o.value, o.confirmations, 2)
  {
    assert [o, o][..1] == [o] && [o][..0] == [];
    assert Count([o], o.value) == 1 && Count([o, o], o.value) == 2;
    TopUnique([o, o], 0);
    DepthIsMinimum([o, o], o.value);
  }

  /** The vote the watcher sees. */
  lemma ForgedVote(lg: RpcLog, latest: int)
    requires WellFormed(lg)
    ensures var replies, o := ForgedReplies(lg, latest), ReportOf(latest, lg).obs;
      && Readable(replies) && Responded(replies) >= Threshold(|replies|, 2)
      && EntriesOf(AllReports(replies)) == [Entry(LogKey(lg), lg.txHash, [o, o])]
      && Decide([o, o], Threshold(|replies|, 2)) == Agreed(lg.data.n, o.confirmations, 2)
  {
    hide EntriesOf, AllReports, Decide, Responded;
    ForgedReports(lg, latest);
    ForgedEntry(ReportOf(latest, lg));
    TwoAgree(ReportOf(latest, lg).obs);
  }

  /**
   In every state the invariants allow, such replies confirm an active invoice of the forged amount although
   nothing was paid.
   */
  lemma RepeatedLogConfirms(cfg: Config, s: System, inputs: seq<ChainInput>, until: int, ci: nat, k: nat, r: nat,
                            lg: RpcLog, latest: int)
    requires GoodConfig(cfg) && Inv(cfg, s) && FitsConfig(cfg, inputs) && Clocked(inputs, s.now, until)
    requires IsHexAddress(cfg.address) && cfg.quorum == 2 && ci < |inputs| && k < |inputs[ci].replies|
    requires WellFormed(lg) && inputs[ci].replies[k] == ForgedReplies(lg, latest)
    requires Reached(inputs[ci].replies, cfg.quorum, k) && r < |s.st.rows|
    requires s.st.rows[r] in Candidates(cfg, s.st.rows, cfg.chains[ci], cfg.chains[ci].tokens[k], inputs[ci])
    requires s.st.rows[r].amount == Units(lg.data.n)
    requires ReportOf(latest, lg).obs.confirmations >= cfg.chains[ci].minConfirmations
    requires SeenKey(cfg.chains[ci].tokens[k], LogKey(lg)) !in SeenFor(s.st.seen, cfg.chains[ci].chain)
    ensures r < |Poll(s.st, cfg, inputs).rows| && Poll(s.st, cfg, inputs).rows[r].status == Confirmed
  {
    hide Inv, Poll, Candidates, EntriesOf, AllReports, Decide, Responded, Readable, Reached, SeenKey, SeenFor,
         IsHexAddress, GoodTokens, ForgedReplies;
    ForgedVote(lg, latest);
    PaymentConfirms(cfg, s, inputs, until, ci, k, 0, r);
  }

  // ---------------------------------------------------------------- a run in which it happens

  const ADDRESS: string := "0x" + seq(40, _ => '0')
  const USDC := Token("USDC", "token")
  const SETUP := Config(ADDRESS, [ChainConfig("base", [USDC], 1)], 2)
  const INVOICE := Invoice("inv", "base", "USDC", Units(10001), ADDRESS, None, Pending, 100, None)
  const FORGED := RpcLog("tx", "0x0", Number(1), Number(10001))

  function OnePoll(): seq<ChainInput> {
    [ChainInput(0, _ => 0, _ => 0, [ForgedReplies(FORGED, 1)])]
  }

  lemma StartIsGood()
    ensures GoodConfig(SETUP) && IsHexAddress(ADDRESS) && Init(SETUP, System(State([INVOICE], [], map[]), 0))
    ensures Inv(SETUP, System(State([INVOICE], [], map[]), 0))
  {
    assert forall i | 2 <= i < 42 :: ADDRESS[i] == '0';
  }

  lemma InvoiceIsListed()
    ensures INVOICE in Candidates(SETUP, [INVOICE], SETUP.chains[0], USDC, OnePoll()[0])
  {
    hide Candidates, ForgedReplies;
    CandidateMember(SETUP, [INVOICE], SETUP.chains[0], USDC, OnePoll()[0]);
    assert Upper("USDC") == "USDC";
    assert INVOICE in [INVOICE];
  }

  const TRUTH := [[TokenTruth(EMPTY_CHAIN, {0})]]

  lemma NobodyPaid(inv: Invoice, txHash: Option<string>)
    ensures !Paid(SETUP, OnePoll(), TRUTH, inv, txHash)
  {
  }

  /**
   A single hostile endpoint confirms an unpaid invoice in a run of the protocol. The other endpoint tells the
   truth, fewer endpoints than the threshold are faulty, and the chain holds no payment at all.
   */
  lemma OneLiarConfirms() returns (states: seq<System>, steps: seq<Step>)
    ensures Run(SETUP, states, steps) && |steps| == 1 && steps[0] == PollAll(OnePoll())
    ensures |states[0].st.rows| == |states[1].st.rows| == 1
    ensures states[0].st.rows[0].status == Pending && states[1].st.rows[0].status == Confirmed
    ensures |OnePoll()| == 1 && |OnePoll()[0].replies| == 1
    ensures var replies := OnePoll()[0].replies[0];
      |{0}| < Threshold(|replies|, SETUP.quorum) && Consistent(replies, {0}, EMPTY_CHAIN) && HexIds(EMPTY_CHAIN)
    ensures !Paid(SETUP, OnePoll(), TRUTH, states[0].st.rows[0], states[1].st.rows[0].txHash)
  {
    hide Poll, Init, Inv, GoodConfig, Candidates, ForgedReplies, ReportOf, Paid, Consistent;
    OnlyOneLies(FORGED, 1);
    var s := System(State([INVOICE], [], map[]), 0);
    states, steps := [s, System(Poll(s.st, SETUP, OnePoll()), 0)], [PollAll(OnePoll())];
    StartIsGood();
    InvoiceIsListed();
    DeepEnough();
    RepeatedLogConfirms(SETUP, s, OnePoll(), 0, 0, 0, 0, FORGED, 1);
    PollSteps(SETUP, s, OnePoll(), states[1]);
    NobodyPaid(states[0].st.rows[0], states[1].st.rows[0].txHash);
  }

  lemma DeepEnough()
    ensures ReportOf(1, FORGED).obs.confirmations == 1
  {
  }

  lemma PollSteps(cfg: Config, s: System, inputs: seq<ChainInput>, s': System)
    requires Inv(cfg, s) && FitsConfig(cfg, inputs) && Clocked(inputs, s.now, s'.now)
    requires s'.st == Poll(s.st, cfg, inputs)
    ensures Next(cfg, s, PollAll(inputs), s') && |s'.st.rows| == |s.st.rows|
  {
    hide Poll, RowsInv, EventsInv, Justified, Voted;
    PollKeepsInv(cfg, inputs, s, s');
  }
}
