/**
 What a quorum of endpoints is worth. Every log an endpoint lists is a vote, and an endpoint that repeats a
 log votes repeatedly. If no value the faulty endpoints report reaches the threshold by their reports alone,
 an agreed transfer is on the chain, with that value, and at least that deep.
 */
module Votes {
  import opened Results
  import Sets
  import opened Strings
  import opened Quorum
  import opened Watcher

  /** A Transfer event of one token contract to the watched address, as the chain really holds it. */
  datatype Transfer = Transfer(txHash: string, logIndex: string, block: int, value: int)
  datatype Ledger = Ledger(head: int, transfers: set<Transfer>)

  function TransferKey(t: Transfer): string {
    Key(t.txHash, t.logIndex)
  }

  function DepthOn(ledger: Ledger, t: Transfer): nat {
    if ledger.head >= t.block then ledger.head - t.block + 1 else 0
  }

  function TransferOf(lg: RpcLog): Transfer
    requires WellFormed(lg)
  {
    Transfer(lg.txHash, lg.logIndex, lg.block.n, lg.data.n)
  }

  predicate OnLedger(lg: RpcLog, ledger: Ledger) {
    WellFormed(lg) && TransferOf(lg) in ledger.transfers
  }

  /**
   What an endpoint reports of a log: its own value, and a depth of at least `d` exactly if its head is `d - 1`
   blocks or more past the block of the log. The depth of a transfer on a chain is the same.
   */
  lemma ReportedDepth(latest: int, lg: RpcLog, ledger: Ledger, d: nat)
    requires WellFormed(lg) && d > 0
    ensures var r := ReportOf(latest, lg);
      && r.key == lg.txHash + ":" + lg.logIndex && r.txHash == lg.txHash && r.obs.value == lg.data.n
      && (r.obs.confirmations >= d <==> latest >= lg.block.n + d - 1)
    ensures DepthOn(ledger, TransferOf(lg)) >= d <==> ledger.head >= lg.block.n + d - 1
  {
  }

  /** An honest endpoint may lag behind and may miss logs, but invents nothing. */
  predicate Truthful(scan: Scan, ledger: Ledger) {
    scan.latest <= ledger.head && forall j | 0 <= j < |scan.logs| :: OnLedger(scan.logs[j], ledger)
  }

  predicate ListsOnce(logs: seq<RpcLog>) {
    forall i, j | 0 <= i < j < |logs| :: LogKey(logs[i]) != LogKey(logs[j])
  }

  /** Transaction hashes and log indices are hexadecimal, so they contain no separator. */
  predicate HexIds(ledger: Ledger) {
    forall t | t in ledger.transfers :: ':' !in t.txHash && ':' !in t.logIndex
  }

  // ---------------------------------------------------------------- entries and observations

  function ObservationsOf(reports: seq<Report>, key: string): seq<Observation> {
    if reports == [] then []
    else
      ObservationsOf(reports[..|reports| - 1], key)
      + if reports[|reports| - 1].key == key then [reports[|reports| - 1].obs] else []
  }

  predicate HasReport(reports: seq<Report>, key: string, txHash: string) {
    exists i :: 0 <= i < |reports| && reports[i].key == key && reports[i].txHash == txHash
  }

  predicate EntryFits(reports: seq<Report>, e: Entry) {
    e.observations == ObservationsOf(reports, e.key) && HasReport(reports, e.key, e.txHash)
  }

  ghost predicate DistinctKeys(entries: seq<Entry>) {
    forall i, j | 0 <= i < j < |entries| :: entries[i].key != entries[j].key
  }

  lemma {:induction false} NoObservations(reports: seq<Report>, key: string)
    requires forall i | 0 <= i < |reports| :: reports[i].key != key
    ensures ObservationsOf(reports, key) == []
  {
    if reports != [] {
      NoObservations(reports[..|reports| - 1], key);
    }
  }

  lemma EntryStep(reports: seq<Report>, r: Report, e: Entry)
    requires EntryFits(reports, e)
    ensures e.key != r.key ==> EntryFits(reports + [r], e)
    ensures e.key == r.key ==> EntryFits(reports + [r], e.(observations := e.observations + [r.obs]))
  {
    var next := reports + [r];
    assert next[..|next| - 1] == reports;
    var i :| 0 <= i < |reports| && reports[i].key == e.key && reports[i].txHash == e.txHash;
    assert next[i].key == e.key && next[i].txHash == e.txHash;
  }

  lemma NewEntry(reports: seq<Report>, r: Report)
    requires forall i | 0 <= i < |reports| :: reports[i].key != r.key
    ensures EntryFits(reports + [r], Entry(r.key, r.txHash, [r.obs]))
  {
    var next := reports + [r];
    assert next[..|next| - 1] == reports;
    NoObservations(reports, r.key);
    assert next[|reports|].key == r.key && next[|reports|].txHash == r.txHash;
  }

  /** Grouping by key: one entry per key, holding exactly the observations reported under it. */
  lemma {:induction false} EntriesFit(reports: seq<Report>)
    ensures var es := EntriesOf(reports);
      && DistinctKeys(es)
      && (forall k | 0 <= k < |es| :: EntryFits(reports, es[k]))
      && (forall i | 0 <= i < |reports| :: FindEntry(es, reports[i].key) >= 0)
  {
    hide AddEntry, FindEntry, EntryFits;
    if reports != [] {
      var n := |reports| - 1;
      var before, r := reports[..n], reports[n];
      EntriesFit(before);
      assert reports == before + [r];
      AddEntryFits(before, r, EntriesOf(before));
    }
  }

  lemma AddEntryFits(before: seq<Report>, r: Report, es: seq<Entry>)
    requires DistinctKeys(es)
    requires forall k | 0 <= k < |es| :: EntryFits(before, es[k])
    requires forall i | 0 <= i < |before| :: FindEntry(es, before[i].key) >= 0
    ensures var next := AddEntry(es, r);
      && DistinctKeys(next)
      && (forall k | 0 <= k < |next| :: EntryFits(before + [r], next[k]))
      && (forall i | 0 <= i <= |before| :: FindEntry(next, (before + [r])[i].key) >= 0)
  {
    hide ObservationsOf, HasReport, EntryFits;
    var next, m := AddEntry(es, r), FindEntry(es, r.key);
    forall k | 0 <= k < |es| ensures EntryFits(before + [r], next[k]) && next[k].key == es[k].key {
      EntryStep(before, r, es[k]);
    }
    if m == -1 {
      NewEntry(before, r);
    }
    forall i | 0 <= i <= |before| ensures FindEntry(next, (before + [r])[i].key) >= 0 {
      var k := if i < |before| then FindEntry(es, before[i].key) else if m == -1 then |es| else m;
      assert next[k].key == (before + [r])[i].key;
    }
  }

  lemma {:induction false} ObservationsConcat(a: seq<Report>, b: seq<Report>, key: string)
    ensures ObservationsOf(a + b, key) == ObservationsOf(a, key) + ObservationsOf(b, key)
  {
    if b == [] {
      assert a + b == a;
    } else {
      var n := |b| - 1;
      assert (a + b)[..|a + b| - 1] == a + b[..n];
      ObservationsConcat(a, b[..n], key);
    }
  }

  // ---------------------------------------------------------------- who reported a value

  /** Everything the endpoints in `faulty` reported, repetitions included. */
  function FaultyReports(replies: seq<Reply>, faulty: set<nat>): seq<Report>
    requires Readable(replies)
  {
    if replies == [] then []
    else
      var n := |replies| - 1;
      FaultyReports(replies[..n], faulty) + if n in faulty then ReplyReports(replies[n]) else []
  }

  function Votes(replies: seq<Reply>, key: string, v: int): nat
    requires Readable(replies)
  {
    Count(ObservationsOf(AllReports(replies), key), v)
  }

  function FaultyVotes(replies: seq<Reply>, faulty: set<nat>, key: string, v: int): nat
    requires Readable(replies)
  {
    Count(ObservationsOf(FaultyReports(replies, faulty), key), v)
  }

  ghost predicate Lists(scan: Scan, key: string, o: Observation, j: nat) {
    && j < |scan.logs| && WellFormed(scan.logs[j])
    && LogKey(scan.logs[j]) == key && ReportOf(scan.latest, scan.logs[j]).obs == o
  }

  lemma VotesStep(replies: seq<Reply>, faulty: set<nat>, key: string, v: int)
    requires Readable(replies) && replies != []
    ensures var n := |replies| - 1;
      var mine := Count(ObservationsOf(ReplyReports(replies[n]), key), v);
      && Votes(replies, key, v) == Votes(replies[..n], key, v) + mine
      && FaultyVotes(replies, faulty, key, v)
         == FaultyVotes(replies[..n], faulty, key, v) + (if n in faulty then mine else 0)
  {
    hide LogReports;
    var n := |replies| - 1;
    var last := ReplyReports(replies[n]);
    ObservationsConcat(AllReports(replies[..n]), last, key);
    CountConcat(ObservationsOf(AllReports(replies[..n]), key), ObservationsOf(last, key), v);
    if n in faulty {
      ObservationsConcat(FaultyReports(replies[..n], faulty), last, key);
      CountConcat(ObservationsOf(FaultyReports(replies[..n], faulty), key), ObservationsOf(last, key), v);
    } else {
      assert FaultyReports(replies, faulty) == FaultyReports(replies[..n], faulty);
    }
  }

  lemma {:induction false} LogVote(latest: int, logs: seq<RpcLog>, key: string, v: int) returns (j: nat, o: Observation)
    requires ReadableScan(logs) && Count(ObservationsOf(LogReports(latest, logs), key), v) > 0
    ensures o.value == v && Lists(Scan(latest, logs), key, o, j)
    ensures o in ObservationsOf(LogReports(latest, logs), key)
  {
    var n := |logs| - 1;
    var reports := LogReports(latest, logs);
    assert reports[..|reports| - 1] == LogReports(latest, logs[..n]);
    var before, mine := ObservationsOf(LogReports(latest, logs[..n]), key), ReportOf(latest, logs[n]);
    if mine.key == key && mine.obs.value == v {
      j, o := n, mine.obs;
    } else {
      CountConcat(before, [mine.obs], v);
      assert [mine.obs][..0] == [] && Count([], v) == 0;
      assert ObservationsOf(reports, key) == before + if mine.key == key then [mine.obs] else [];
      assert mine.key != key ==> before + [] == before;
      j, o := LogVote(latest, logs[..n], key, v);
    }
  }

  /** More reports of a value than the faulty endpoints made: some other endpoint reports it. */
  lemma {:induction false} SomeHonestVote(replies: seq<Reply>, faulty: set<nat>, key: string, v: int)
    returns (i: nat, j: nat, o: Observation)
    requires Readable(replies) && Votes(replies, key, v) > FaultyVotes(replies, faulty, key, v)
    ensures i < |replies| && i !in faulty && replies[i].Some? && o.value == v
    ensures Lists(replies[i].value, key, o, j) && o in ObservationsOf(AllReports(replies), key)
  {
    hide Lists, LogReports, Votes, FaultyVotes;
    NoVotes(key, v);
    var n := |replies| - 1;
    VotesStep(replies, faulty, key, v);
    ObservationsConcat(AllReports(replies[..n]), ReplyReports(replies[n]), key);
    NoVotes(key, v);
    if n !in faulty && Count(ObservationsOf(ReplyReports(replies[n]), key), v) > 0 {
      i := n;
      j, o := LogVote(replies[n].value.latest, replies[n].value.logs, key, v);
      assert replies[n].value == Scan(replies[n].value.latest, replies[n].value.logs);
    } else {
      i, j, o := SomeHonestVote(replies[..n], faulty, key, v);
    }
  }

  lemma NoVotes(key: string, v: int)
    ensures Votes([], key, v) == 0 && Count(ObservationsOf([], key), v) == 0
  {
  }

  lemma {:induction false} FaultyAmongAll(replies: seq<Reply>, faulty: set<nat>, key: string, v: int)
    requires Readable(replies)
    ensures FaultyVotes(replies, faulty, key, v) <= Votes(replies, key, v)
  {
    hide ReplyReports;
    if replies != [] {
      VotesStep(replies, faulty, key, v);
      FaultyAmongAll(replies[..|replies| - 1], faulty, key, v);
    }
  }

  lemma {:induction false} LoggedCounts(latest: int, logs: seq<RpcLog>, key: string, j: nat)
    requires ReadableScan(logs) && j < |logs| && LogKey(logs[j]) == key
    ensures Count(ObservationsOf(LogReports(latest, logs), key), logs[j].data.n) > 0
  {
    var n, v := |logs| - 1, logs[j].data.n;
    var reports := LogReports(latest, logs);
    var before, mine := ObservationsOf(LogReports(latest, logs[..n]), key), ReportOf(latest, logs[n]);
    assert reports[..|reports| - 1] == LogReports(latest, logs[..n]);
    assert ObservationsOf(reports, key) == before + if mine.key == key then [mine.obs] else [];
    CountConcat(before, [mine.obs], v);
    assert [mine.obs][..0] == [] && Count([], v) == 0;
    assert before + [] == before;
    if j < n {
      LoggedCounts(latest, logs[..n], key, j);
    }
  }

  /** A report by an endpoint outside `faulty` makes the difference. */
  lemma {:induction false} HonestVoteCounts(replies: seq<Reply>, faulty: set<nat>, key: string, i: nat, j: nat)
    requires Readable(replies) && i < |replies| && i !in faulty && replies[i].Some?
    requires j < |replies[i].value.logs| && LogKey(replies[i].value.logs[j]) == key
    ensures var v := replies[i].value.logs[j].data.n;
      Votes(replies, key, v) > FaultyVotes(replies, faulty, key, v)
  {
    hide Votes, FaultyVotes;
    var n, v := |replies| - 1, replies[i].value.logs[j].data.n;
    VotesStep(replies, faulty, key, v);
    if i < n {
      HonestVoteCounts(replies[..n], faulty, key, i, j);
    } else {
      FaultyAmongAll(replies[..n], faulty, key, v);
      LoggedCounts(replies[n].value.latest, replies[n].value.logs, key, j);
    }
  }

  // ---------------------------------------------------------------- how many votes the faulty endpoints may cast

  /** Nothing the faulty endpoints reported reaches the threshold without help. */
  ghost predicate FewFaultyVotes(replies: seq<Reply>, faulty: set<nat>, threshold: int)
    requires Readable(replies)
  {
    forall key, v :: FaultyVotes(replies, faulty, key, v) < threshold
  }

  /** Every endpoint outside `faulty` tells the truth. */
  ghost predicate Consistent(replies: seq<Reply>, faulty: set<nat>, ledger: Ledger) {
    forall i | 0 <= i < |replies| && i !in faulty && replies[i].Some? :: Truthful(replies[i].value, ledger)
  }

  /** What the confirmations of one token rely on. */
  ghost predicate HonestQuorum(replies: seq<Reply>, faulty: set<nat>, ledger: Ledger, quorum: int) {
    && HexIds(ledger) && Consistent(replies, faulty, ledger)
    && (Readable(replies) ==> FewFaultyVotes(replies, faulty, Threshold(|replies|, quorum)))
  }

  lemma {:induction false} OneVote(latest: int, logs: seq<RpcLog>, key: string)
    requires ReadableScan(logs) && ListsOnce(logs)
    ensures |ObservationsOf(LogReports(latest, logs), key)| <= 1
  {
    if logs != [] {
      var n := |logs| - 1;
      OneVote(latest, logs[..n], key);
      var reports := LogReports(latest, logs);
      assert reports[..|reports| - 1] == LogReports(latest, logs[..n]);
      if LogKey(logs[n]) == key {
        KeyNotBefore(latest, logs[..n], key);
        NoObservations(LogReports(latest, logs[..n]), key);
      }
    }
  }

  lemma {:induction false} KeyNotBefore(latest: int, logs: seq<RpcLog>, key: string)
    requires ReadableScan(logs) && forall i | 0 <= i < |logs| :: LogKey(logs[i]) != key
    ensures forall i | 0 <= i < |LogReports(latest, logs)| :: LogReports(latest, logs)[i].key != key
  {
    if logs != [] {
      KeyNotBefore(latest, logs[..|logs| - 1], key);
    }
  }

  function Below(faulty: set<nat>, n: nat): set<nat> {
    set i | i in faulty && i < n
  }

  lemma BelowStep(faulty: set<nat>, n: nat)
    ensures |Below(faulty, n + 1)| == |Below(faulty, n)| + if n in faulty then 1 else 0
  {
    if n in faulty {
      assert Below(faulty, n + 1) == Below(faulty, n) + {n};
    } else {
      assert Below(faulty, n + 1) == Below(faulty, n);
    }
  }

  ghost predicate FaultyListOnce(replies: seq<Reply>, faulty: set<nat>) {
    forall i | 0 <= i < |replies| && i in faulty && replies[i].Some? :: ListsOnce(replies[i].value.logs)
  }

  lemma {:induction false} OneVoteEach(replies: seq<Reply>, faulty: set<nat>, key: string, v: int)
    requires Readable(replies) && FaultyListOnce(replies, faulty)
    ensures FaultyVotes(replies, faulty, key, v) <= |Below(faulty, |replies|)|
  {
    hide FaultyVotes, Votes, LogReports;
    NoVotes(key, v);
    if replies == [] {
      FaultyAmongAll(replies, faulty, key, v);
    } else {
      var n := |replies| - 1;
      OneVoteEach(replies[..n], faulty, key, v);
      VotesStep(replies, faulty, key, v);
      BelowStep(faulty, n);
      if n in faulty && replies[n].Some? {
        OneVote(replies[n].value.latest, replies[n].value.logs, key);
      }
    }
  }

  /** If no faulty endpoint repeats a log, it is enough that fewer endpoints than the threshold are faulty. */
  lemma FewFaultyEndpoints(replies: seq<Reply>, faulty: set<nat>, threshold: int)
    requires Readable(replies) && FaultyListOnce(replies, faulty) && |faulty| < threshold
    ensures FewFaultyVotes(replies, faulty, threshold)
  {
    hide FaultyVotes;
    Sets.SubsetSize(Below(faulty, |replies|), faulty);
    forall key, v ensures FaultyVotes(replies, faulty, key, v) < threshold {
      OneVoteEach(replies, faulty, key, v);
    }
  }

  // ---------------------------------------------------------------- who lists a value

  predicate HasValue(lg: RpcLog, key: string, v: int) {
    LogKey(lg) == key && lg.data == Number(v)
  }

  /** The endpoint answers and lists the log with this value. */
  predicate ListsValue(reply: Reply, key: string, v: int) {
    reply.Some? && exists j :: 0 <= j < |reply.value.logs| && HasValue(reply.value.logs[j], key, v)
  }

  /** Whoever lists the value answers and adds a vote for it. */
  lemma {:induction false} ListersVote(replies: seq<Reply>, listers: set<nat>, key: string, v: int)
    requires Readable(replies) && forall i | 0 <= i < |replies| && i in listers :: ListsValue(replies[i], key, v)
    ensures |Below(listers, |replies|)| <= Votes(replies, key, v)
    ensures |Below(listers, |replies|)| <= Responded(replies)
  {
    hide Votes, FaultyVotes, LogReports;
    if replies == [] {
      assert Below(listers, 0) == {};
    } else {
      var n := |replies| - 1;
      ListersVote(replies[..n], listers, key, v);
      VotesStep(replies, {}, key, v);
      BelowStep(listers, n);
      if n in listers {
        var j :| 0 <= j < |replies[n].value.logs| && HasValue(replies[n].value.logs[j], key, v);
        LoggedCounts(replies[n].value.latest, replies[n].value.logs, key, j);
      }
    }
  }

  /** The count of answers is the number of endpoints that answered. */
  lemma {:induction false} RespondedCounts(replies: seq<Reply>)
    ensures Responded(replies) == |set i | 0 <= i < |replies| && replies[i].Some?|
  {
    var n := |replies| - 1;
    if replies != [] {
      RespondedCounts(replies[..n]);
      var before := set i | 0 <= i < |replies[..n]| && replies[..n][i].Some?;
      var all := set i | 0 <= i < |replies| && replies[i].Some?;
      assert all == before + if replies[n].Some? then {n} else {};
    }
  }

  /** Every endpoint that lists the log with this value has a head this many blocks deep above it. */
  predicate DeepReports(replies: seq<Reply>, key: string, v: int, depth: nat)
    requires Readable(replies)
  {
    forall i, j | 0 <= i < |replies| && replies[i].Some? && 0 <= j < |replies[i].value.logs|
                  && HasValue(replies[i].value.logs[j], key, v) ::
      depth > 0 ==> replies[i].value.latest >= replies[i].value.logs[j].block.n + depth - 1
  }

  lemma {:induction false} ObservedReport(reports: seq<Report>, key: string, o: Observation)
    ensures o in ObservationsOf(reports, key) <==>
      exists m :: 0 <= m < |reports| && reports[m].key == key && reports[m].obs == o
  {
    if reports != [] {
      ObservedReport(reports[..|reports| - 1], key, o);
    }
  }

  lemma {:induction false} LogReportsAt(latest: int, logs: seq<RpcLog>)
    requires ReadableScan(logs)
    ensures |LogReports(latest, logs)| == |logs|
    ensures forall j | 0 <= j < |logs| :: LogReports(latest, logs)[j] == ReportOf(latest, logs[j])
  {
    hide ReportOf;
    if logs != [] {
      LogReportsAt(latest, logs[..|logs| - 1]);
    }
  }

  /** The reports are exactly those of the listed logs. */
  lemma {:induction false} ReportedLog(replies: seq<Reply>, r: Report)
    requires Readable(replies)
    ensures r in AllReports(replies) <==>
      exists i, j :: 0 <= i < |replies| && replies[i].Some? && 0 <= j < |replies[i].value.logs|
        && r == ReportOf(replies[i].value.latest, replies[i].value.logs[j])
  {
    hide LogReports, ReportOf;
    if replies != [] {
      var n := |replies| - 1;
      ReportedLog(replies[..n], r);
      if replies[n].Some? {
        LogReportsAt(replies[n].value.latest, replies[n].value.logs);
      }
    }
  }

  /** The least depth reported for a value is enough exactly if every endpoint that lists it has it that deep. */
  lemma DeepReportsIff(replies: seq<Reply>, key: string, v: int, depth: nat)
    requires Readable(replies)
    ensures DeepReports(replies, key, v, depth) <==>
      forall o | o in ObservationsOf(AllReports(replies), key) && o.value == v :: o.confirmations >= depth
  {
    hide AllReports, ObservationsOf, ReportOf;
    var reports := AllReports(replies);
    forall latest, lg | WellFormed(lg)
      ensures ReportOf(latest, lg).key == LogKey(lg) && ReportOf(latest, lg).obs.value == lg.data.n
      ensures ReportOf(latest, lg).obs.confirmations >= depth <==> depth == 0 || latest >= lg.block.n + depth - 1
    {
      ReportedDepth(latest, lg, Ledger(0, {}), if depth > 0 then depth else 1);
    }
    if DeepReports(replies, key, v, depth) {
      forall o | o in ObservationsOf(reports, key) && o.value == v ensures o.confirmations >= depth {
        ObservedReport(reports, key, o);
        var m :| 0 <= m < |reports| && reports[m].key == key && reports[m].obs == o;
        ReportedLog(replies, reports[m]);
        var i, j :| 0 <= i < |replies| && replies[i].Some? && 0 <= j < |replies[i].value.logs|
          && reports[m] == ReportOf(replies[i].value.latest, replies[i].value.logs[j]);
        assert HasValue(replies[i].value.logs[j], key, v);
      }
    }
    forall i, j | 0 <= i < |replies| && replies[i].Some? && 0 <= j < |replies[i].value.logs|
                  && HasValue(replies[i].value.logs[j], key, v)
      ensures ReportOf(replies[i].value.latest, replies[i].value.logs[j]).obs in ObservationsOf(reports, key)
    {
      var r := ReportOf(replies[i].value.latest, replies[i].value.logs[j]);
      ReportedLog(replies, r);
      ObservedReport(reports, key, r.obs);
    }
  }

  // ---------------------------------------------------------------- a single endpoint, and all of them

  /** One endpoint that repeats no log decides nothing alone, wherever two endpoints and a quorum of two are set up. */
  lemma LoneEndpoint(replies: seq<Reply>, i: nat, quorum: int)
    requires Readable(replies) && |replies| >= 2 && quorum >= 2
    requires i < |replies| && (replies[i].Some? ==> ListsOnce(replies[i].value.logs))
    ensures FewFaultyVotes(replies, {i}, Threshold(|replies|, quorum))
  {
    hide ListsOnce, FewFaultyVotes, Threshold, Readable;
    ThresholdIs(|replies|, quorum);
    assert |{i}| == 1;
    FewFaultyEndpoints(replies, {i}, Threshold(|replies|, quorum));
  }

  /** Every endpoint answers, lists the log with this value, and lists nothing twice. */
  predicate AllList(replies: seq<Reply>, key: string, v: int) {
    forall i | 0 <= i < |replies| :: ListsValue(replies[i], key, v) && ListsOnce(replies[i].value.logs)
  }

  lemma {:induction false} OneReportEach(replies: seq<Reply>, key: string)
    requires Readable(replies)
    requires forall i | 0 <= i < |replies| && replies[i].Some? :: ListsOnce(replies[i].value.logs)
    ensures |ObservationsOf(AllReports(replies), key)| <= |replies|
  {
    hide LogReports, ListsOnce;
    if replies != [] {
      var n := |replies| - 1;
      OneReportEach(replies[..n], key);
      ObservationsConcat(AllReports(replies[..n]), ReplyReports(replies[n]), key);
      if replies[n].Some? {
        OneVote(replies[n].value.latest, replies[n].value.logs, key);
      } else {
        assert ReplyReports(replies[n]) == [];
      }
    }
  }

  // ---------------------------------------------------------------- agreed transfers are real

  lemma {:induction false} LogKeyParts(latest: int, logs: seq<RpcLog>, i: nat) returns (idx: string)
    requires ReadableScan(logs) && i < |LogReports(latest, logs)|
    ensures LogReports(latest, logs)[i].key == Key(LogReports(latest, logs)[i].txHash, idx)
  {
    var n := |logs| - 1;
    if i == |LogReports(latest, logs[..n])| {
      idx := logs[n].logIndex;
    } else {
      idx := LogKeyParts(latest, logs[..n], i);
    }
  }

  lemma {:induction false} ReportKeyParts(replies: seq<Reply>, i: nat) returns (idx: string)
    requires Readable(replies) && i < |AllReports(replies)|
    ensures AllReports(replies)[i].key == Key(AllReports(replies)[i].txHash, idx)
  {
    var n := |replies| - 1;
    var before := AllReports(replies[..n]);
    if i < |before| {
      idx := ReportKeyParts(replies[..n], i);
    } else {
      var scan := replies[n].value;
      idx := LogKeyParts(scan.latest, scan.logs, i - |before|);
    }
  }

  lemma AgreedVotes(replies: seq<Reply>, threshold: int, k: nat)
    requires Readable(replies) && k < |EntriesOf(AllReports(replies))|
    requires Decide(EntriesOf(AllReports(replies))[k].observations, threshold).Agreed?
    ensures var e := EntriesOf(AllReports(replies))[k];
      var d := Decide(e.observations, threshold);
      && e.observations == ObservationsOf(AllReports(replies), e.key)
      && d.agree == Votes(replies, e.key, d.value) >= threshold
      && forall o | o in e.observations && o.value == d.value :: d.confirmations <= o.confirmations
  {
    hide EntriesOf, AllReports, ObservationsOf, Decide, Count, FindEntry;
    var e := EntriesOf(AllReports(replies))[k];
    EntriesFit(AllReports(replies));
    assert EntryFits(AllReports(replies), e);
    AgreedIff(e.observations, threshold);
  }

  /** An agreed transfer exists on the chain, with the agreed value and hash, at least as deep as agreed. */
  lemma AgreedIsReal(replies: seq<Reply>, faulty: set<nat>, ledger: Ledger, quorum: int, k: nat) returns (t: Transfer)
    requires Readable(replies) && HonestQuorum(replies, faulty, ledger, quorum)
    requires k < |EntriesOf(AllReports(replies))|
    requires Decide(EntriesOf(AllReports(replies))[k].observations, Threshold(|replies|, quorum)).Agreed?
    ensures var e := EntriesOf(AllReports(replies))[k];
      var d := Decide(e.observations, Threshold(|replies|, quorum));
      && t in ledger.transfers && TransferKey(t) == e.key && t.txHash == e.txHash
      && t.value == d.value && d.confirmations <= DepthOn(ledger, t)
  {
    hide EntriesOf, AllReports, ObservationsOf, Decide, Count, FindEntry, Votes, FaultyVotes;
    var reports := AllReports(replies);
    var e := EntriesOf(reports)[k];
    var threshold := Threshold(|replies|, quorum);
    var d := Decide(e.observations, threshold);
    AgreedVotes(replies, threshold, k);
    assert FaultyVotes(replies, faulty, e.key, d.value) < threshold;
    var i, j, o := SomeHonestVote(replies, faulty, e.key, d.value);
    t := TransferOf(replies[i].value.logs[j]);
    assert OnLedger(replies[i].value.logs[j], ledger);
    EntriesFit(reports);
    assert EntryFits(reports, e);
    var m :| 0 <= m < |reports| && reports[m].key == e.key && reports[m].txHash == e.txHash;
    var idx := ReportKeyParts(replies, m);
    SplitAtColon(e.txHash, idx, t.txHash, t.logIndex);
  }

  // ---------------------------------------------------------------- when an agreed value can be false

  /** The chain holds a transfer of this key and value, at least this deep. */
  predicate OnChain(ledger: Ledger, key: string, value: int, depth: nat) {
    exists t :: t in ledger.transfers && TransferKey(t) == key && t.value == value && DepthOn(ledger, t) >= depth
  }

  function LogTransfers(logs: seq<RpcLog>): set<Transfer>
    requires ReadableScan(logs)
  {
    if logs == [] then {} else LogTransfers(logs[..|logs| - 1]) + {TransferOf(logs[|logs| - 1])}
  }

  /** What the endpoints outside `faulty` reported, as a chain that holds nothing else. */
  function HonestLedger(replies: seq<Reply>, faulty: set<nat>): Ledger
    requires Readable(replies)
  {
    if replies == [] then Ledger(0, {})
    else
      var n := |replies| - 1;
      var before, last := HonestLedger(replies[..n], faulty), replies[n];
      if n in faulty || last.None? then before
      else Ledger(Max(before.head, last.value.latest), before.transfers + LogTransfers(last.value.logs))
  }

  lemma {:induction false} LogsOnLedger(logs: seq<RpcLog>, ledger: Ledger)
    requires ReadableScan(logs) && LogTransfers(logs) <= ledger.transfers
    ensures forall j | 0 <= j < |logs| :: OnLedger(logs[j], ledger)
  {
    if logs != [] {
      LogsOnLedger(logs[..|logs| - 1], ledger);
      assert forall j | 0 <= j < |logs| - 1 :: logs[j] == logs[..|logs| - 1][j];
    }
  }

  lemma {:induction false} HonestLedgerFits(replies: seq<Reply>, faulty: set<nat>)
    requires Readable(replies)
    ensures Consistent(replies, faulty, HonestLedger(replies, faulty))
  {
    hide LogTransfers, OnLedger;
    if replies != [] {
      var n := |replies| - 1;
      var before, ledger := HonestLedger(replies[..n], faulty), HonestLedger(replies, faulty);
      HonestLedgerFits(replies[..n], faulty);
      forall i | 0 <= i < |replies| && i !in faulty && replies[i].Some? ensures Truthful(replies[i].value, ledger) {
        if i < n {
          assert replies[..n][i] == replies[i];
          TruthGrows(replies[i].value, before, ledger);
        } else {
          LogsOnLedger(replies[n].value.logs, ledger);
        }
      }
    }
  }

  lemma TruthGrows(scan: Scan, before: Ledger, after: Ledger)
    requires Truthful(scan, before) && before.head <= after.head && before.transfers <= after.transfers
    ensures Truthful(scan, after)
  {
  }

  lemma {:induction false} LoggedTransfer(logs: seq<RpcLog>, t: Transfer) returns (j: nat)
    requires ReadableScan(logs) && t in LogTransfers(logs)
    ensures j < |logs| && TransferOf(logs[j]) == t
  {
    var n := |logs| - 1;
    if t == TransferOf(logs[n]) {
      j := n;
    } else {
      j := LoggedTransfer(logs[..n], t);
    }
  }

  lemma {:induction false} ReportedTransfer(replies: seq<Reply>, faulty: set<nat>, t: Transfer) returns (i: nat, j: nat)
    requires Readable(replies) && t in HonestLedger(replies, faulty).transfers
    ensures i < |replies| && i !in faulty && replies[i].Some? && j < |replies[i].value.logs|
    ensures TransferOf(replies[i].value.logs[j]) == t
  {
    hide LogTransfers;
    var n := |replies| - 1;
    if t in HonestLedger(replies[..n], faulty).transfers {
      i, j := ReportedTransfer(replies[..n], faulty, t);
    } else {
      i := n;
      j := LoggedTransfer(replies[n].value.logs, t);
    }
  }

  /** Some endpoint outside `faulty` lists the log with this value. */
  predicate HonestReporter(replies: seq<Reply>, faulty: set<nat>, key: string, v: int) {
    exists i :: 0 <= i < |replies| && i !in faulty && ListsValue(replies[i], key, v)
  }

  /**
   What an agreed value is worth, exactly: every chain that fits what the other endpoints say holds the
   transfer, as deep as agreed, if and only if some endpoint outside `faulty` reports it too. If only faulty
   endpoints report it, nothing they did not invent supports the value.
   */
  lemma AgreedIsCertainIff(replies: seq<Reply>, faulty: set<nat>, threshold: int, k: nat)
    requires Readable(replies) && k < |EntriesOf(AllReports(replies))|
    requires Decide(EntriesOf(AllReports(replies))[k].observations, threshold).Agreed?
    ensures var e := EntriesOf(AllReports(replies))[k];
      var d := Decide(e.observations, threshold);
      (forall ledger | Consistent(replies, faulty, ledger) :: OnChain(ledger, e.key, d.value, d.confirmations))
      <==> HonestReporter(replies, faulty, e.key, d.value)
  {
    hide EntriesOf, AllReports, ObservationsOf, Decide, Count, Votes, FaultyVotes, HonestLedger, Consistent;
    var e := EntriesOf(AllReports(replies))[k];
    var d := Decide(e.observations, threshold);
    AgreedVotes(replies, threshold, k);
    if HonestReporter(replies, faulty, e.key, d.value) {
      var m :| 0 <= m < |replies| && m !in faulty && ListsValue(replies[m], e.key, d.value);
      var n :| 0 <= n < |replies[m].value.logs| && HasValue(replies[m].value.logs[n], e.key, d.value);
      HonestVoteCounts(replies, faulty, e.key, m, n);
      var i, j, o := SomeHonestVote(replies, faulty, e.key, d.value);
      forall ledger | Consistent(replies, faulty, ledger) ensures OnChain(ledger, e.key, d.value, d.confirmations) {
        HonestLogIsReal(replies, faulty, ledger, i, j, o);
      }
    }
    HonestLedgerFits(replies, faulty);
    if OnChain(HonestLedger(replies, faulty), e.key, d.value, d.confirmations) {
      var t :| t in HonestLedger(replies, faulty).transfers && TransferKey(t) == e.key && t.value == d.value;
      var i, j := ReportedTransfer(replies, faulty, t);
      assert HasValue(replies[i].value.logs[j], e.key, d.value);
    }
  }

  lemma HonestLogIsReal(replies: seq<Reply>, faulty: set<nat>, ledger: Ledger, i: nat, j: nat, o: Observation)
    requires Consistent(replies, faulty, ledger) && i < |replies| && i !in faulty && replies[i].Some?
    requires j < |replies[i].value.logs| && Lists(replies[i].value, LogKey(replies[i].value.logs[j]), o, j)
    ensures forall depth: nat | depth <= o.confirmations ::
      OnChain(ledger, LogKey(replies[i].value.logs[j]), o.value, depth)
  {
    var lg := replies[i].value.logs[j];
    assert OnLedger(lg, ledger);
    assert TransferOf(lg) in ledger.transfers && DepthOn(ledger, TransferOf(lg)) >= o.confirmations;
  }

  // ---------------------------------------------------------------- how many faulty votes are too many

  /** The faulty endpoints answer alike in both polls. */
  ghost predicate SameFaulty(replies: seq<Reply>, others: seq<Reply>, faulty: set<nat>) {
    |others| == |replies| && forall i | 0 <= i < |replies| && i in faulty :: others[i] == replies[i]
  }

  /** If the poll agrees on entry `k` and its other endpoints tell the truth, the chain holds the transfer. */
  ghost predicate Safe(replies: seq<Reply>, faulty: set<nat>, threshold: int, ledger: Ledger, k: nat) {
    Readable(replies) && Consistent(replies, faulty, ledger) && k < |EntriesOf(AllReports(replies))| ==>
      var e := EntriesOf(AllReports(replies))[k];
      var d := Decide(e.observations, threshold);
      d.Agreed? ==> OnChain(ledger, e.key, d.value, d.confirmations)
  }

  lemma {:induction false} SameFaultyReports(replies: seq<Reply>, others: seq<Reply>, faulty: set<nat>)
    requires SameFaulty(replies, others, faulty) && Readable(replies) && Readable(others)
    ensures FaultyReports(others, faulty) == FaultyReports(replies, faulty)
  {
    hide ReplyReports;
    if replies != [] {
      SameFaultyReports(replies[..|replies| - 1], others[..|others| - 1], faulty);
    }
  }

  /** The faulty endpoints answer, the others fail to. */
  function Silenced(replies: seq<Reply>, faulty: set<nat>): (others: seq<Reply>)
    ensures SameFaulty(replies, others, faulty)
    ensures forall i | 0 <= i < |replies| && i !in faulty :: others[i].None?
  {
    seq(|replies|, i requires 0 <= i < |replies| => if i in faulty then replies[i] else None)
  }

  lemma {:induction false} SilencedReports(replies: seq<Reply>, faulty: set<nat>)
    requires Readable(replies)
    ensures Readable(Silenced(replies, faulty))
    ensures AllReports(Silenced(replies, faulty)) == FaultyReports(replies, faulty)
  {
    hide LogReports, ReadableScan;
    if replies != [] {
      var n := |replies| - 1;
      SilencedReports(replies[..n], faulty);
      assert Silenced(replies, faulty)[..n] == Silenced(replies[..n], faulty);
    }
  }

  lemma EntryOfVotes(reports: seq<Report>, key: string, v: int) returns (k: nat)
    requires Count(ObservationsOf(reports, key), v) > 0
    ensures k < |EntriesOf(reports)| && EntriesOf(reports)[k].key == key
    ensures EntriesOf(reports)[k].observations == ObservationsOf(reports, key)
  {
    hide EntriesOf, FindEntry, HasReport;
    EntriesFit(reports);
    if forall i | 0 <= i < |reports| :: reports[i].key != key {
      NoObservations(reports, key);
    }
    var i :| 0 <= i < |reports| && reports[i].key == key;
    k := FindEntry(EntriesOf(reports), key);
    assert EntryFits(reports, EntriesOf(reports)[k]);
  }

  lemma VotesAgree(obs: seq<Observation>, v: int, threshold: int)
    requires 1 <= threshold <= Count(obs, v)
    ensures Decide(obs, threshold).Agreed?
  {
    hide Count, Decide;
    CountZero(obs, v);
    AgreedIff(obs, threshold);
  }

  /** With the others silent, as many faulty votes as the threshold agree on what no chain holds. */
  lemma FaultyVotesDecide(replies: seq<Reply>, faulty: set<nat>, threshold: int, key: string, v: int) returns (k: nat)
    requires Readable(replies) && 1 <= threshold <= FaultyVotes(replies, faulty, key, v)
    ensures !Safe(Silenced(replies, faulty), faulty, threshold, Ledger(0, {}), k)
  {
    hide EntriesOf, AllReports, ObservationsOf, Decide, Count, FaultyReports, Silenced;
    SilencedReports(replies, faulty);
    k := EntryOfVotes(FaultyReports(replies, faulty), key, v);
    VotesAgree(ObservationsOf(FaultyReports(replies, faulty), key), v, threshold);
  }

  /**
   The bound on faulty votes is the right one: given what the faulty endpoints answer, every agreed transfer is
   on the chain, whatever the others answer truthfully and whatever the chain, exactly if no value they report
   for a log reaches the threshold by their reports alone.
   */
  lemma FewFaultyVotesIff(replies: seq<Reply>, faulty: set<nat>, threshold: int)
    requires Readable(replies) && threshold >= 1
    ensures FewFaultyVotes(replies, faulty, threshold) <==>
      forall others, ledger, k: nat | SameFaulty(replies, others, faulty) :: Safe(others, faulty, threshold, ledger, k)
  {
    hide Safe, FaultyVotes, Silenced, SameFaulty;
    if FewFaultyVotes(replies, faulty, threshold) {
      forall others, ledger, k: nat | SameFaulty(replies, others, faulty)
        ensures Safe(others, faulty, threshold, ledger, k)
      {
        FewVotesAreSafe(replies, others, faulty, threshold, ledger, k);
      }
    } else {
      var key, v :| FaultyVotes(replies, faulty, key, v) >= threshold;
      var k := FaultyVotesDecide(replies, faulty, threshold, key, v);
      assert SameFaulty(replies, Silenced(replies, faulty), faulty);
    }
  }

  lemma FewVotesAreSafe(replies: seq<Reply>, others: seq<Reply>, faulty: set<nat>, threshold: int, ledger: Ledger,
                        k: nat)
    requires Readable(replies) && FewFaultyVotes(replies, faulty, threshold) && SameFaulty(replies, others, faulty)
    ensures Safe(others, faulty, threshold, ledger, k)
  {
    hide EntriesOf, AllReports, ObservationsOf, Decide, Count, FaultyReports, Consistent, SameFaulty;
    if Readable(others) && Consistent(others, faulty, ledger) && k < |EntriesOf(AllReports(others))| {
      var e := EntriesOf(AllReports(others))[k];
      var d := Decide(e.observations, threshold);
      if d.Agreed? {
        AgreedVotes(others, threshold, k);
        SameFaultyReports(replies, others, faulty);
        assert FaultyVotes(replies, faulty, e.key, d.value) < threshold;
        var i, j, o := SomeHonestVote(others, faulty, e.key, d.value);
        HonestLogIsReal(others, faulty, ledger, i, j, o);
      }
    }
  }
}
