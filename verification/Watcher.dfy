/**
 The fixed-address watcher: one poll lists the pending invoices of each chain, expires stale ones,
 collects Transfer logs from every RPC endpoint, lets the endpoints vote on each transfer, and matches
 agreed values to invoices. The functions give the effect of a poll on a state value; the class below
 performs it on its fields and on the shared storage.
 */
module Watcher {
  import opened Results
  import opened Quorum
  import opened AmountNonce
  import opened Invoices
  import opened InvoiceCore

  // ---------------------------------------------------------------- RPC replies

  /** A hexadecimal field of a reply; `BigInt` throws on anything else. */
  datatype Hex = Number(n: int) | Malformed

  datatype RpcLog = RpcLog(txHash: string, logIndex: string, block: Hex, data: Hex)
  datatype Scan = Scan(latest: int, logs: seq<RpcLog>)

  /** `None`: the endpoint failed, timed out or answered with an error. */
  type Reply = Option<Scan>

  function Key(txHash: string, logIndex: string): string {
    txHash + ":" + logIndex
  }

  function LogKey(lg: RpcLog): string {
    Key(lg.txHash, lg.logIndex)
  }

  predicate WellFormed(lg: RpcLog) {
    lg.data.Number? && lg.block.Number?
  }

  predicate Readable(replies: seq<Reply>) {
    forall i | 0 <= i < |replies| && replies[i].Some? :: ReadableScan(replies[i].value.logs)
  }

  predicate ReadableScan(logs: seq<RpcLog>) {
    forall j | 0 <= j < |logs| :: WellFormed(logs[j])
  }

  /** One endpoint's view of one log, confirmations counted against that endpoint's own head. */
  datatype Report = Report(key: string, txHash: string, obs: Observation)

  function ReportOf(latest: int, lg: RpcLog): Report
    requires WellFormed(lg)
  {
    var depth := if latest >= lg.block.n then latest - lg.block.n + 1 else 0;
    Report(LogKey(lg), lg.txHash, Observation(lg.data.n, depth))
  }

  function LogReports(latest: int, logs: seq<RpcLog>): seq<Report>
    requires ReadableScan(logs)
  {
    if logs == [] then []
    else LogReports(latest, logs[..|logs| - 1]) + [ReportOf(latest, logs[|logs| - 1])]
  }

  function ReplyReports(reply: Reply): seq<Report>
    requires reply.Some? ==> ReadableScan(reply.value.logs)
  {
    if reply.Some? then LogReports(reply.value.latest, reply.value.logs) else []
  }

  function AllReports(replies: seq<Reply>): seq<Report>
    requires Readable(replies)
  {
    if replies == [] then []
    else AllReports(replies[..|replies| - 1]) + ReplyReports(replies[|replies| - 1])
  }

  function Responded(replies: seq<Reply>): (n: nat)
    ensures n <= |replies|
  {
    if replies == [] then 0
    else Responded(replies[..|replies| - 1]) + if replies[|replies| - 1].Some? then 1 else 0
  }

  // ---------------------------------------------------------------- one entry per transfer

  datatype Entry = Entry(key: string, txHash: string, observations: seq<Observation>)

  function FindEntry(entries: seq<Entry>, key: string): (k: int)
    ensures -1 <= k < |entries|
    ensures k >= 0 ==> entries[k].key == key
    ensures k == -1 ==> forall j | 0 <= j < |entries| :: entries[j].key != key
  {
    if entries == [] then -1
    else if entries[|entries| - 1].key == key then |entries| - 1
    else FindEntry(entries[..|entries| - 1], key)
  }

  function AddEntry(entries: seq<Entry>, r: Report): seq<Entry> {
    var k := FindEntry(entries, r.key);
    if k >= 0 then entries[k := entries[k].(observations := entries[k].observations + [r.obs])]
    else entries + [Entry(r.key, r.txHash, [r.obs])]
  }

  /** The `byKey` map in insertion order. */
  function EntriesOf(reports: seq<Report>): seq<Entry> {
    if reports == [] then [] else AddEntry(EntriesOf(reports[..|reports| - 1]), reports[|reports| - 1])
  }

  // ---------------------------------------------------------------- matching and verdicts

  function FindByValue(active: seq<Invoice>, value: int): Option<(Invoice, int)> {
    if active == [] then None
    else
      var inv := active[0];
      if inv.amount == Units(value) then
        var nonce := MatchAmount(value, BaseOf(value));
        if nonce.Some? && nonce.value > 0 then Some((inv, nonce.value)) else FindByValue(active[1..], value)
      else FindByValue(active[1..], value)
  }

  datatype Verdict = Wait | Orphan(value: int) | Confirm(inv: Invoice, nonce: int, value: int)

  function Judge(active: seq<Invoice>, obs: seq<Observation>, threshold: int, minConfirmations: nat): Verdict {
    match Decide(obs, threshold)
    case Conflict(_) => Wait
    case Insufficient(_) => Wait
    case Agreed(value, confirmations, _) =>
      match FindByValue(active, value)
      case None => Orphan(value)
      case Some(m) => if confirmations < minConfirmations then Wait else Confirm(m.0, m.1, value)
  }

  // ---------------------------------------------------------------- a poll on a state value

  datatype ChainConfig = ChainConfig(chain: string, tokens: seq<Token>, minConfirmations: nat)
  datatype Config = Config(address: string, chains: seq<ChainConfig>, quorum: int)

  /** The clock as read anew for every invoice that is checked, by the id of that invoice. */
  type Clock = string -> int

  /** Readings of the clock while one chain is polled, and the replies per token and endpoint. */
  datatype ChainInput = ChainInput(listedAt: int, expiredAt: Clock, filteredAt: Clock, replies: seq<seq<Reply>>)

  /** An invoice is listed, then checked for expiry, then filtered. */
  ghost predicate Timed(input: ChainInput) {
    forall id :: input.listedAt <= input.expiredAt(id) <= input.filteredAt(id)
  }

  type SeenMap = map<string, set<string>>
  datatype State = State(rows: seq<Invoice>, events: seq<Event>, seen: SeenMap)

  function SeenFor(seen: SeenMap, chain: string): set<string> {
    if chain in seen then seen[chain] else {}
  }

  function SeenKey(token: Token, logKey: string): string {
    token.symbol + ":" + logKey
  }

  function HandleEntry(st: State, c: ChainConfig, token: Token, active: seq<Invoice>, e: Entry, threshold: int): State {
    var key := SeenKey(token, e.key);
    var done := SeenFor(st.seen, c.chain);
    if key in done then st
    else
      match Judge(active, e.observations, threshold, c.minConfirmations)
      case Wait => st
      case Orphan(value) =>
        State(st.rows,
              st.events + [Event(c.chain, key, PaymentOrphan(token.symbol, e.txHash, value))],
              st.seen[c.chain := done + {key}])
      case Confirm(inv, nonce, value) =>
        State(Update(st.rows, inv.id, Confirmed, Some(e.txHash)),
              st.events + [Event(c.chain, key, InvoiceConfirmed(inv.id, e.txHash, value, nonce))],
              st.seen[c.chain := done + {key}])
  }

  function HandleAll(st: State, c: ChainConfig, token: Token, active: seq<Invoice>, entries: seq<Entry>,
                     threshold: int): State {
    if entries == [] then st
    else
      HandleEntry(HandleAll(st, c, token, active, entries[..|entries| - 1], threshold),
                  c, token, active, entries[|entries| - 1], threshold)
  }

  /** `Threw`: a malformed log aborted the rest of the chain; the poll carries on with the next chain. */
  datatype Outcome = Complete | Degraded | Threw

  function ScanToken(st: State, c: ChainConfig, token: Token, active: seq<Invoice>, replies: seq<Reply>, quorum: int)
    : (State, Outcome)
  {
    var threshold := Threshold(|replies|, quorum);
    if Responded(replies) < threshold then (st, Degraded)
    else if !Readable(replies) then (st, Threw)
    else (HandleAll(st, c, token, active, EntriesOf(AllReports(replies)), threshold), Complete)
  }

  function ForToken(active: seq<Invoice>, token: Token): seq<Invoice> {
    Filter(active, (inv: Invoice) => Upper(inv.asset) == token.symbol)
  }

  /** The first `k` tokens of a chain, in order. */
  function ScanTokens(st: State, c: ChainConfig, active: seq<Invoice>, replies: seq<seq<Reply>>, quorum: int, k: nat)
    : (State, Outcome)
    requires k <= |c.tokens| == |replies|
  {
    if k == 0 then (st, Complete)
    else
      var before := ScanTokens(st, c, active, replies, quorum, k - 1);
      if before.1 == Threw then before
      else
        var after := ScanToken(before.0, c, c.tokens[k - 1], ForToken(active, c.tokens[k - 1]), replies[k - 1], quorum);
        (after.0, if before.1 == Degraded && after.1 == Complete then Degraded else after.1)
  }

  function ForAddress(pending: seq<Invoice>, address: string): seq<Invoice> {
    Filter(pending, (inv: Invoice) => Lower(inv.address) == Lower(address))
  }

  function PendingForChain(rows: seq<Invoice>, address: string, chain: string, listedAt: int): seq<Invoice> {
    ForAddress(ListPending(rows, chain, listedAt), address)
  }

  predicate IsExpired(inv: Invoice, clock: Clock) {
    inv.expiresAt < clock(inv.id)
  }

  function ExpireStale(rows: seq<Invoice>, pending: seq<Invoice>, clock: Clock): (r: seq<Invoice>)
    ensures |r| == |rows|
  {
    if pending == [] then rows
    else
      var before := ExpireStale(rows, pending[..|pending| - 1], clock);
      var inv := pending[|pending| - 1];
      if IsExpired(inv, clock) then Update(before, inv.id, Expired, None) else before
  }

  function Unexpired(pending: seq<Invoice>, clock: Clock): seq<Invoice> {
    Filter(pending, (inv: Invoice) => !IsExpired(inv, clock))
  }

  datatype PollResult = PollResult(st: State, ok: bool, pending: nat)

  function PollChain(st: State, cfg: Config, c: ChainConfig, input: ChainInput): PollResult
    requires |c.tokens| == |input.replies|
  {
    var pending := PendingForChain(st.rows, cfg.address, c.chain, input.listedAt);
    var expired := st.(rows := ExpireStale(st.rows, pending, input.expiredAt));
    var active := Unexpired(pending, input.filteredAt);
    var scanned := ScanTokens(expired, c, active, input.replies, cfg.quorum, |c.tokens|);
    PollResult(scanned.0, scanned.1 == Complete, |pending|)
  }

  predicate FitsConfig(cfg: Config, inputs: seq<ChainInput>) {
    |inputs| == |cfg.chains| && forall i | 0 <= i < |inputs| :: |inputs[i].replies| == |cfg.chains[i].tokens|
  }

  /** The first `n` chains, in order. */
  function PollChains(st: State, cfg: Config, inputs: seq<ChainInput>, n: nat): PollResult
    requires FitsConfig(cfg, inputs) && n <= |inputs|
  {
    if n == 0 then PollResult(st, true, 0)
    else
      var before := PollChains(st, cfg, inputs, n - 1);
      var r := PollChain(before.st, cfg, cfg.chains[n - 1], inputs[n - 1]);
      PollResult(r.st, before.ok && r.ok, before.pending + r.pending)
  }

  function Poll(st: State, cfg: Config, inputs: seq<ChainInput>): State
    requires FitsConfig(cfg, inputs)
  {
    if IsHexAddress(cfg.address) then PollChains(st, cfg, inputs, |inputs|).st else st
  }

  // ---------------------------------------------------------------- the watcher

  class FixedAddressWatcher {
    const cfg: Config
    const storage: Storage
    var seen: SeenMap
    var lastPollAt: Option<int>
    var lastPollOk: bool
    var pendingCount: nat

    constructor (cfg: Config, storage: Storage)
      ensures this.cfg == cfg && this.storage == storage
      ensures View() == State(storage.rows, storage.recorded, map[])
      ensures lastPollAt == None && !lastPollOk && pendingCount == 0
    {
      this.cfg, this.storage := cfg, storage;
      seen, lastPollAt, lastPollOk, pendingCount := map[], None, false, 0;
    }

    ghost function View(): State
      reads this, storage
    {
      State(storage.rows, storage.recorded, seen)
    }

    /** One reconciliation pass over every configured chain. */
    method PollOnce(at: int, inputs: seq<ChainInput>)
      requires storage.Valid() && FitsConfig(cfg, inputs)
      modifies this, storage
      ensures storage.Valid() && View() == Poll(old(View()), cfg, inputs)
      ensures lastPollAt == Some(at)
      ensures !IsHexAddress(cfg.address) ==> !lastPollOk && pendingCount == old(pendingCount)
      ensures IsHexAddress(cfg.address) ==>
        var r := PollChains(old(View()), cfg, inputs, |inputs|);
        lastPollOk == r.ok && pendingCount == r.pending
    {
      hide ScanTokens, ExpireStale, Unexpired, ListPending, ForAddress, IsHexAddress, AllStored, FilesOf;
      lastPollAt := Some(at);
      if !IsHexAddress(cfg.address) {
        lastPollOk := false;
        return;
      }
      var allOk := true;
      var pendingTotal: nat := 0;
      ghost var start := View();
      for i := 0 to |cfg.chains|
        invariant PollChains(start, cfg, inputs, i) == PollResult(View(), allOk, pendingTotal)
        invariant storage.Valid() && lastPollAt == Some(at)
      {
        var chain := cfg.chains[i];
        var listed := storage.ListPendingInvoices(chain.chain, inputs[i].listedAt);
        var pending := ForAddress(listed, cfg.address);
        pendingTotal := pendingTotal + |pending|;
        WatchedAreStored(storage.rows, cfg.address, chain.chain, inputs[i].listedAt, inputs[i].filteredAt);
        var active := Unexpired(pending, inputs[i].filteredAt);
        ExpireStaleRows(pending, inputs[i].expiredAt, active);
        var outcome := ScanChain(chain, active, inputs[i].replies);
        if outcome != Complete {
          allOk := false;
        }
      }
      pendingCount := pendingTotal;
      lastPollOk := allOk;
    }

    /** Expiring rows loses none, so those still to be scanned (`active`) keep theirs. */
    method ExpireStaleRows(pending: seq<Invoice>, clock: Clock, ghost active: seq<Invoice>)
      requires storage.Valid() && AllStored(storage.rows, pending) && AllStored(storage.rows, active)
      modifies storage`rows
      ensures storage.Valid() && AllStored(storage.rows, active)
      ensures View() == old(View()).(rows := ExpireStale(old(storage.rows), pending, clock))
    {
      hide Update, AllStored, FilesOf;
      ghost var rows := storage.rows;
      assert pending[..0] == [];
      for i := 0 to |pending|
        invariant storage.Valid() && AllStored(storage.rows, pending) && AllStored(storage.rows, active)
        invariant View() == old(View()).(rows := ExpireStale(rows, pending[..i], clock))
      {
        assert pending[..i + 1][..i] == pending[..i];
        if IsExpired(pending[i], clock) {
          UpdateKeepsStored(storage.rows, pending[i].id, Expired, None, pending);
          UpdateKeepsStored(storage.rows, pending[i].id, Expired, None, active);
          var found := storage.UpdateInvoiceStatus(pending[i].id, Expired, None);
        }
      }
      assert pending[..|pending|] == pending;
    }

    method ScanChain(c: ChainConfig, active: seq<Invoice>, replies: seq<seq<Reply>>) returns (outcome: Outcome)
      requires storage.Valid() && AllStored(storage.rows, active) && |c.tokens| == |replies|
      modifies this`seen, storage
      ensures storage.Valid()
      ensures (View(), outcome) == ScanTokens(old(View()), c, active, replies, cfg.quorum, |c.tokens|)
    {
      hide ScanToken, AllStored, FilesOf, Filter;
      outcome := Complete;
      for k := 0 to |c.tokens|
        invariant outcome != Threw && storage.Valid() && AllStored(storage.rows, active)
        invariant (View(), outcome) == ScanTokens(old(View()), c, active, replies, cfg.quorum, k)
      {
        var token := c.tokens[k];
        FilteredAreStored(storage.rows, active, (inv: Invoice) => Upper(inv.asset) == token.symbol);
        var o := ScanOneToken(c, token, ForToken(active, token), replies[k], active);
        if o == Threw {
          outcome := Threw;
          ThrewStays(old(View()), c, active, replies, cfg.quorum, k + 1, |c.tokens|);
          return;
        }
        if o == Degraded {
          outcome := Degraded;
        }
      }
    }

    /** `all` are the invoices the chain lists for all its tokens; none of them loses its row. */
    method ScanOneToken(c: ChainConfig, token: Token, active: seq<Invoice>, replies: seq<Reply>,
                        ghost all: seq<Invoice>)
      returns (outcome: Outcome)
      requires storage.Valid() && AllStored(storage.rows, active) && AllStored(storage.rows, all)
      modifies this`seen, storage
      ensures storage.Valid() && AllStored(storage.rows, all)
      ensures (View(), outcome) == ScanToken(old(View()), c, token, active, replies, cfg.quorum)
    {
      hide Threshold, Responded, AllReports, EntriesOf, Readable, FindByValue, Decide, SeenKey, Update, AllStored,
           FilesOf;
      var threshold := Threshold(|replies|, cfg.quorum);
      var responded := CountResponded(replies);
      if responded < threshold {
        return Degraded;
      }
      var byKey := Aggregate(replies);
      if byKey.None? {
        return Threw;
      }
      var entries := byKey.value;
      assert entries[..0] == [];
      for i := 0 to |entries|
        invariant storage.Valid() && AllStored(storage.rows, active) && AllStored(storage.rows, all)
        invariant View() == HandleAll(old(View()), c, token, active, entries[..i], threshold)
      {
        assert entries[..i + 1][..i] == entries[..i];
        var e := entries[i];
        var key := SeenKey(token, e.key);
        if key in SeenFor(seen, c.chain) {
          continue;
        }
        var decision := DecideTransferQuorum(e.observations, threshold);
        if !decision.Agreed? {
          continue;
        }
        var terminal := HandleTransfer(c, token, active, key, e.txHash, decision.value, decision.confirmations, all);
        if terminal {
          seen := seen[c.chain := SeenFor(seen, c.chain) + {key}];
        }
      }
      assert entries[..|entries|] == entries;
      return Complete;
    }

    /** Confirms the matching invoice, reports an orphan, or waits for depth; true when decided for good. */
    method HandleTransfer(c: ChainConfig, token: Token, active: seq<Invoice>, key: string, txHash: string,
                          value: int, confirmations: nat, ghost all: seq<Invoice>)
      returns (terminal: bool)
      requires storage.Valid() && AllStored(storage.rows, active) && AllStored(storage.rows, all)
      modifies storage
      ensures storage.Valid() && AllStored(storage.rows, active) && AllStored(storage.rows, all)
      ensures var m := FindByValue(active, value);
        var before := old(View());
        && seen == before.seen
        && (terminal <==> m.None? || confirmations >= c.minConfirmations)
        && (!terminal ==> View() == before)
        && (terminal && m.None? ==>
              && storage.rows == before.rows
              && storage.recorded == before.events + [Event(c.chain, key, PaymentOrphan(token.symbol, txHash, value))])
        && (terminal && m.Some? ==>
              && storage.rows == Update(before.rows, m.value.0.id, Confirmed, Some(txHash))
              && storage.recorded
                 == before.events + [Event(c.chain, key, InvoiceConfirmed(m.value.0.id, txHash, value, m.value.1))])
    {
      hide FindByValue, Update, FilesOf, PutFile, AllStored;
      var m := FindInvoiceByValue(active, value);
      if m.None? {
        storage.RecordWebhookEvent(Event(c.chain, key, PaymentOrphan(token.symbol, txHash, value)));
        return true;
      }
      if confirmations < c.minConfirmations {
        return false;
      }
      var (inv, nonce) := m.value;
      MatchIsStored(storage.rows, active, value);
      UpdateKeepsStored(storage.rows, inv.id, Confirmed, Some(txHash), active);
      UpdateKeepsStored(storage.rows, inv.id, Confirmed, Some(txHash), all);
      var found := storage.UpdateInvoiceStatus(inv.id, Confirmed, Some(txHash));
      assert found;
      storage.RecordWebhookEvent(Event(c.chain, key, InvoiceConfirmed(inv.id, txHash, value, nonce)));
      return true;
    }
  }

  lemma WatchedAreStored(rows: seq<Invoice>, address: string, chain: string, listedAt: int, filteredAt: Clock)
    ensures var pending := ForAddress(ListPending(rows, chain, listedAt), address);
      AllStored(rows, pending) && AllStored(rows, Unexpired(pending, filteredAt))
  {
    hide AllStored;
    var listed := ListPending(rows, chain, listedAt);
    ListedAreStored(rows, chain, listedAt);
    FilteredAreStored(rows, listed, (inv: Invoice) => Lower(inv.address) == Lower(address));
    FilteredAreStored(rows, ForAddress(listed, address), (inv: Invoice) => !IsExpired(inv, filteredAt));
  }

  /** An update of the matched invoice finds its row. */
  lemma {:induction false} MatchIsStored(rows: seq<Invoice>, active: seq<Invoice>, value: int)
    requires AllStored(rows, active)
    ensures FindByValue(active, value).Some? ==> HasId(rows, FindByValue(active, value).value.0.id)
  {
    if active != [] {
      MatchIsStored(rows, active[1..], value);
    }
  }

  lemma {:induction false} ThrewStays(st: State, c: ChainConfig, active: seq<Invoice>, replies: seq<seq<Reply>>,
                                      quorum: int, j: nat, k: nat)
    requires j <= k <= |c.tokens| == |replies|
    requires ScanTokens(st, c, active, replies, quorum, j).1 == Threw
    ensures ScanTokens(st, c, active, replies, quorum, k) == ScanTokens(st, c, active, replies, quorum, j)
    decreases k - j
  {
    hide ScanToken;
    if j < k {
      ThrewStays(st, c, active, replies, quorum, j, k - 1);
    }
  }

  method FindInvoiceByValue(active: seq<Invoice>, value: int) returns (m: Option<(Invoice, int)>)
    ensures m == FindByValue(active, value)
  {
    for i := 0 to |active|
      invariant FindByValue(active, value) == FindByValue(active[i..], value)
    {
      var inv := active[i];
      if inv.amount.NotAnInteger? || inv.amount.units != value {
        continue;
      }
      var base := BaseOf(inv.amount.units);
      var nonce := MatchAmount(value, base);
      if nonce.Some? && nonce.value > 0 {
        return Some((inv, nonce.value));
      }
    }
    return None;
  }

  method CountResponded(replies: seq<Reply>) returns (n: nat)
    ensures n == Responded(replies)
  {
    n := 0;
    for i := 0 to |replies|
      invariant n == Responded(replies[..i])
    {
      assert replies[..i + 1][..i] == replies[..i];
      if replies[i].Some? {
        n := n + 1;
      }
    }
    assert replies[..|replies|] == replies;
  }

  lemma ReportsStep(reply: Scan, j: nat)
    requires j < |reply.logs| && ReadableScan(reply.logs[..j]) && WellFormed(reply.logs[j])
    ensures ReadableScan(reply.logs[..j + 1])
    ensures LogReports(reply.latest, reply.logs[..j + 1])
         == LogReports(reply.latest, reply.logs[..j]) + [ReportOf(reply.latest, reply.logs[j])]
  {
    assert reply.logs[..j + 1][..j] == reply.logs[..j];
  }

  lemma RepliesStep(replies: seq<Reply>, i: nat)
    requires i < |replies| && Readable(replies[..i])
    requires replies[i].Some? ==> ReadableScan(replies[i].value.logs)
    ensures Readable(replies[..i + 1])
    ensures AllReports(replies[..i + 1]) == AllReports(replies[..i]) + ReplyReports(replies[i])
  {
    assert replies[..i + 1][..i] == replies[..i];
  }

  lemma NothingYet(replies: seq<Reply>, scan: Scan)
    ensures EntriesOf(AllReports(replies[..0])) == [] && LogReports(scan.latest, scan.logs[..0]) == []
  {
  }

  lemma EntriesStep(reports: seq<Report>, r: Report)
    ensures EntriesOf(reports + [r]) == AddEntry(EntriesOf(reports), r)
  {
    assert (reports + [r])[..|reports|] == reports;
  }

  /** Builds the `byKey` map; `None` when some log of a responding endpoint cannot be read. */
  method Aggregate(replies: seq<Reply>) returns (byKey: Option<seq<Entry>>)
    ensures byKey == if Readable(replies) then Some(EntriesOf(AllReports(replies))) else None
  {
    hide EntriesOf, AllReports, LogReports, ReportOf, FindEntry;
    var entries: seq<Entry> := [];
    NothingYet(replies, Scan(0, []));
    for i := 0 to |replies|
      invariant Readable(replies[..i]) && entries == EntriesOf(AllReports(replies[..i]))
    {
      if replies[i].None? {
        RepliesStep(replies, i);
        assert AllReports(replies[..i + 1]) == AllReports(replies[..i]);
        continue;
      }
      var scan := replies[i].value;
      ghost var before := AllReports(replies[..i]);
      NothingYet(replies, scan);
      assert before + LogReports(scan.latest, scan.logs[..0]) == before;
      for j := 0 to |scan.logs|
        invariant ReadableScan(scan.logs[..j])
        invariant entries == EntriesOf(before + LogReports(scan.latest, scan.logs[..j]))
      {
        var lg := scan.logs[j];
        if !WellFormed(lg) {
          assert !ReadableScan(replies[i].value.logs);
          return None;
        }
        ReportsStep(scan, j);
        var r := ReportOf(scan.latest, lg);
        ghost var reports := before + LogReports(scan.latest, scan.logs[..j]);
        EntriesStep(reports, r);
        assert before + LogReports(scan.latest, scan.logs[..j + 1]) == reports + [r];
        var k := FindEntry(entries, r.key);
        if k >= 0 {
          entries := entries[k := entries[k].(observations := entries[k].observations + [r.obs])];
        } else {
          entries := entries + [Entry(r.key, r.txHash, [r.obs])];
        }
      }
      assert scan.logs[..|scan.logs|] == scan.logs;
      RepliesStep(replies, i);
      assert AllReports(replies[..i + 1]) == before + LogReports(scan.latest, scan.logs);
    }
    assert replies[..|replies|] == replies;
    return Some(entries);
  }
}
