/**
 The fixed-address payment protocol over whole runs: invoices are created and read, time passes, and the watcher
 polls endpoints that may answer anything. What a poll does is justified by what the endpoints agree on;
 what such an agreement is worth is a matter of how many of them lie, and is kept apart from the protocol.
 */
module Protocol {
  import opened Results
  import opened Quorum
  import opened AmountNonce
  import opened Invoices
  import opened InvoiceCore
  import opened Watcher

  // ---------------------------------------------------------------- systems, steps and runs

  datatype Step =
    | CreateFixed(p: Params, env: Env)
    | CreateDerived(inv: Invoice)
    | PollAll(inputs: seq<ChainInput>)
    | ReadInvoice(id: string, at: int)
    | Wait

  datatype System = System(st: State, now: int)

  /** Chains and the tokens of a chain are configured once each. */
  ghost predicate GoodConfig(cfg: Config) {
    && (forall i, j | 0 <= i < j < |cfg.chains| :: cfg.chains[i].chain != cfg.chains[j].chain)
    && (forall i | 0 <= i < |cfg.chains| :: GoodTokens(cfg.chains[i].tokens))
  }

  ghost predicate GoodTokens(tokens: seq<Token>) {
    && (forall i, j | 0 <= i < j < |tokens| :: tokens[i].symbol != tokens[j].symbol)
    && (forall i | 0 <= i < |tokens| :: ':' !in tokens[i].symbol)
  }

  predicate OnWatchedChain(cfg: Config, inv: Invoice) {
    exists i :: 0 <= i < |cfg.chains| && cfg.chains[i].chain == inv.chain
  }

  /** The clock never runs backwards while a poll is under way. */
  ghost predicate Clocked(inputs: seq<ChainInput>, from: int, to: int) {
    && from <= to
    && forall i | 0 <= i < |inputs| ::
         from <= inputs[i].listedAt && Timed(inputs[i]) && forall id :: inputs[i].filteredAt(id) <= to
  }

  predicate Lapsed(inv: Invoice, id: string, at: int) {
    inv.id == id && inv.status == Pending && inv.expiresAt < at
  }

  /** A request for an invoice expires it if it is found pending past its expiry. */
  function Read(rows: seq<Invoice>, id: string, at: int): seq<Invoice> {
    if exists i :: 0 <= i < |rows| && Lapsed(rows[i], id, at) then Update(rows, id, Expired, None) else rows
  }

  ghost predicate Next(cfg: Config, s: System, step: Step, s': System) {
    match step
    case CreateFixed(p, env) =>
      && s.now <= env.now <= env.listedAt <= env.issuedAt <= s'.now && !HasId(s.st.rows, env.id)
      && var r := Create(s.st.rows, p, env);
         s'.st == if r.Ok? then s.st.(rows := PutRow(s.st.rows, r.value)) else s.st
    case CreateDerived(inv) =>
      && inv.childIndex.Some? && inv.status == Pending && !HasId(s.st.rows, inv.id) && !OnWatchedChain(cfg, inv)
      && s'.st == s.st.(rows := PutRow(s.st.rows, inv)) && s.now <= s'.now
    case PollAll(inputs) =>
      FitsConfig(cfg, inputs) && Clocked(inputs, s.now, s'.now) && s'.st == Poll(s.st, cfg, inputs)
    case ReadInvoice(id, at) =>
      s.now <= at <= s'.now && s'.st == s.st.(rows := Read(s.st.rows, id, at))
    case Wait =>
      s'.st == s.st && s.now <= s'.now
  }

  // ---------------------------------------------------------------- invariants

  ghost predicate DistinctAmounts(rows: seq<Invoice>, now: int) {
    forall i, j | 0 <= i < j < |rows| && IsFixed(rows[i]) && IsFixed(rows[j])
                  && Active(rows[i], now) && Active(rows[j], now) && SamePool(rows[i], rows[j]) ::
      rows[i].amount != rows[j].amount
  }

  ghost predicate RowsInv(cfg: Config, rows: seq<Invoice>, now: int) {
    && UniqueIds(rows)
    && (forall i | 0 <= i < |rows| :: OnWatchedChain(cfg, rows[i]) ==> IsFixed(rows[i]))
    && (forall i | 0 <= i < |rows| :: IsFixed(rows[i]) ==> Encoded(rows[i]))
    && DistinctAmounts(rows, now)
  }

  /** Every decided transfer is decided once, and `seen` is exactly the set of decided keys. */
  ghost predicate EventsInv(st: State) {
    && (forall i, j | 0 <= i < j < |st.events| ::
          !(st.events[i].chain == st.events[j].chain && st.events[i].key == st.events[j].key))
    && (forall i | 0 <= i < |st.events| :: st.events[i].key in SeenFor(st.seen, st.events[i].chain))
    && (forall chain, key | key in SeenFor(st.seen, chain) :: Decided(st.events, chain, key))
  }

  predicate Decided(events: seq<Event>, chain: string, key: string) {
    exists i :: 0 <= i < |events| && events[i].chain == chain && events[i].key == key
  }

  ghost predicate Inv(cfg: Config, s: System) {
    RowsInv(cfg, s.st.rows, s.now) && EventsInv(s.st)
  }

  /** A fresh process: any rows a previous one may have left, nothing seen yet. */
  ghost predicate Init(cfg: Config, s: System) {
    RowsInv(cfg, s.st.rows, s.now) && s.st.events == [] && s.st.seen == map[]
  }

  ghost predicate Run(cfg: Config, states: seq<System>, steps: seq<Step>) {
    && GoodConfig(cfg) && |states| == |steps| + 1 && Init(cfg, states[0])
    && forall i | 0 <= i < |steps| :: Next(cfg, states[i], steps[i], states[i + 1])
  }

  // ---------------------------------------------------------------- what a poll may change

  function EntriesAt(inputs: seq<ChainInput>, ci: nat, k: nat): seq<Entry>
    requires ci < |inputs| && k < |inputs[ci].replies| && Readable(inputs[ci].replies[k])
  {
    EntriesOf(AllReports(inputs[ci].replies[k]))
  }

  function ThresholdAt(cfg: Config, inputs: seq<ChainInput>, ci: nat, k: nat): int
    requires ci < |inputs| && k < |inputs[ci].replies|
  {
    Threshold(|inputs[ci].replies[k]|, cfg.quorum)
  }

  function DecisionAt(cfg: Config, inputs: seq<ChainInput>, ci: nat, k: nat, m: nat): Decision
    requires ci < |inputs| && k < |inputs[ci].replies| && Readable(inputs[ci].replies[k])
    requires m < |EntriesAt(inputs, ci, k)|
  {
    Decide(EntriesAt(inputs, ci, k)[m].observations, ThresholdAt(cfg, inputs, ci, k))
  }

  /** The scan of token `k` of chain `ci` has a quorum of readable replies. */
  predicate Scanned(cfg: Config, inputs: seq<ChainInput>, ci: nat, k: nat) {
    && FitsConfig(cfg, inputs) && ci < |inputs| && k < |inputs[ci].replies|
    && Readable(inputs[ci].replies[k]) && Responded(inputs[ci].replies[k]) >= ThresholdAt(cfg, inputs, ci, k)
  }

  /** The endpoints agree on log `m` of that token. */
  predicate AgreedAt(cfg: Config, inputs: seq<ChainInput>, ci: nat, k: nat, m: nat) {
    && Scanned(cfg, inputs, ci, k) && m < |EntriesAt(inputs, ci, k)|
    && DecisionAt(cfg, inputs, ci, k, m).Agreed?
  }

  /** The invoice has not expired when it is listed and not even when it is filtered. */
  predicate InTime(input: ChainInput, inv: Invoice) {
    input.listedAt < inv.expiresAt && input.filteredAt(inv.id) <= inv.expiresAt
  }

  /** They agree on a payment of invoice `inv`: its chain, token and exact amount, deep enough and in time. */
  predicate BackedAt(cfg: Config, inputs: seq<ChainInput>, ci: nat, k: nat, m: nat, inv: Invoice) {
    && AgreedAt(cfg, inputs, ci, k, m)
    && var c, d := cfg.chains[ci], DecisionAt(cfg, inputs, ci, k, m);
       && inv.amount == Units(d.value) && d.confirmations >= c.minConfirmations
       && inv.chain == c.chain && Upper(inv.asset) == c.tokens[k].symbol
       && Lower(inv.address) == Lower(cfg.address) && InTime(inputs[ci], inv)
  }

  ghost predicate Backed(cfg: Config, inputs: seq<ChainInput>, inv: Invoice, txHash: Option<string>) {
    exists ci: nat, k: nat, m: nat ::
      BackedAt(cfg, inputs, ci, k, m, inv) && txHash == Some(EntriesAt(inputs, ci, k)[m].txHash)
  }

  /** The invoice expires between the moment it is listed and the moment it is checked. */
  predicate StaleAt(cfg: Config, inputs: seq<ChainInput>, ci: nat, inv: Invoice) {
    && FitsConfig(cfg, inputs) && ci < |inputs|
    && inv.chain == cfg.chains[ci].chain && Lower(inv.address) == Lower(cfg.address)
    && inputs[ci].listedAt < inv.expiresAt < inputs[ci].expiredAt(inv.id)
  }

  ghost predicate Stale(cfg: Config, inputs: seq<ChainInput>, inv: Invoice) {
    exists ci :: StaleAt(cfg, inputs, ci, inv)
  }

  /** A poll leaves a row alone, confirms it against a real payment, or expires it. */
  ghost predicate Justified(cfg: Config, inputs: seq<ChainInput>, a: Invoice, b: Invoice) {
    && b == a.(status := b.status, txHash := b.txHash)
    && (|| b == a
        || (&& b.status == Confirmed && (a.status == Pending || a.status == Confirmed)
            && Backed(cfg, inputs, a, b.txHash))
        || (b.status == Expired && a.status == Pending && b.txHash == a.txHash && Stale(cfg, inputs, a)))
  }

  predicate VotedAt(cfg: Config, inputs: seq<ChainInput>, ci: nat, k: nat, m: nat, ev: Event) {
    && AgreedAt(cfg, inputs, ci, k, m)
    && var c, e := cfg.chains[ci], EntriesAt(inputs, ci, k)[m];
       && ev.chain == c.chain && ev.key == SeenKey(c.tokens[k], e.key)
       && ev.body.txHash == e.txHash && ev.body.value == DecisionAt(cfg, inputs, ci, k, m).value
  }

  /** The event reports a transfer the endpoints agree on, by its hash and agreed value. */
  ghost predicate Voted(cfg: Config, inputs: seq<ChainInput>, ev: Event) {
    exists ci: nat, k: nat, m: nat :: VotedAt(cfg, inputs, ci, k, m, ev)
  }

  ghost predicate Advances(cfg: Config, inputs: seq<ChainInput>, s: State, s': State) {
    && |s'.rows| == |s.rows|
    && (forall r | 0 <= r < |s.rows| :: Justified(cfg, inputs, s.rows[r], s'.rows[r]))
    && s.events <= s'.events
    && (forall i | |s.events| <= i < |s'.events| :: Voted(cfg, inputs, s'.events[i]))
    && (EventsInv(s) ==> EventsInv(s'))
  }

  lemma JustifiedTransitive(cfg: Config, inputs: seq<ChainInput>, a: Invoice, b: Invoice,
                            c: Invoice)
    requires Justified(cfg, inputs, a, b) && Justified(cfg, inputs, b, c)
    ensures Justified(cfg, inputs, a, c)
  {
    hide Lower, Upper, DecisionAt, EntriesAt, Readable, Responded;
    if Backed(cfg, inputs, b, c.txHash) {
      var ci: nat, k: nat, m: nat :|
        BackedAt(cfg, inputs, ci, k, m, b) && c.txHash == Some(EntriesAt(inputs, ci, k)[m].txHash);
      assert BackedAt(cfg, inputs, ci, k, m, a);
    }
    if Stale(cfg, inputs, b) {
      var ci :| StaleAt(cfg, inputs, ci, b);
      assert StaleAt(cfg, inputs, ci, a);
    }
  }

  lemma AdvancesTransitive(cfg: Config, inputs: seq<ChainInput>, s: State, m: State,
                           s': State)
    requires Advances(cfg, inputs, s, m) && Advances(cfg, inputs, m, s')
    ensures Advances(cfg, inputs, s, s')
  {
    hide EventsInv, Justified, Voted;
    forall r | 0 <= r < |s.rows| ensures Justified(cfg, inputs, s.rows[r], s'.rows[r]) {
      JustifiedTransitive(cfg, inputs, s.rows[r], m.rows[r], s'.rows[r]);
    }
    forall i | |s.events| <= i < |s'.events| ensures Voted(cfg, inputs, s'.events[i]) {
      assert i < |m.events| ==> s'.events[i] == m.events[i];
    }
  }

  lemma AdvancesReflexive(cfg: Config, inputs: seq<ChainInput>, s: State)
    ensures Advances(cfg, inputs, s, s)
  {
    hide EventsInv;
  }

  // ---------------------------------------------------------------- one transfer

  predicate InScope(cfg: Config, c: ChainConfig, input: ChainInput, inv: Invoice) {
    inv.chain == c.chain && Lower(inv.address) == Lower(cfg.address) && InTime(input, inv)
  }

  predicate IsSnapshot(inv: Invoice, row: Invoice) {
    row == inv.(status := row.status, txHash := row.txHash) && (row.status == Pending || row.status == Confirmed)
  }

  /** The listed invoices are in scope, and the rows they name are still the same up to confirmation. */
  ghost predicate ActiveRows(cfg: Config, c: ChainConfig, input: ChainInput, rows: seq<Invoice>, active: seq<Invoice>) {
    forall a | 0 <= a < |active| ::
      && InScope(cfg, c, input, active[a])
      && forall r | 0 <= r < |rows| && rows[r].id == active[a].id :: IsSnapshot(active[a], rows[r])
  }

  lemma {:induction false} FindsActive(active: seq<Invoice>, value: int) returns (a: nat)
    ensures var m := FindByValue(active, value);
      m.Some? ==> a < |active| && m.value.0 == active[a] && active[a].amount == Units(value)
  {
    a := 0;
    if active != [] && FindByValue(active, value).Some? {
      var nonce := MatchAmount(value, BaseOf(value));
      if active[0].amount != Units(value) || nonce.None? || nonce.value <= 0 {
        var b := FindsActive(active[1..], value);
        a := b + 1;
      }
    }
  }

  lemma EventAppended(st: State, rows: seq<Invoice>, chain: string, key: string, body: Webhook)
    requires EventsInv(st) && key !in SeenFor(st.seen, chain)
    ensures EventsInv(State(rows, st.events + [Event(chain, key, body)],
                            st.seen[chain := SeenFor(st.seen, chain) + {key}]))
  {
    var next := State(rows, st.events + [Event(chain, key, body)], st.seen[chain := SeenFor(st.seen, chain) + {key}]);
    forall ch, q | q in SeenFor(next.seen, ch) ensures Decided(next.events, ch, q) {
      if ch == chain && q == key {
        assert next.events[|st.events|] == Event(chain, key, body);
      } else {
        assert Decided(st.events, ch, q);
        var i :| 0 <= i < |st.events| && st.events[i].chain == ch && st.events[i].key == q;
        assert next.events[i] == st.events[i];
      }
    }
  }

  /** Active invoices of one chain that expect this token. */
  ghost predicate TokenRows(cfg: Config, inputs: seq<ChainInput>, ci: nat, k: nat, rows: seq<Invoice>,
                            active: seq<Invoice>)
    requires FitsConfig(cfg, inputs) && ci < |inputs| && k < |cfg.chains[ci].tokens|
  {
    && ActiveRows(cfg, cfg.chains[ci], inputs[ci], rows, active)
    && forall a | 0 <= a < |active| :: Upper(active[a].asset) == cfg.chains[ci].tokens[k].symbol
  }

  lemma ConfirmRow(cfg: Config, inputs: seq<ChainInput>, ci: nat, k: nat, m: nat, rows: seq<Invoice>,
                   active: seq<Invoice>, a: nat)
    requires AgreedAt(cfg, inputs, ci, k, m) && TokenRows(cfg, inputs, ci, k, rows, active) && a < |active|
    requires var d := DecisionAt(cfg, inputs, ci, k, m);
      active[a].amount == Units(d.value) && d.confirmations >= cfg.chains[ci].minConfirmations
    ensures var after := Update(rows, active[a].id, Confirmed, Some(EntriesAt(inputs, ci, k)[m].txHash));
      && TokenRows(cfg, inputs, ci, k, after, active)
      && forall r | 0 <= r < |rows| :: Justified(cfg, inputs, rows[r], after[r])
  {
    hide Readable, Responded, DecisionAt, EntriesAt, Upper, Lower;
    var after := Update(rows, active[a].id, Confirmed, Some(EntriesAt(inputs, ci, k)[m].txHash));
    forall r | 0 <= r < |rows| ensures Justified(cfg, inputs, rows[r], after[r]) {
      if rows[r].id == active[a].id {
        assert IsSnapshot(active[a], rows[r]);
        assert BackedAt(cfg, inputs, ci, k, m, rows[r]);
      }
    }
    forall b, r | 0 <= b < |active| && 0 <= r < |rows| && after[r].id == active[b].id
      ensures IsSnapshot(active[b], after[r])
    {
      assert rows[r].id == active[b].id;
      assert IsSnapshot(active[b], rows[r]);
    }
  }

  /** Deciding one entry advances the state, whatever the verdict. */
  lemma EntryAdvances(cfg: Config, inputs: seq<ChainInput>, ci: nat, k: nat, s: State, active: seq<Invoice>, m: nat)
    requires Scanned(cfg, inputs, ci, k) && TokenRows(cfg, inputs, ci, k, s.rows, active)
    requires m < |EntriesAt(inputs, ci, k)|
    ensures var c := cfg.chains[ci];
      var s' := HandleEntry(s, c, c.tokens[k], active, EntriesAt(inputs, ci, k)[m], ThresholdAt(cfg, inputs, ci, k));
      Advances(cfg, inputs, s, s') && TokenRows(cfg, inputs, ci, k, s'.rows, active)
  {
    hide EntriesOf, AllReports, Readable, Responded, Decide, FindByValue, TokenRows, Justified, Voted, Update,
         EventsInv, SeenFor, SeenKey;
    var c := cfg.chains[ci];
    var token, e, threshold := c.tokens[k], EntriesAt(inputs, ci, k)[m], ThresholdAt(cfg, inputs, ci, k);
    var s' := HandleEntry(s, c, token, active, e, threshold);
    var d := Decide(e.observations, threshold);
    AdvancesReflexive(cfg, inputs, s);
    if SeenKey(token, e.key) !in SeenFor(s.seen, c.chain) && d.Agreed? {
      var v := Judge(active, e.observations, threshold, c.minConfirmations);
      if v.Wait? {
      } else {
        var ev := s'.events[|s.events|];
        assert Voted(cfg, inputs, ev) by {
          VotedOf(cfg, inputs, ci, k, m, ev);
        }
        if EventsInv(s) {
          EventAppended(s, s'.rows, c.chain, SeenKey(token, e.key), ev.body);
        }
        if v.Confirm? {
          var a := FindsActive(active, d.value);
          ConfirmRow(cfg, inputs, ci, k, m, s.rows, active, a);
        } else {
          RowsUnchanged(cfg, inputs, s.rows);
        }
      }
    }
  }

  lemma VotedOf(cfg: Config, inputs: seq<ChainInput>, ci: nat, k: nat, m: nat, ev: Event)
    requires VotedAt(cfg, inputs, ci, k, m, ev)
    ensures Voted(cfg, inputs, ev)
  {
  }

  lemma RowsUnchanged(cfg: Config, inputs: seq<ChainInput>, rows: seq<Invoice>)
    ensures forall r | 0 <= r < |rows| :: Justified(cfg, inputs, rows[r], rows[r])
  {
    hide Backed, Stale;
  }

  // ---------------------------------------------------------------- from one transfer to a whole poll

  lemma {:induction false} EntriesAdvance(cfg: Config, inputs: seq<ChainInput>, ci: nat,
                                          k: nat,
                                          s: State, active: seq<Invoice>, n: nat)
    requires Scanned(cfg, inputs, ci, k) && TokenRows(cfg, inputs, ci, k, s.rows, active)
    requires n <= |EntriesAt(inputs, ci, k)|
    ensures var c := cfg.chains[ci];
      var s' := HandleAll(s, c, c.tokens[k], active, EntriesAt(inputs, ci, k)[..n], ThresholdAt(cfg, inputs, ci, k));
      Advances(cfg, inputs, s, s') && TokenRows(cfg, inputs, ci, k, s'.rows, active)
  {
    hide EntriesOf, AllReports, Readable, TokenRows, Advances, HandleEntry;
    AdvancesReflexive(cfg, inputs, s);
    if n > 0 {
      var c := cfg.chains[ci];
      var entries, threshold := EntriesAt(inputs, ci, k), ThresholdAt(cfg, inputs, ci, k);
      EntriesAdvance(cfg, inputs, ci, k, s, active, n - 1);
      var m := HandleAll(s, c, c.tokens[k], active, entries[..n - 1], threshold);
      EntryAdvances(cfg, inputs, ci, k, m, active, n - 1);
      assert entries[..n][..n - 1] == entries[..n - 1];
      AdvancesTransitive(cfg, inputs, s, m, HandleEntry(m, c, c.tokens[k], active, entries[n - 1], threshold));
    }
  }

  lemma ForTokenRows(cfg: Config, inputs: seq<ChainInput>, ci: nat, k: nat, rows: seq<Invoice>, active: seq<Invoice>)
    requires FitsConfig(cfg, inputs) && ci < |inputs| && k < |cfg.chains[ci].tokens|
    requires ActiveRows(cfg, cfg.chains[ci], inputs[ci], rows, active)
    ensures TokenRows(cfg, inputs, ci, k, rows, ForToken(active, cfg.chains[ci].tokens[k]))
  {
    hide Lower, Upper, IsSnapshot;
    var token := cfg.chains[ci].tokens[k];
    var mine := ForToken(active, token);
    FilterMember(active, (inv: Invoice) => Upper(inv.asset) == token.symbol);
    forall a | 0 <= a < |mine|
      ensures InScope(cfg, cfg.chains[ci], inputs[ci], mine[a]) && Upper(mine[a].asset) == token.symbol
      ensures forall r | 0 <= r < |rows| && rows[r].id == mine[a].id :: IsSnapshot(mine[a], rows[r])
    {
      assert mine[a] in mine;
      var b :| 0 <= b < |active| && active[b] == mine[a];
    }
  }

  /** What a scan leaves of the active rows: confirmed or as before, for every token's list. */
  lemma ActiveRowsKept(cfg: Config, inputs: seq<ChainInput>, ci: nat,
                       s: State, s': State, active: seq<Invoice>)
    requires Advances(cfg, inputs, s, s') && FitsConfig(cfg, inputs) && ci < |inputs|
    requires ActiveRows(cfg, cfg.chains[ci], inputs[ci], s.rows, active)
    requires forall r | 0 <= r < |s.rows| :: s'.rows[r].status == s.rows[r].status || s'.rows[r].status == Confirmed
    ensures ActiveRows(cfg, cfg.chains[ci], inputs[ci], s'.rows, active)
  {
    hide EventsInv, Voted, Backed, Stale, InScope;
    forall a, r | 0 <= a < |active| && 0 <= r < |s'.rows| && s'.rows[r].id == active[a].id
      ensures IsSnapshot(active[a], s'.rows[r])
    {
      assert Justified(cfg, inputs, s.rows[r], s'.rows[r]);
      assert IsSnapshot(active[a], s.rows[r]);
    }
  }

  /** A token scan never expires a row. */
  lemma {:induction false} ScanOnlyConfirms(s: State, c: ChainConfig, token: Token, active: seq<Invoice>,
                                            entries: seq<Entry>, threshold: int)
    ensures var s' := HandleAll(s, c, token, active, entries, threshold);
      && |s'.rows| == |s.rows|
      && forall r | 0 <= r < |s.rows| :: s'.rows[r].status == s.rows[r].status || s'.rows[r].status == Confirmed
  {
    hide Judge, SeenKey, SeenFor;
    if entries != [] {
      ScanOnlyConfirms(s, c, token, active, entries[..|entries| - 1], threshold);
    }
  }

  lemma TokenAdvances(cfg: Config, inputs: seq<ChainInput>, ci: nat, k: nat, s: State,
                      active: seq<Invoice>)
    requires FitsConfig(cfg, inputs) && ci < |inputs| && k < |cfg.chains[ci].tokens|
    requires ActiveRows(cfg, cfg.chains[ci], inputs[ci], s.rows, active)
    ensures var c := cfg.chains[ci];
      var s' := ScanToken(s, c, c.tokens[k], ForToken(active, c.tokens[k]), inputs[ci].replies[k], cfg.quorum).0;
      Advances(cfg, inputs, s, s') && ActiveRows(cfg, c, inputs[ci], s'.rows, active)
  {
    hide EntriesOf, AllReports, Readable, TokenRows, Advances, HandleAll, ActiveRows;
    AdvancesReflexive(cfg, inputs, s);
    if Scanned(cfg, inputs, ci, k) {
      var c := cfg.chains[ci];
      var entries, threshold := EntriesAt(inputs, ci, k), ThresholdAt(cfg, inputs, ci, k);
      ForTokenRows(cfg, inputs, ci, k, s.rows, active);
      EntriesAdvance(cfg, inputs, ci, k, s, ForToken(active, c.tokens[k]), |entries|);
      assert entries[..|entries|] == entries;
      var s' := HandleAll(s, c, c.tokens[k], ForToken(active, c.tokens[k]), entries, threshold);
      ScanOnlyConfirms(s, c, c.tokens[k], ForToken(active, c.tokens[k]), entries, threshold);
      ActiveRowsKept(cfg, inputs, ci, s, s', active);
    }
  }

  lemma {:induction false} TokensAdvance(cfg: Config, inputs: seq<ChainInput>, ci: nat,
                                         s: State, active: seq<Invoice>, n: nat)
    requires FitsConfig(cfg, inputs) && ci < |inputs| && n <= |cfg.chains[ci].tokens|
    requires ActiveRows(cfg, cfg.chains[ci], inputs[ci], s.rows, active)
    ensures var s' := ScanTokens(s, cfg.chains[ci], active, inputs[ci].replies, cfg.quorum, n).0;
      Advances(cfg, inputs, s, s') && ActiveRows(cfg, cfg.chains[ci], inputs[ci], s'.rows, active)
  {
    hide Advances, ActiveRows, ScanToken, ForToken;
    AdvancesReflexive(cfg, inputs, s);
    if n > 0 {
      var c := cfg.chains[ci];
      TokensAdvance(cfg, inputs, ci, s, active, n - 1);
      var before := ScanTokens(s, c, active, inputs[ci].replies, cfg.quorum, n - 1);
      if before.1 != Threw {
        TokenAdvances(cfg, inputs, ci, n - 1, before.0, active);
        AdvancesTransitive(cfg, inputs, s, before.0,
          ScanToken(before.0, c, c.tokens[n - 1], ForToken(active, c.tokens[n - 1]), inputs[ci].replies[n - 1],
            cfg.quorum).0);
      }
    }
  }

  // ---------------------------------------------------------------- listing and expiry

  lemma PendingMember(rows: seq<Invoice>, address: string, chain: string, listedAt: int)
    ensures forall inv :: inv in PendingForChain(rows, address, chain, listedAt) <==>
      inv in rows && IsListed(inv, chain, listedAt) && Lower(inv.address) == Lower(address)
  {
    hide Lower;
    ListedMember(rows, chain, listedAt);
    FilterMember(ListPending(rows, chain, listedAt), (inv: Invoice) => Lower(inv.address) == Lower(address));
  }

  lemma UnexpiredMember(pending: seq<Invoice>, clock: Clock)
    ensures forall inv :: inv in Unexpired(pending, clock) <==> inv in pending && !IsExpired(inv, clock)
  {
    FilterMember(pending, (inv: Invoice) => !IsExpired(inv, clock));
  }

  lemma {:induction false} ExpireEffect(rows: seq<Invoice>, pending: seq<Invoice>, clock: Clock)
    requires UniqueIds(rows) && forall inv | inv in pending :: inv in rows
    ensures var after := ExpireStale(rows, pending, clock);
      forall r | 0 <= r < |rows| ::
        after[r] == if rows[r] in pending && IsExpired(rows[r], clock) then rows[r].(status := Expired) else rows[r]
  {
    if pending != [] {
      var n := |pending| - 1;
      var inv := pending[n];
      assert pending == pending[..n] + [inv];
      assert forall x | x in pending[..n] :: x in pending;
      ExpireEffect(rows, pending[..n], clock);
      assert inv in pending;
      var q :| 0 <= q < |rows| && rows[q] == inv;
      var before, after := ExpireStale(rows, pending[..n], clock), ExpireStale(rows, pending, clock);
      forall r | 0 <= r < |rows|
        ensures after[r]
             == if rows[r] in pending && IsExpired(rows[r], clock) then rows[r].(status := Expired) else rows[r]
      {
        assert before[r].id == rows[r].id;
        assert rows[r].id == inv.id ==> r == q;
      }
    }
  }

  lemma ExpiryAdvances(cfg: Config, inputs: seq<ChainInput>, ci: nat, s: State)
    requires FitsConfig(cfg, inputs) && ci < |inputs| && UniqueIds(s.rows)
    requires Timed(inputs[ci])
    ensures var c, input := cfg.chains[ci], inputs[ci];
      var pending := PendingForChain(s.rows, cfg.address, c.chain, input.listedAt);
      var s' := s.(rows := ExpireStale(s.rows, pending, input.expiredAt));
      Advances(cfg, inputs, s, s') && ActiveRows(cfg, c, input, s'.rows, Unexpired(pending, input.filteredAt))
  {
    hide Lower, PendingForChain, Unexpired, ExpireStale, Backed, Voted;
    var c, input := cfg.chains[ci], inputs[ci];
    var pending := PendingForChain(s.rows, cfg.address, c.chain, input.listedAt);
    PendingMember(s.rows, cfg.address, c.chain, input.listedAt);
    ExpireEffect(s.rows, pending, input.expiredAt);
    var s' := s.(rows := ExpireStale(s.rows, pending, input.expiredAt));
    forall r | 0 <= r < |s.rows| ensures Justified(cfg, inputs, s.rows[r], s'.rows[r]) {
      if s'.rows[r] != s.rows[r] {
        assert StaleAt(cfg, inputs, ci, s.rows[r]);
      }
    }
    var active := Unexpired(pending, input.filteredAt);
    UnexpiredMember(pending, input.filteredAt);
    forall a | 0 <= a < |active|
      ensures InScope(cfg, c, input, active[a])
      ensures forall r | 0 <= r < |s.rows| && s'.rows[r].id == active[a].id :: IsSnapshot(active[a], s'.rows[r])
    {
      assert active[a] in active;
      var q :| 0 <= q < |s.rows| && s.rows[q] == active[a];
      assert forall r | 0 <= r < |s.rows| && s.rows[r].id == active[a].id :: r == q;
    }
  }

  lemma ChainAdvances(cfg: Config, inputs: seq<ChainInput>, ci: nat, s: State)
    requires FitsConfig(cfg, inputs) && ci < |inputs| && UniqueIds(s.rows)
    requires Timed(inputs[ci])
    ensures Advances(cfg, inputs, s, PollChain(s, cfg, cfg.chains[ci], inputs[ci]).st)
  {
    hide Advances, ActiveRows, ScanTokens, PendingForChain, Unexpired, ExpireStale;
    var c, input := cfg.chains[ci], inputs[ci];
    ExpiryAdvances(cfg, inputs, ci, s);
    var pending := PendingForChain(s.rows, cfg.address, c.chain, input.listedAt);
    var m := s.(rows := ExpireStale(s.rows, pending, input.expiredAt));
    TokensAdvance(cfg, inputs, ci, m, Unexpired(pending, input.filteredAt), |c.tokens|);
    AdvancesTransitive(cfg, inputs, s, m, PollChain(s, cfg, c, input).st);
  }

  lemma AdvanceKeepsIds(cfg: Config, inputs: seq<ChainInput>, s: State, s': State)
    requires Advances(cfg, inputs, s, s') && UniqueIds(s.rows)
    ensures UniqueIds(s'.rows)
  {
    hide EventsInv, Voted, Backed, Stale;
    forall i, j | 0 <= i < j < |s'.rows| ensures s'.rows[i].id != s'.rows[j].id {
      assert Justified(cfg, inputs, s.rows[i], s'.rows[i]);
      assert Justified(cfg, inputs, s.rows[j], s'.rows[j]);
    }
  }

  lemma {:induction false} ChainsAdvance(cfg: Config, inputs: seq<ChainInput>, s: State,
                                         n: nat)
    requires FitsConfig(cfg, inputs) && n <= |inputs| && UniqueIds(s.rows)
    requires forall i | 0 <= i < |inputs| :: Timed(inputs[i])
    ensures Advances(cfg, inputs, s, PollChains(s, cfg, inputs, n).st)
  {
    hide Advances, PollChain, UniqueIds;
    AdvancesReflexive(cfg, inputs, s);
    if n > 0 {
      ChainsAdvance(cfg, inputs, s, n - 1);
      var m := PollChains(s, cfg, inputs, n - 1).st;
      AdvanceKeepsIds(cfg, inputs, s, m);
      ChainAdvances(cfg, inputs, n - 1, m);
      AdvancesTransitive(cfg, inputs, s, m, PollChain(m, cfg, cfg.chains[n - 1], inputs[n - 1]).st);
    }
  }

  /** Everything a poll does is justified by the chain and by the clock. */
  lemma PollAdvances(cfg: Config, inputs: seq<ChainInput>, s: State)
    requires FitsConfig(cfg, inputs) && UniqueIds(s.rows)
    requires forall i | 0 <= i < |inputs| :: Timed(inputs[i])
    ensures Advances(cfg, inputs, s, Poll(s, cfg, inputs))
  {
    hide Advances, PollChains, UniqueIds, IsHexAddress;
    AdvancesReflexive(cfg, inputs, s);
    ChainsAdvance(cfg, inputs, s, |inputs|);
  }

  // ---------------------------------------------------------------- invariants of every run

  lemma PollKeepsRows(cfg: Config, inputs: seq<ChainInput>, s: State, s': State, now: int,
                      later: int)
    requires Advances(cfg, inputs, s, s') && RowsInv(cfg, s.rows, now) && now <= later
    ensures RowsInv(cfg, s'.rows, later)
  {
    hide EventsInv, Voted, Backed, Stale, Lower, Upper;
    AdvanceKeepsIds(cfg, inputs, s, s');
    forall i | 0 <= i < |s.rows|
      ensures s'.rows[i] == s.rows[i].(status := s'.rows[i].status, txHash := s'.rows[i].txHash)
      ensures Active(s'.rows[i], later) ==> Active(s.rows[i], now)
      ensures OnWatchedChain(cfg, s'.rows[i]) <==> OnWatchedChain(cfg, s.rows[i])
    {
      assert Justified(cfg, inputs, s.rows[i], s'.rows[i]);
    }
  }

  lemma AppendKeepsRows(cfg: Config, rows: seq<Invoice>, inv: Invoice, now: int, later: int)
    requires RowsInv(cfg, rows, now) && now <= later && !HasId(rows, inv.id)
    requires OnWatchedChain(cfg, inv) ==> IsFixed(inv)
    requires IsFixed(inv) ==> Encoded(inv)
    requires IsFixed(inv) ==>
      forall r | r in rows && Active(r, later) && IsFixed(r) && SamePool(r, inv) :: r.amount != inv.amount
    ensures RowsInv(cfg, rows + [inv], later)
  {
    hide Lower, Upper, OnWatchedChain;
  }

  lemma NewRow(rows: seq<Invoice>, inv: Invoice)
    requires !HasId(rows, inv.id)
    ensures PutRow(rows, inv) == rows + [inv]
  {
  }

  lemma NextKeepsInv(cfg: Config, s: System, step: Step, s': System)
    requires Inv(cfg, s) && Next(cfg, s, step, s')
    ensures Inv(cfg, s')
  {
    hide RowsInv, EventsInv, Poll, Create, Active, SamePool, Encoded, Clocked, OnWatchedChain, Advances, UniqueIds,
         DistinctAmounts;
    match step
    case CreateFixed(p, env) =>
      if Create(s.st.rows, p, env).Ok? {
        CreateKeepsRows(cfg, s.st.rows, p, env, s.now, s'.now);
        NewRow(s.st.rows, Create(s.st.rows, p, env).value);
      } else {
        RowsLater(cfg, s.st.rows, s.now, s'.now);
      }
      SameEvents(s.st, s'.st);
    case CreateDerived(inv) =>
      NewRow(s.st.rows, inv);
      AppendKeepsRows(cfg, s.st.rows, inv, s.now, s'.now);
      SameEvents(s.st, s'.st);
    case PollAll(inputs) =>
      PollKeepsInv(cfg, inputs, s, s');
    case ReadInvoice(id, at) =>
      ReadKeepsRows(cfg, s.st.rows, id, at, s.now, s'.now);
      SameEvents(s.st, s'.st);
    case Wait =>
      RowsLater(cfg, s.st.rows, s.now, s'.now);
  }

  lemma ReadEffect(rows: seq<Invoice>, id: string, at: int)
    requires UniqueIds(rows)
    ensures |Read(rows, id, at)| == |rows|
    ensures forall r | 0 <= r < |rows| ::
      Read(rows, id, at)[r]
      == if rows[r].id == id && rows[r].status == Pending && rows[r].expiresAt < at then rows[r].(status := Expired)
         else rows[r]
  {
    if exists i :: 0 <= i < |rows| && Lapsed(rows[i], id, at) {
      var i :| 0 <= i < |rows| && Lapsed(rows[i], id, at);
      assert forall r | 0 <= r < |rows| && rows[r].id == id :: r == i;
    }
  }

  lemma ReadKeepsRows(cfg: Config, rows: seq<Invoice>, id: string, at: int, now: int, later: int)
    requires RowsInv(cfg, rows, now) && now <= later
    ensures RowsInv(cfg, Read(rows, id, at), later)
  {
    hide Lower, Upper, Read, Lapsed;
    ReadEffect(rows, id, at);
    var after := Read(rows, id, at);
    forall r | 0 <= r < |rows| ensures OnWatchedChain(cfg, after[r]) <==> OnWatchedChain(cfg, rows[r]) {
      assert after[r].chain == rows[r].chain;
    }
  }

  /** What a step other than a poll does to a row: nothing, unless it reads the invoice past its expiry. */
  function WithoutPoll(step: Step, inv: Invoice): Invoice {
    if step.ReadInvoice? && Lapsed(inv, step.id, step.at) then inv.(status := Expired) else inv
  }

  /** Every step but a poll adds a row, expires the one it reads, or does nothing. */
  lemma OtherSteps(cfg: Config, s: System, step: Step, s': System)
    requires Inv(cfg, s) && Next(cfg, s, step, s') && !step.PollAll?
    ensures |s.st.rows| <= |s'.st.rows| && s'.st.events == s.st.events && s'.st.seen == s.st.seen
    ensures forall r | 0 <= r < |s.st.rows| :: s'.st.rows[r] == WithoutPoll(step, s.st.rows[r])
  {
    hide Create, OnWatchedChain, Read, EventsInv, DistinctAmounts, Encoded;
    match step
    case ReadInvoice(id, at) => ReadEffect(s.st.rows, id, at);
    case CreateFixed(p, env) =>
      if Create(s.st.rows, p, env).Ok? {
        CreatedId(s.st.rows, p, env);
        NewRow(s.st.rows, Create(s.st.rows, p, env).value);
      }
    case CreateDerived(inv) => NewRow(s.st.rows, inv);
    case _ =>
  }

  lemma CreatedId(rows: seq<Invoice>, p: Params, env: Env)
    requires Create(rows, p, env).Ok?
    ensures Create(rows, p, env).value.id == env.id
  {
  }

  lemma RowsLater(cfg: Config, rows: seq<Invoice>, now: int, later: int)
    requires RowsInv(cfg, rows, now) && now <= later
    ensures RowsInv(cfg, rows, later)
  {
    hide Lower, Upper, OnWatchedChain;
  }

  lemma SameEvents(s: State, s': State)
    requires EventsInv(s) && s'.events == s.events && s'.seen == s.seen
    ensures EventsInv(s')
  {
  }

  lemma CreateKeepsRows(cfg: Config, rows: seq<Invoice>, p: Params, env: Env, now: int, later: int)
    requires RowsInv(cfg, rows, now) && now <= env.now <= env.listedAt <= later && !HasId(rows, env.id)
    requires Create(rows, p, env).Ok?
    ensures RowsInv(cfg, rows + [Create(rows, p, env).value], later) && Create(rows, p, env).value.id == env.id
  {
    hide Lower, Upper, OnWatchedChain, Create;
    CreateIsDistinct(rows, p, env);
    AppendKeepsRows(cfg, rows, Create(rows, p, env).value, now, later);
  }

  lemma PollKeepsInv(cfg: Config, inputs: seq<ChainInput>, s: System, s': System)
    requires Inv(cfg, s) && FitsConfig(cfg, inputs) && Clocked(inputs, s.now, s'.now)
    requires s'.st == Poll(s.st, cfg, inputs)
    ensures Inv(cfg, s') && Advances(cfg, inputs, s.st, s'.st)
  {
    hide DistinctAmounts, EventsInv, OnWatchedChain, Encoded, Justified, Voted, Poll;
    PollAdvances(cfg, inputs, s.st);
    PollKeepsRows(cfg, inputs, s.st, s'.st, s.now, s'.now);
  }

  lemma {:induction false} RunKeepsInv(cfg: Config, states: seq<System>, steps: seq<Step>, i: nat)
    requires Run(cfg, states, steps) && i < |states|
    ensures Inv(cfg, states[i])
  {
    hide RowsInv, Next;
    if i > 0 {
      RunKeepsInv(cfg, states, steps, i - 1);
      NextKeepsInv(cfg, states[i - 1], steps[i - 1], states[i]);
    }
  }
}
