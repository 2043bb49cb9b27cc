/**
 The in-memory payment log: newest first, at most a thousand entries, with an index of the retained onramp
 payments by external transaction id that makes re-delivered completions idempotent.
 */
module PaymentLog {
  import opened Results
  import opened Numerals

  const MAX_RETAINED := 1000

  datatype X402Details = X402Details(
    feePayer: string,
    signers: seq<string>,
    signatures: seq<string>,
    recentBlockhash: string,
    version: Option<nat>,
    transactionBytes: nat)

  datatype OnrampDetails = OnrampDetails(
    externalTransactionId: string,
    baseAmount: real,
    baseCurrency: string,
    quoteAmount: real,
    quoteCurrency: string,
    walletAddress: string)

  datatype Payload = X402(x402: X402Details) | Onramp(onramp: OnrampDetails)
  datatype Record = Record(id: string, acceptedAt: nat, payload: Payload)

  /** MoonPay is the only provider. */
  function DedupeKey(externalTransactionId: string): string {
    "moonpay:" + externalTransactionId
  }

  function KeyOf(r: Record): string
    requires r.payload.Onramp?
  {
    DedupeKey(r.payload.onramp.externalTransactionId)
  }

  function IdOf(acceptedAt: nat, sequence: nat): string {
    Numeral(acceptedAt, 36) + "-" + Numeral(sequence, 36)
  }

  // ---------------------------------------------------------------- the log as a value

  datatype Log = Log(entries: seq<Record>, index: map<string, Record>, sequence: nat)

  const EMPTY := Log([], map[], 0)

  function Min(a: nat, b: nat): nat { if a < b then a else b }

  /** Forgets the dropped onramp entries. */
  function Forget(index: map<string, Record>, dropped: seq<Record>): map<string, Record> {
    if dropped == [] then index
    else
      var before, r := Forget(index, dropped[..|dropped| - 1]), dropped[|dropped| - 1];
      if r.payload.Onramp? then before - {KeyOf(r)} else before
  }

  function Retained(entries: seq<Record>): seq<Record> {
    if |entries| > MAX_RETAINED then entries[..MAX_RETAINED] else entries
  }

  function Dropped(entries: seq<Record>): seq<Record> {
    if |entries| > MAX_RETAINED then entries[MAX_RETAINED..] else []
  }

  function NewRecord(log: Log, payload: Payload, now: nat): Record {
    Record(IdOf(now, log.sequence + 1), now, payload)
  }

  function Append(log: Log, payload: Payload, now: nat): Log {
    var entries := [NewRecord(log, payload, now)] + log.entries;
    Log(Retained(entries), Forget(log.index, Dropped(entries)), log.sequence + 1)
  }

  /** The new log and the record handed to the caller. */
  function Apply(log: Log, payload: Payload, now: nat): (Log, Record) {
    var r := NewRecord(log, payload, now);
    match payload
    case X402(_) => (Append(log, payload, now), r)
    case Onramp(d) =>
      var key := DedupeKey(d.externalTransactionId);
      if key in log.index then (log, log.index[key])
      else
        var next := Append(log, payload, now);
        (next.(index := next.index[key := r]), r)
  }

  /** Linear search for an onramp payment. */
  function FindOnramp(entries: seq<Record>, externalTransactionId: string): Option<Record> {
    if entries == [] then None
    else if entries[0].payload.Onramp? && entries[0].payload.onramp.externalTransactionId == externalTransactionId then
      Some(entries[0])
    else FindOnramp(entries[1..], externalTransactionId)
  }

  // ---------------------------------------------------------------- invariants

  /** Entry `i` is the one appended `i` appends ago; its id carries that sequence number. */
  ghost predicate Numbered(log: Log) {
    && |log.entries| == Min(log.sequence, MAX_RETAINED)
    && forall i | 0 <= i < |log.entries| :: log.entries[i].id == IdOf(log.entries[i].acceptedAt, log.sequence - i)
  }

  predicate HasKey(r: Record, key: string) {
    r.payload.Onramp? && KeyOf(r) == key
  }

  ghost predicate DistinctKeys(entries: seq<Record>) {
    forall i, j | 0 <= i < j < |entries| && entries[i].payload.Onramp? :: !HasKey(entries[j], KeyOf(entries[i]))
  }

  predicate Indexed(entries: seq<Record>, key: string) {
    exists i :: 0 <= i < |entries| && HasKey(entries[i], key)
  }

  /** The index is exactly the map of retained onramp entries. */
  ghost predicate IndexFits(entries: seq<Record>, index: map<string, Record>) {
    && (forall i | 0 <= i < |entries| && entries[i].payload.Onramp? ::
          KeyOf(entries[i]) in index && index[KeyOf(entries[i])] == entries[i])
    && (forall key | key in index :: Indexed(entries, key))
  }

  ghost predicate Valid(log: Log) {
    Numbered(log) && DistinctKeys(log.entries) && IndexFits(log.entries, log.index)
  }

  lemma {:induction false} DashSplit(a: string, b: string, c: string, d: string)
    requires IsNumeral(a, 36) && IsNumeral(c, 36) && a + "-" + b == c + "-" + d
    ensures a == c && b == d
  {
    var s := a + "-" + b;
    assert s[|a|] == '-' && s[|c|] == '-';
    assert forall m | 0 <= m < |a| :: s[m] == a[m] != '-';
    assert forall m | 0 <= m < |c| :: s[m] == c[m] != '-';
    assert a == s[..|a|] && c == s[..|c|] && b == s[|a| + 1..] && d == s[|c| + 1..];
  }

  /** An id determines its time and its sequence number. */
  lemma IdInjective(t: nat, m: nat, u: nat, n: nat)
    requires IdOf(t, m) == IdOf(u, n)
    ensures t == u && m == n
  {
    hide Numeral, IsNumeral;
    ParsePrinted(t, 36);
    ParsePrinted(u, 36);
    DashSplit(Numeral(t, 36), Numeral(m, 36), Numeral(u, 36), Numeral(n, 36));
    NumeralInjective(t, u, 36);
    NumeralInjective(m, n, 36);
  }

  /** No two retained entries share an id, whatever the clock did. */
  lemma IdsAreUnique(log: Log, i: nat, j: nat)
    requires Valid(log) && i < j < |log.entries|
    ensures log.entries[i].id != log.entries[j].id
  {
    hide IdOf, DistinctKeys, IndexFits;
    if log.entries[i].id == log.entries[j].id {
      IdInjective(log.entries[i].acceptedAt, log.sequence - i, log.entries[j].acceptedAt, log.sequence - j);
    }
  }

  lemma {:induction false} ForgetsDropped(index: map<string, Record>, dropped: seq<Record>)
    ensures forall key :: key in Forget(index, dropped) <==> key in index && !Indexed(dropped, key)
    ensures forall key | key in Forget(index, dropped) :: Forget(index, dropped)[key] == index[key]
  {
    if dropped != [] {
      var n := |dropped| - 1;
      ForgetsDropped(index, dropped[..n]);
      forall key ensures Indexed(dropped, key) <==> Indexed(dropped[..n], key) || HasKey(dropped[n], key) {
        if Indexed(dropped[..n], key) {
          var i :| 0 <= i < n && HasKey(dropped[..n][i], key);
          assert dropped[i] == dropped[..n][i];
        }
        if Indexed(dropped, key) {
          var i :| 0 <= i < |dropped| && HasKey(dropped[i], key);
          assert i < n ==> dropped[..n][i] == dropped[i];
        }
      }
    }
  }

  lemma AppendIsNumbered(log: Log, payload: Payload, now: nat)
    requires Numbered(log)
    ensures Numbered(Append(log, payload, now)) && Append(log, payload, now).sequence == log.sequence + 1
    ensures forall i | 0 <= i < |Append(log, payload, now).entries| ::
      Append(log, payload, now).entries[i] == if i == 0 then NewRecord(log, payload, now) else log.entries[i - 1]
  {
    hide IdOf, Forget;
  }

  /** What an append drops is the old entry at the far end, if the log was full. */
  lemma DroppedEntries(log: Log, payload: Payload, now: nat)
    requires Numbered(log)
    ensures var dropped := Dropped([NewRecord(log, payload, now)] + log.entries);
      && |dropped| <= 1
      && (|log.entries| < MAX_RETAINED ==> dropped == [])
      && (|log.entries| == MAX_RETAINED ==> dropped == [log.entries[MAX_RETAINED - 1]])
  {
    hide IdOf;
  }

  /** Entries that leave take their keys along, entries that stay keep theirs. */
  lemma AppendKeepsIndex(log: Log, payload: Payload, now: nat)
    requires Valid(log)
    ensures var next := Append(log, payload, now);
      && (forall i | 0 < i < |next.entries| && next.entries[i].payload.Onramp? ::
            KeyOf(next.entries[i]) in next.index && next.index[KeyOf(next.entries[i])] == next.entries[i])
      && (forall key | key in next.index :: key in log.index && Indexed(next.entries, key))
  {
    hide IdOf, Forget, KeyOf, Dropped, NewRecord;
    var next := Append(log, payload, now);
    var dropped := Dropped([NewRecord(log, payload, now)] + log.entries);
    AppendIsNumbered(log, payload, now);
    DroppedEntries(log, payload, now);
    ForgetsDropped(log.index, dropped);
    forall i | 0 < i < |next.entries| && next.entries[i].payload.Onramp? ensures !Indexed(dropped,
      KeyOf(next.entries[i])) {
      assert next.entries[i] == log.entries[i - 1];
    }
    forall key | key in next.index ensures Indexed(next.entries, key) {
      assert !Indexed(dropped, key);
      var k :| 0 <= k < |log.entries| && HasKey(log.entries[k], key);
      assert dropped != [] ==> !HasKey(dropped[0], key);
      assert next.entries[k + 1] == log.entries[k];
    }
  }

  lemma AppendKeepsDistinct(log: Log, payload: Payload, now: nat)
    requires Valid(log)
    ensures var next := Append(log, payload, now);
      forall i, j | 0 < i < j < |next.entries| && next.entries[i].payload.Onramp? ::
        !HasKey(next.entries[j], KeyOf(next.entries[i]))
  {
    hide IdOf, Forget, KeyOf, HasKey, IndexFits, NewRecord;
    AppendIsNumbered(log, payload, now);
  }

  /** Every operation keeps the invariants. */
  lemma ApplyKeepsValid(log: Log, payload: Payload, now: nat)
    requires Valid(log)
    ensures Valid(Apply(log, payload, now).0)
  {
    hide IdOf, Append, KeyOf, DedupeKey;
    AppendIsNumbered(log, payload, now);
    AppendKeepsIndex(log, payload, now);
    AppendKeepsDistinct(log, payload, now);
    var next := Apply(log, payload, now).0;
    if next != log {
      FirstEntry(log, payload, now);
      forall key | key in next.index ensures Indexed(next.entries, key) {
        if key !in Append(log, payload, now).index {
          assert HasKey(next.entries[0], key);
        }
      }
      if payload.Onramp? {
        NewKey(log, DedupeKey(payload.onramp.externalTransactionId));
      }
    }
  }

  lemma NewKey(log: Log, key: string)
    requires Valid(log) && key !in log.index
    ensures forall i | 0 <= i < |log.entries| :: !HasKey(log.entries[i], key)
  {
  }

  lemma FirstEntry(log: Log, payload: Payload, now: nat)
    ensures var next := Append(log, payload, now);
      |next.entries| > 0 && next.entries[0] == NewRecord(log, payload, now)
    ensures payload.Onramp? ==> KeyOf(NewRecord(log, payload, now)) == DedupeKey(payload.onramp.externalTransactionId)
  {
  }

  /** The indexed lookup is the linear search over the retained entries. */
  lemma LookupIsLinearSearch(log: Log, externalTransactionId: string)
    requires Valid(log)
    ensures var key := DedupeKey(externalTransactionId);
      FindOnramp(log.entries, externalTransactionId) == if key in log.index then Some(log.index[key]) else None
  {
    SearchFinds(log.entries, externalTransactionId);
    var key := DedupeKey(externalTransactionId);
    if key in log.index {
      var i :| 0 <= i < |log.entries| && HasKey(log.entries[i], key);
      KeyInjective(log.entries[i].payload.onramp.externalTransactionId, externalTransactionId);
    }
  }

  lemma KeyInjective(a: string, b: string)
    requires DedupeKey(a) == DedupeKey(b)
    ensures a == b
  {
    assert DedupeKey(a)[8..] == a && DedupeKey(b)[8..] == b;
  }

  lemma {:induction false} SearchFinds(entries: seq<Record>, externalTransactionId: string)
    ensures var f := FindOnramp(entries, externalTransactionId);
      && (f.Some? ==> f.value in entries && HasKey(f.value, DedupeKey(externalTransactionId)))
      && (f.None? ==> forall i | 0 <= i < |entries| && entries[i].payload.Onramp? ::
            entries[i].payload.onramp.externalTransactionId != externalTransactionId)
  {
    if entries != [] {
      SearchFinds(entries[1..], externalTransactionId);
      assert entries == [entries[0]] + entries[1..];
    }
  }

  // ---------------------------------------------------------------- the log as an object

  class PaymentLog {
    var entries: seq<Record>
    var externalIndex: map<string, Record>
    var sequence: nat

    ghost function View(): Log
      reads this
    {
      Log(entries, externalIndex, sequence)
    }

    constructor ()
      ensures View() == EMPTY
    {
      entries, externalIndex, sequence := [], map[], 0;
    }

    method RecordX402(input: X402Details, now: nat) returns (r: Record)
      requires Valid(View())
      modifies this
      ensures (View(), r) == Apply(old(View()), X402(input), now) && Valid(View())
    {
      ApplyKeepsValid(View(), X402(input), now);
      r := AppendRecord(X402(input), now);
    }

    method RecordOnramp(input: OnrampDetails, now: nat) returns (r: Record)
      requires Valid(View())
      modifies this
      ensures (View(), r) == Apply(old(View()), Onramp(input), now) && Valid(View())
    {
      hide Append;
      ApplyKeepsValid(View(), Onramp(input), now);
      var dedupeKey := DedupeKey(input.externalTransactionId);
      if dedupeKey in externalIndex {
        return externalIndex[dedupeKey];
      }
      r := AppendRecord(Onramp(input), now);
      externalIndex := externalIndex[dedupeKey := r];
    }

    method AppendRecord(payload: Payload, now: nat) returns (r: Record)
      modifies this
      ensures View() == Append(old(View()), payload, now) && r == NewRecord(old(View()), payload, now)
    {
      hide IdOf;
      sequence := sequence + 1;
      r := Record(IdOf(now, sequence), now, payload);
      entries := [r] + entries;
      if |entries| > MAX_RETAINED {
        var dropped := entries[MAX_RETAINED..];
        entries := entries[..MAX_RETAINED];
        assert dropped[..0] == [];
        for i := 0 to |dropped|
          invariant externalIndex == Forget(old(externalIndex), dropped[..i])
          invariant entries == old(Retained([r] + entries)) && sequence == old(sequence) + 1
        {
          assert dropped[..i + 1][..i] == dropped[..i];
          if dropped[i].payload.Onramp? {
            externalIndex := externalIndex - {KeyOf(dropped[i])};
          }
        }
        assert dropped[..|dropped|] == dropped;
      }
    }

    method FindOnrampByExternalId(externalTransactionId: string) returns (r: Option<Record>)
      requires Valid(View())
      ensures r == FindOnramp(entries, externalTransactionId)
    {
      LookupIsLinearSearch(View(), externalTransactionId);
      var key := DedupeKey(externalTransactionId);
      return if key in externalIndex then Some(externalIndex[key]) else None;
    }
  }

  // ---------------------------------------------------------------- whole runs

  datatype Op = Op(payload: Payload, now: nat)

  /** The log after a run of operations on an empty log. */
  function After(ops: seq<Op>): Log {
    if ops == [] then EMPTY else Apply(After(ops[..|ops| - 1]), ops[|ops| - 1].payload, ops[|ops| - 1].now).0
  }

  lemma {:induction false} RunIsValid(ops: seq<Op>)
    ensures Valid(After(ops))
  {
    hide Apply, Valid;
    if ops == [] {
      EmptyIsValid();
    } else {
      var n := |ops| - 1;
      RunIsValid(ops[..n]);
      ApplyKeepsValid(After(ops[..n]), ops[n].payload, ops[n].now);
    }
  }

  lemma EmptyIsValid()
    ensures Valid(EMPTY)
  {
  }

  /** An operation appends one entry in front or changes nothing; entry `k` moves back by as much. */
  lemma ApplyShifts(log: Log, op: Op, k: nat)
    requires Valid(log)
    ensures var next := Apply(log, op.payload, op.now).0; var at := k + (next.sequence - log.sequence);
      && log.sequence <= next.sequence <= log.sequence + 1
      && (k < |log.entries| && at < MAX_RETAINED ==> at < |next.entries| && next.entries[at] == log.entries[k])
  {
    hide IdOf, Append, DistinctKeys, IndexFits, DedupeKey, NewRecord;
    AppendIsNumbered(log, op.payload, op.now);
    assert k < |log.entries| && k + 1 < MAX_RETAINED ==>
      Append(log, op.payload, op.now).entries[k + 1] == log.entries[k];
  }

  /** An entry stays, unchanged and in order, until a thousand newer ones are in front of it. */
  lemma {:induction false} EntriesShift(ops: seq<Op>, i: nat, j: nat, k: nat)
    requires i <= j <= |ops|
    requires k < |After(ops[..i]).entries| && k + (After(ops[..j]).sequence - After(ops[..i]).sequence) < MAX_RETAINED
    ensures After(ops[..i]).sequence <= After(ops[..j]).sequence
    ensures var at := k + (After(ops[..j]).sequence - After(ops[..i]).sequence);
      at < |After(ops[..j]).entries| && After(ops[..j]).entries[at] == After(ops[..i]).entries[k]
    decreases j - i
  {
    hide Apply, Valid;
    if i < j {
      assert ops[..j][..j - 1] == ops[..j - 1];
      RunIsValid(ops[..j - 1]);
      SequenceGrows(ops, i, j - 1);
      var at := k + (After(ops[..j - 1]).sequence - After(ops[..i]).sequence);
      ApplyShifts(After(ops[..j - 1]), ops[j - 1], at);
      EntriesShift(ops, i, j - 1, k);
    }
  }

  lemma {:induction false} SequenceGrows(ops: seq<Op>, i: nat, j: nat)
    requires i <= j <= |ops|
    ensures After(ops[..i]).sequence <= After(ops[..j]).sequence
    decreases j - i
  {
    hide Apply, Valid;
    if i < j {
      assert ops[..j][..j - 1] == ops[..j - 1];
      RunIsValid(ops[..j - 1]);
      ApplyShifts(After(ops[..j - 1]), ops[j - 1], 0);
      SequenceGrows(ops, i, j - 1);
    }
  }

  /** Re-delivering an onramp completion while its entry is retained returns that entry and changes nothing. */
  lemma RedeliveryIsIdempotent(log: Log, r: Record, again: OnrampDetails, now: nat)
    requires Valid(log) && r in log.entries && HasKey(r, DedupeKey(again.externalTransactionId))
    ensures Apply(log, Onramp(again), now) == (log, r)
  {
    hide IdOf, Append, Numbered, DistinctKeys;
    var i :| 0 <= i < |log.entries| && log.entries[i] == r;
  }

  /** The record of an append: what was submitted, when, and under the next number, in front of the log. */
  ghost predicate Appended(log: Log, payload: Payload, now: nat, next: Log, r: Record) {
    && r.payload == payload && r.acceptedAt == now
    && r.id == Numeral(now, 36) + "-" + Numeral(log.sequence + 1, 36)
    && next.sequence == log.sequence + 1 && next.entries == [r] + log.entries[..Min(|log.entries|, 999)]
  }

  /** An x402 payment is always recorded. */
  lemma X402Recorded(log: Log, details: X402Details, now: nat)
    ensures var (next, r) := Apply(log, X402(details), now);
      Appended(log, X402(details), now, next, r)
  {
    hide Forget, Numeral;
    FrontOfLog(log, X402(details), now);
  }

  lemma FrontOfLog(log: Log, payload: Payload, now: nat)
    ensures var next := Append(log, payload, now);
      next.entries == [NewRecord(log, payload, now)] + log.entries[..Min(|log.entries|, 999)]
  {
    hide Forget, IdOf;
    var entries := [NewRecord(log, payload, now)] + log.entries;
    assert |entries| > 1000 ==> entries[..1000] == [entries[0]] + log.entries[..999];
    assert log.entries[..|log.entries|] == log.entries;
  }

  /** A completion is answered from the log exactly when a search of the retained entries finds it; else it is new. */
  lemma AnsweredIff(log: Log, again: OnrampDetails, now: nat)
    requires Valid(log)
    ensures var (next, r) := Apply(log, Onramp(again), now);
      var found := FindOnramp(log.entries, again.externalTransactionId);
      && (next == log <==> found.Some?)
      && (found.Some? ==> r == found.value)
      && (found.None? ==> Appended(log, Onramp(again), now, next, r) && forall e | e in log.entries :: e.id != r.id)
  {
    hide Numeral, Forget, HasKey, DedupeKey;
    LookupIsLinearSearch(log, again.externalTransactionId);
    FrontOfLog(log, Onramp(again), now);
    if FindOnramp(log.entries, again.externalTransactionId).None? {
      NewIdIsFree(log, now);
    }
  }

  lemma NewIdIsFree(log: Log, now: nat)
    requires Numbered(log)
    ensures forall e | e in log.entries :: e.id != IdOf(now, log.sequence + 1)
  {
    hide IdOf;
    forall e | e in log.entries ensures e.id != IdOf(now, log.sequence + 1) {
      var i :| 0 <= i < |log.entries| && log.entries[i] == e;
      if e.id == IdOf(now, log.sequence + 1) {
        IdInjective(e.acceptedAt, log.sequence - i, now, log.sequence + 1);
      }
    }
  }

  /** The record a call returns is in the log afterwards. */
  lemma ResultIsRetained(log: Log, payload: Payload, now: nat)
    requires Valid(log)
    ensures var (next, r) := Apply(log, payload, now);
      r in next.entries && (payload.Onramp? ==> HasKey(r, DedupeKey(payload.onramp.externalTransactionId)))
  {
    hide IdOf, Append, Numbered, DistinctKeys;
    FirstEntry(log, payload, now);
  }

  /** What the caller of operation `i` was given. */
  function ResultAt(ops: seq<Op>, i: nat): Record
    requires i < |ops|
  {
    Apply(After(ops[..i]), ops[i].payload, ops[i].now).1
  }

  predicate Delivers(ops: seq<Op>, i: nat, externalTransactionId: string) {
    i < |ops| && ops[i].payload.Onramp? && ops[i].payload.onramp.externalTransactionId == externalTransactionId
  }

  /** The record of operation `i` was entry `k` right after it, and fewer than a thousand are in front of it at `j`. */
  predicate Kept(ops: seq<Op>, i: nat, j: nat, k: nat) {
    && i < j <= |ops|
    && k < |After(ops[..i + 1]).entries| && After(ops[..i + 1]).entries[k] == ResultAt(ops, i)
    && k + (After(ops[..j]).sequence - After(ops[..i + 1]).sequence) < MAX_RETAINED
  }

  /**
   Over every run: a completion delivered again before a thousand newer entries pushed its record out is
   answered with the record of the first delivery and leaves the log as it is.
   */
  lemma DeliveredOnce(ops: seq<Op>, i: nat, j: nat, k: nat, again: OnrampDetails, now: nat)
    requires Delivers(ops, i, again.externalTransactionId) && Kept(ops, i, j, k)
    ensures Apply(After(ops[..j]), Onramp(again), now) == (After(ops[..j]), ResultAt(ops, i))
  {
    hide Apply, Valid, HasKey;
    RunIsValid(ops[..i]);
    RunIsValid(ops[..j]);
    ResultIsRetained(After(ops[..i]), ops[i].payload, ops[i].now);
    EntriesShift(ops, i + 1, j, k);
    RedeliveryIsIdempotent(After(ops[..j]), ResultAt(ops, i), again, now);
  }

  /** The newest thousand appends, newest first: position in the log is age. */
  lemma NewestFirst(ops: seq<Op>)
    ensures var log := After(ops);
      && |log.entries| == Min(log.sequence, 1000)
      && (forall i | 0 <= i < |log.entries| ::
            log.entries[i].id == IdOf(log.entries[i].acceptedAt, log.sequence - i))
      && (forall i, j | 0 <= i < j < |log.entries| :: log.entries[i].id != log.entries[j].id)
  {
    hide IdOf, Apply, IndexFits, DistinctKeys;
    RunIsValid(ops);
    var log := After(ops);
    forall i, j | 0 <= i < j < |log.entries| ensures log.entries[i].id != log.entries[j].id {
      IdsAreUnique(log, i, j);
    }
  }

  /** Over every run the indexed lookup equals a linear search. */
  lemma LookupAlwaysAgrees(ops: seq<Op>, externalTransactionId: string)
    ensures var log, key := After(ops), DedupeKey(externalTransactionId);
      FindOnramp(log.entries, externalTransactionId) == if key in log.index then Some(log.index[key]) else None
  {
    hide Apply, Valid;
    RunIsValid(ops);
    LookupIsLinearSearch(After(ops), externalTransactionId);
  }
}
