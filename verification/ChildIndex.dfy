/**
 The shared child-index counter: every invoice creation of a merchant reads the counter of the merchant's
 primary chain and tries to advance it by compare-and-set, up to 512 times. Calls interleave freely
 between the read and the compare-and-set.
 */
module ChildIndex {
  import opened Results
  import Sets

  const MAX_CAS_ATTEMPTS: nat := 512

  datatype Kind = Btc | OtherChain
  datatype ChainRow = ChainRow(id: string, merchant: string, kind: Kind, next: nat)

  // ---------------------------------------------------------------- the chain table

  /** Position of a row by id; rows are kept in insertion order. */
  function RowAt(rows: seq<ChainRow>, id: string): (k: int)
    ensures -1 <= k < |rows|
    ensures k >= 0 ==> rows[k].id == id
    ensures k == -1 ==> forall j | 0 <= j < |rows| :: rows[j].id != id
  {
    if rows == [] then -1
    else if rows[|rows| - 1].id == id then |rows| - 1
    else RowAt(rows[..|rows| - 1], id)
  }

  /** The stored counter, or -1 when there is no such row. */
  function NextOf(rows: seq<ChainRow>, id: string): int {
    var k := RowAt(rows, id);
    if k < 0 then -1 else rows[k].next
  }

  function Put(rows: seq<ChainRow>, row: ChainRow): seq<ChainRow> {
    var k := RowAt(rows, row.id);
    if k < 0 then rows + [row] else rows[k := row]
  }

  function Cas(rows: seq<ChainRow>, id: string, expected: nat, next: nat): (seq<ChainRow>, bool) {
    var k := RowAt(rows, id);
    if k < 0 || rows[k].next != expected then (rows, false) else (rows[k := rows[k].(next := next)], true)
  }

  function ChainsOf(rows: seq<ChainRow>, merchant: string): seq<ChainRow> {
    if rows == [] then []
    else
      var last := rows[|rows| - 1];
      ChainsOf(rows[..|rows| - 1], merchant) + if last.merchant == merchant then [last] else []
  }

  function FirstBtc(rows: seq<ChainRow>): Option<ChainRow> {
    if rows == [] then None else if rows[0].kind == Btc then Some(rows[0]) else FirstBtc(rows[1..])
  }

  /** The bitcoin chain if there is one, else the first chain. */
  function Primary(rows: seq<ChainRow>, merchant: string): Option<ChainRow> {
    var mine := ChainsOf(rows, merchant);
    if FirstBtc(mine).Some? then FirstBtc(mine) else if mine == [] then None else Some(mine[0])
  }

  ghost predicate UniqueIds(rows: seq<ChainRow>) {
    forall i, j | 0 <= i < j < |rows| :: rows[i].id != rows[j].id
  }

  // ---------------------------------------------------------------- one call

  datatype Phase = Reading | Holding(row: string, current: nat) | Returned(row: string, index: nat) | GaveUp | NoChain

  /** One `nextChildIndex` call: `lost` lists the (row, value) pairs of the compare-and-sets it lost. */
  datatype Call = Call(merchant: string, startedAt: nat, lost: seq<(string, nat)>, phase: Phase)

  function DoRead(rows: seq<ChainRow>, call: Call): Call {
    var p := Primary(rows, call.merchant);
    call.(phase := if p.Some? then Holding(p.value.id, p.value.next) else NoChain)
  }

  function DoSwap(rows: seq<ChainRow>, call: Call): (seq<ChainRow>, Call)
    requires call.phase.Holding?
  {
    var row, current := call.phase.row, call.phase.current;
    var r := Cas(rows, row, current, current + 1);
    if r.1 then (r.0, call.(phase := Returned(row, current)))
    else
      var lost := call.lost + [(row, current)];
      (r.0, call.(lost := lost, phase := if |lost| >= MAX_CAS_ATTEMPTS then GaveUp else Reading))
  }

  /** What others happen to do before the read and before the swap of an attempt. */
  datatype Op = Swapped(row: string, expected: nat) | Inserted(added: ChainRow)
  datatype Interference = Interference(beforeRead: seq<Op>, beforeSwap: seq<Op>)

  function Do(rows: seq<ChainRow>, op: Op): seq<ChainRow> {
    match op
    case Swapped(row, expected) => Cas(rows, row, expected, expected + 1).0
    case Inserted(row) => Put(rows, row)
  }

  function Others(rows: seq<ChainRow>, ops: seq<Op>): seq<ChainRow> {
    if ops == [] then rows else Do(Others(rows, ops[..|ops| - 1]), ops[|ops| - 1])
  }

  /** The first `n` attempts of a call, or fewer once it has ended. */
  function Attempts(rows: seq<ChainRow>, call: Call, others: seq<Interference>, n: nat): (seq<ChainRow>, Call)
    requires n <= |others|
  {
    if n == 0 then (rows, call)
    else
      var before := Attempts(rows, call, others, n - 1);
      if !before.1.phase.Reading? then before
      else
        var seenRows := Others(before.0, others[n - 1].beforeRead);
        var holding := DoRead(seenRows, before.1);
        if !holding.phase.Holding? then (seenRows, holding)
        else DoSwap(Others(seenRows, others[n - 1].beforeSwap), holding)
  }

  lemma {:induction false} EndedStays(rows: seq<ChainRow>, call: Call, others: seq<Interference>, i: nat, n: nat)
    requires i <= n <= |others| && !Attempts(rows, call, others, i).1.phase.Reading?
    ensures Attempts(rows, call, others, n) == Attempts(rows, call, others, i)
  {
    hide DoRead, DoSwap, Others;
    if i < n {
      EndedStays(rows, call, others, i, n - 1);
    }
  }

  class MemoryCloudDb {
    var chains: seq<ChainRow>

    constructor ()
      ensures chains == []
    {
      chains := [];
    }

    method GetChains(merchant: string) returns (out: seq<ChainRow>)
      ensures out == ChainsOf(chains, merchant)
    {
      out := [];
      for i := 0 to |chains|
        invariant out == ChainsOf(chains[..i], merchant)
      {
        assert chains[..i + 1][..i] == chains[..i];
        if chains[i].merchant == merchant {
          out := out + [chains[i]];
        }
      }
      assert chains[..|chains|] == chains;
    }

    method InsertChain(row: ChainRow)
      modifies this
      ensures chains == Put(old(chains), row)
      ensures (forall i | 0 <= i < |old(chains)| :: old(chains)[i].id != row.id) ==> chains == old(chains) + [row]
      ensures (exists i :: 0 <= i < |old(chains)| && old(chains)[i].id == row.id) && UniqueIds(old(chains)) ==>
        && |chains| == |old(chains)|
        && forall i | 0 <= i < |chains| :: chains[i] == if old(chains)[i].id == row.id then row else old(chains)[i]
    {
      var k := RowAt(chains, row.id);
      chains := if k < 0 then chains + [row] else chains[k := row];
    }

    method CasChildIndex(id: string, expected: nat, next: nat) returns (won: bool)
      modifies this
      ensures (chains, won) == Cas(old(chains), id, expected, next)
    {
      var k := RowAt(chains, id);
      if k < 0 || chains[k].next != expected {
        return false;
      }
      chains := chains[k := chains[k].(next := next)];
      return true;
    }

    method Interfere(ops: seq<Op>)
      modifies this
      ensures chains == Others(old(chains), ops)
    {
      hide Cas, Put;
      assert ops[..0] == [];
      for i := 0 to |ops|
        invariant chains == Others(old(chains), ops[..i])
      {
        assert ops[..i + 1][..i] == ops[..i];
        match ops[i]
        case Swapped(row, expected) => var won := CasChildIndex(row, expected, expected + 1);
        case Inserted(row) => InsertChain(row);
      }
      assert ops[..|ops|] == ops;
    }
  }

  method PrimaryChain(db: MemoryCloudDb, merchant: string) returns (p: Option<ChainRow>)
    ensures p == Primary(db.chains, merchant)
  {
    var chains := db.GetChains(merchant);
    for i := 0 to |chains|
      invariant FirstBtc(chains) == FirstBtc(chains[i..])
    {
      if chains[i].kind == Btc {
        return Some(chains[i]);
      }
    }
    return if chains == [] then None else Some(chains[0]);
  }

  /** The retry loop. `Returned` is the result; `GaveUp` and `NoChain` are the two errors. */
  method NextChildIndex(db: MemoryCloudDb, merchant: string, others: seq<Interference>) returns (call: Call)
    requires |others| == MAX_CAS_ATTEMPTS
    modifies db
    ensures (db.chains, call) == Attempts(old(db.chains), Call(merchant, 0, [], Reading), others, MAX_CAS_ATTEMPTS)
    ensures call.phase.Returned? || call.phase.GaveUp? || call.phase.NoChain?
  {
    hide Cas, Primary, Others;
    call := Call(merchant, 0, [], Reading);
    ghost var rows, blank := db.chains, call;
    for attempt := 0 to MAX_CAS_ATTEMPTS
      invariant (db.chains, call) == Attempts(rows, blank, others, attempt)
      invariant |call.lost| == attempt && call.merchant == merchant && call.startedAt == 0
      invariant call.phase == if attempt < MAX_CAS_ATTEMPTS then Reading else GaveUp
    {
      db.Interfere(others[attempt].beforeRead);
      var primary := PrimaryChain(db, merchant);
      if primary.None? {
        call := call.(phase := NoChain);
        EndedStays(rows, blank, others, attempt + 1, MAX_CAS_ATTEMPTS);
        return;
      }
      var current := primary.value.next;
      db.Interfere(others[attempt].beforeSwap);
      var won := db.CasChildIndex(primary.value.id, current, current + 1);
      if won {
        call := call.(phase := Returned(primary.value.id, current));
        EndedStays(rows, blank, others, attempt + 1, MAX_CAS_ATTEMPTS);
        return;
      }
      call := call.(lost := call.lost + [(primary.value.id, current)],
                    phase := if attempt + 1 >= MAX_CAS_ATTEMPTS then GaveUp else Reading);
    }
  }

  // ---------------------------------------------------------------- any number of calls, any interleaving

  datatype Win = Win(call: nat, row: string, index: nat)
  datatype System = System(rows: seq<ChainRow>, calls: seq<Call>, wins: seq<Win>)

  datatype Step =
    | Insert(row: ChainRow)
    | Spawn(merchant: string)
    | Read(c: nat)
    | Swap(c: nat)

  predicate Enabled(s: System, step: Step) {
    match step
    case Insert(row) => RowAt(s.rows, row.id) < 0
    case Spawn(_) => true
    case Read(c) => c < |s.calls| && s.calls[c].phase.Reading?
    case Swap(c) => c < |s.calls| && s.calls[c].phase.Holding?
  }

  function Apply(s: System, step: Step): System
    requires Enabled(s, step)
  {
    match step
    case Insert(row) => s.(rows := Put(s.rows, row))
    case Spawn(merchant) => s.(calls := s.calls + [Call(merchant, |s.wins|, [], Reading)])
    case Read(c) => s.(calls := s.calls[c := DoRead(s.rows, s.calls[c])])
    case Swap(c) =>
      var r := DoSwap(s.rows, s.calls[c]);
      System(r.0, s.calls[c := r.1],
             if r.1.phase.Returned? then s.wins + [Win(c, r.1.phase.row, r.1.phase.index)] else s.wins)
  }

  ghost predicate Run(states: seq<System>, steps: seq<Step>) {
    && |states| == |steps| + 1
    && UniqueIds(states[0].rows) && states[0].calls == [] && states[0].wins == []
    && forall i | 0 <= i < |steps| :: Enabled(states[i], steps[i]) && states[i + 1] == Apply(states[i], steps[i])
  }

  // ---------------------------------------------------------------- what steps do to the counters

  lemma CasCounters(rows: seq<ChainRow>, id: string, expected: nat, x: string)
    requires UniqueIds(rows)
    ensures var r := Cas(rows, id, expected, expected + 1);
      && UniqueIds(r.0)
      && (r.1 <==> NextOf(rows, id) == expected)
      && NextOf(r.0, x) == if r.1 && x == id then expected + 1 else NextOf(rows, x)
  {
    hide RowAt;
    var after := Cas(rows, id, expected, expected + 1).0;
    assert RowAt(after, x) >= 0 ==> rows[RowAt(after, x)].id == x;
    assert RowAt(rows, x) >= 0 ==> after[RowAt(rows, x)].id == x;
  }

  lemma PutCounters(rows: seq<ChainRow>, row: ChainRow, x: string)
    requires UniqueIds(rows) && RowAt(rows, row.id) < 0
    ensures UniqueIds(Put(rows, row)) && NextOf(Put(rows, row), x) == if x == row.id then row.next else NextOf(rows, x)
  {
    hide RowAt;
    var after := Put(rows, row);
    assert after[|rows|] == row;
    assert RowAt(rows, x) >= 0 ==> after[RowAt(rows, x)].id == x;
    assert 0 <= RowAt(after, x) < |rows| ==> rows[RowAt(after, x)].id == x;
  }

  lemma {:induction false} ChainsAreRows(rows: seq<ChainRow>, merchant: string)
    ensures forall r | r in ChainsOf(rows, merchant) :: r in rows
  {
    if rows != [] {
      ChainsAreRows(rows[..|rows| - 1], merchant);
      assert rows == rows[..|rows| - 1] + [rows[|rows| - 1]];
    }
  }

  lemma {:induction false} FirstBtcIsRow(rows: seq<ChainRow>)
    ensures FirstBtc(rows).Some? ==> FirstBtc(rows).value in rows
  {
    if rows != [] {
      FirstBtcIsRow(rows[1..]);
      assert rows == [rows[0]] + rows[1..];
    }
  }

  /** Position `i` holds the first row of the merchant that satisfies the filter. */
  predicate IsFirst(rows: seq<ChainRow>, merchant: string, btcOnly: bool, i: nat) {
    && i < |rows| && rows[i].merchant == merchant && (btcOnly ==> rows[i].kind == Btc)
    && forall j | 0 <= j < i :: !(rows[j].merchant == merchant && (btcOnly ==> rows[j].kind == Btc))
  }

  predicate HasChain(rows: seq<ChainRow>, merchant: string, btcOnly: bool) {
    exists j :: 0 <= j < |rows| && rows[j].merchant == merchant && (btcOnly ==> rows[j].kind == Btc)
  }

  /** Appending a row keeps the first one, or makes the new row the first. */
  lemma FirstPush(rows: seq<ChainRow>, last: ChainRow, merchant: string, btcOnly: bool, i: nat)
    ensures IsFirst(rows, merchant, btcOnly, i) ==>
      IsFirst(rows + [last], merchant, btcOnly, i) && (rows + [last])[i] == rows[i]
    ensures !HasChain(rows, merchant, btcOnly) && last.merchant == merchant && (btcOnly ==> last.kind == Btc) ==>
      IsFirst(rows + [last], merchant, btcOnly, |rows|)
    ensures HasChain(rows + [last], merchant, btcOnly) <==>
      HasChain(rows, merchant, btcOnly) || (last.merchant == merchant && (btcOnly ==> last.kind == Btc))
  {
    var next := rows + [last];
    assert next[|rows|] == last && forall j | 0 <= j < |rows| :: next[j] == rows[j];
  }

  lemma {:induction false} FirstOfChains(rows: seq<ChainRow>, merchant: string) returns (i: nat)
    ensures ChainsOf(rows, merchant) == [] <==> !HasChain(rows, merchant, false)
    ensures ChainsOf(rows, merchant) != [] ==>
      IsFirst(rows, merchant, false, i) && rows[i] == ChainsOf(rows, merchant)[0]
  {
    hide IsFirst, HasChain;
    i := 0;
    if rows == [] {
      assert !HasChain(rows, merchant, false) by { NoChains(merchant); }
    } else {
      var n := |rows| - 1;
      i := FirstOfChains(rows[..n], merchant);
      assert rows == rows[..n] + [rows[n]];
      FirstPush(rows[..n], rows[n], merchant, false, i);
      if ChainsOf(rows[..n], merchant) == [] {
        i := n;
      } else {
        FirstInside(rows[..n], merchant, false, i);
      }
    }
  }

  lemma {:induction false} FirstBtcPush(mine: seq<ChainRow>, last: ChainRow)
    ensures FirstBtc(mine + [last])
         == if FirstBtc(mine).Some? then FirstBtc(mine) else if last.kind == Btc then Some(last) else None
  {
    if mine == [] {
      assert mine + [last] == [last];
    } else {
      assert (mine + [last])[1..] == mine[1..] + [last];
      FirstBtcPush(mine[1..], last);
    }
  }

  lemma {:induction false} FirstBtcOfChains(rows: seq<ChainRow>, merchant: string) returns (i: nat)
    ensures var f := FirstBtc(ChainsOf(rows, merchant));
      && (f.None? <==> !HasChain(rows, merchant, true))
      && (f.Some? ==> IsFirst(rows, merchant, true, i) && rows[i] == f.value)
  {
    hide IsFirst, HasChain, FirstBtc;
    i := 0;
    if rows == [] {
      NoChains(merchant);
    } else {
      var n := |rows| - 1;
      i := FirstBtcOfChains(rows[..n], merchant);
      assert rows == rows[..n] + [rows[n]];
      FirstPush(rows[..n], rows[n], merchant, true, i);
      FirstBtcPush(ChainsOf(rows[..n], merchant), rows[n]);
      assert ChainsOf(rows[..n], merchant) + [] == ChainsOf(rows[..n], merchant);
      if FirstBtc(ChainsOf(rows[..n], merchant)).None? {
        i := n;
      } else {
        FirstInside(rows[..n], merchant, true, i);
      }
    }
  }

  /**
   The row a call works on: none exactly if the merchant has no row, else the merchant's earliest bitcoin row,
   or the earliest row of any kind if there is no bitcoin row.
   */
  lemma PrimaryIs(rows: seq<ChainRow>, merchant: string) returns (i: nat)
    ensures Primary(rows, merchant).None? <==> !HasChain(rows, merchant, false)
    ensures Primary(rows, merchant).Some? ==>
      && IsFirst(rows, merchant, HasChain(rows, merchant, true), i)
      && Primary(rows, merchant).value == rows[i]
  {
    hide ChainsOf, FirstBtc;
    i := FirstBtcOfChains(rows, merchant);
    var k := FirstOfChains(rows, merchant);
    FirstBtcIsRow(ChainsOf(rows, merchant));
    if FirstBtc(ChainsOf(rows, merchant)).None? {
      i := k;
    }
  }

  lemma NoChains(merchant: string)
    ensures !HasChain([], merchant, false) && !HasChain([], merchant, true) && FirstBtc([]) == None
  {
  }

  lemma FirstInside(rows: seq<ChainRow>, merchant: string, btcOnly: bool, i: nat)
    requires IsFirst(rows, merchant, btcOnly, i)
    ensures i < |rows| && HasChain(rows, merchant, btcOnly)
  {
  }

  /** A read finds no chain exactly if the merchant has none, and else takes the counter of the row it works on. */
  lemma ReadTakes(rows: seq<ChainRow>, call: Call) returns (i: nat)
    ensures DoRead(rows, call).phase == NoChain <==> !HasChain(rows, call.merchant, false)
    ensures HasChain(rows, call.merchant, false) ==>
      && IsFirst(rows, call.merchant, HasChain(rows, call.merchant, true), i)
      && DoRead(rows, call).phase == Holding(rows[i].id, rows[i].next)
  {
    hide Primary, HasChain;
    i := PrimaryIs(rows, call.merchant);
  }

  /** A call that nobody disturbs takes the counter of that row and advances it by one. */
  lemma UndisturbedCall(rows: seq<ChainRow>, merchant: string, others: seq<Interference>) returns (i: nat)
    requires UniqueIds(rows) && |others| == MAX_CAS_ATTEMPTS && others[0] == Interference([], [])
    ensures var r := Attempts(rows, Call(merchant, 0, [], Reading), others, MAX_CAS_ATTEMPTS);
      && (!HasChain(rows, merchant, false) ==> r.0 == rows && r.1.phase == NoChain)
      && (HasChain(rows, merchant, false) ==>
            && IsFirst(rows, merchant, HasChain(rows, merchant, true), i)
            && r.0 == rows[i := rows[i].(next := rows[i].next + 1)]
            && r.1.phase == Returned(rows[i].id, rows[i].next))
  {
    hide Primary, HasChain, IsFirst, RowAt;
    var call := Call(merchant, 0, [], Reading);
    i := ReadTakes(rows, call);
    NothingDone(rows);
    if HasChain(rows, merchant, false) {
      FirstInside(rows, merchant, HasChain(rows, merchant, true), i);
    }
    assert Attempts(rows, call, others, 0) == (rows, call);
    EndedStays(rows, call, others, 1, MAX_CAS_ATTEMPTS);
  }

  lemma NothingDone(rows: seq<ChainRow>)
    ensures Others(rows, []) == rows
  {
  }

  /** A read takes the value the counter has at that moment. */
  lemma ReadsCounter(rows: seq<ChainRow>, merchant: string)
    requires UniqueIds(rows) && Primary(rows, merchant).Some?
    ensures var p := Primary(rows, merchant).value; NextOf(rows, p.id) == p.next
  {
    ChainsAreRows(rows, merchant);
    FirstBtcIsRow(ChainsOf(rows, merchant));
    var p := Primary(rows, merchant).value;
    assert p in rows;
    var i :| 0 <= i < |rows| && rows[i] == p;
    assert RowAt(rows, p.id) == i;
  }

  // ---------------------------------------------------------------- invariants of every run

  /** Another call won the compare-and-set of this value while call `c` was under way. */
  ghost predicate Charged(s: System, c: nat, row: string, value: nat)
    requires c < |s.calls|
  {
    exists p :: s.calls[c].startedAt <= p < |s.wins| && s.wins[p].row == row && s.wins[p].index == value
      && s.wins[p].call != c
  }

  ghost predicate CallInv(s: System, c: nat)
    requires c < |s.calls|
  {
    var call := s.calls[c];
    && call.startedAt <= |s.wins|
    && |call.lost| <= MAX_CAS_ATTEMPTS && (call.phase.GaveUp? <==> |call.lost| == MAX_CAS_ATTEMPTS)
    && (forall i, j | 0 <= i < j < |call.lost| :: call.lost[i] != call.lost[j])
    && (forall i | 0 <= i < |call.lost| ::
          Charged(s, c, call.lost[i].0, call.lost[i].1) && call.lost[i].1 < NextOf(s.rows, call.lost[i].0))
    && (call.phase.Holding? ==>
          && call.phase.current <= NextOf(s.rows, call.phase.row)
          && (call.phase.current < NextOf(s.rows, call.phase.row) ==> Charged(s, c, call.phase.row, call.phase.current))
          && (call.phase.row, call.phase.current) !in call.lost)
    && (call.phase.Returned? <==> exists p :: 0 <= p < |s.wins| && s.wins[p].call == c)
    && (forall p | 0 <= p < |s.wins| && s.wins[p].call == c :: call.phase == Returned(s.wins[p].row, s.wins[p].index))
  }

  ghost predicate WinsInv(s: System) {
    && (forall p | 0 <= p < |s.wins| :: s.wins[p].call < |s.calls| && s.wins[p].index < NextOf(s.rows, s.wins[p].row))
    && (forall p, q | 0 <= p < q < |s.wins| :: s.wins[p].call != s.wins[q].call)
    && (forall p, q | 0 <= p < q < |s.wins| && s.wins[p].row == s.wins[q].row :: s.wins[p].index < s.wins[q].index)
  }

  ghost predicate Inv(s: System) {
    UniqueIds(s.rows) && WinsInv(s) && forall c | 0 <= c < |s.calls| :: CallInv(s, c)
  }

  lemma ChargeGrows(s: System, s': System, c: nat, row: string, value: nat)
    requires c < |s.calls| <= |s'.calls| && s.wins <= s'.wins && s'.calls[c].startedAt == s.calls[c].startedAt
    requires Charged(s, c, row, value)
    ensures Charged(s', c, row, value)
  {
    var p :| s.calls[c].startedAt <= p < |s.wins| && s.wins[p].row == row && s.wins[p].index == value
      && s.wins[p].call != c;
    assert s'.wins[p] == s.wins[p];
  }

  /** A call that does not move keeps its invariant while another one wins. */
  lemma BystanderKept(s: System, s': System, c: nat)
    requires c < |s.calls| && CallInv(s, c) && |s'.calls| >= |s.calls| && s'.calls[c] == s.calls[c]
    requires s.wins <= s'.wins && |s'.wins| <= |s.wins| + 1
    requires |s'.wins| == |s.wins| ==> forall x :: NextOf(s'.rows, x) == NextOf(s.rows, x) || NextOf(s.rows, x) == -1
    requires |s'.wins| > |s.wins| ==>
      var w := s'.wins[|s.wins|];
      && w.call != c && NextOf(s.rows, w.row) == w.index && NextOf(s'.rows, w.row) == w.index + 1
      && forall x | x != w.row :: NextOf(s'.rows, x) == NextOf(s.rows, x)
    ensures CallInv(s', c)
  {
    hide NextOf, Charged;
    var call := s.calls[c];
    forall i | 0 <= i < |call.lost|
      ensures Charged(s', c, call.lost[i].0, call.lost[i].1)
    {
      ChargeGrows(s, s', c, call.lost[i].0, call.lost[i].1);
    }
    if call.phase.Holding? && call.phase.current < NextOf(s'.rows, call.phase.row) {
      if call.phase.current < NextOf(s.rows, call.phase.row) {
        ChargeGrows(s, s', c, call.phase.row, call.phase.current);
      } else {
        WinCharges(s', c, call.phase.row, call.phase.current, |s.wins|);
      }
    }
    if call.phase.Returned? {
      var p :| 0 <= p < |s.wins| && s.wins[p].call == c;
      assert s'.wins[p].call == c;
    }
    forall p | 0 <= p < |s'.wins| && s'.wins[p].call == c
      ensures call.phase == Returned(s'.wins[p].row, s'.wins[p].index)
    {
      assert p < |s.wins| && s.wins[p] == s'.wins[p];
    }
  }

  lemma WinCharges(s: System, c: nat, row: string, value: nat, p: nat)
    requires c < |s.calls| && s.calls[c].startedAt <= p < |s.wins|
    requires s.wins[p].row == row && s.wins[p].index == value && s.wins[p].call != c
    ensures Charged(s, c, row, value)
  {
  }

  lemma ReadKeepsInv(s: System, c: nat)
    requires Inv(s) && Enabled(s, Read(c))
    ensures Inv(Apply(s, Read(c)))
  {
    hide NextOf, Charged, Primary;
    var s' := Apply(s, Read(c));
    forall d | 0 <= d < |s'.calls| ensures CallInv(s', d) {
      assert CallInv(s, d);
      if d != c {
        BystanderKept(s, s', d);
      } else {
        if Primary(s.rows, s.calls[c].merchant).Some? {
          ReadsCounter(s.rows, s.calls[c].merchant);
        }
        forall i | 0 <= i < |s.calls[c].lost|
          ensures Charged(s', c, s.calls[c].lost[i].0, s.calls[c].lost[i].1)
        {
          ChargeGrows(s, s', c, s.calls[c].lost[i].0, s.calls[c].lost[i].1);
        }
      }
    }
  }

  lemma SwapKeepsInv(s: System, c: nat)
    requires Inv(s) && Enabled(s, Swap(c))
    ensures Inv(Apply(s, Swap(c)))
  {
    hide NextOf, Charged, Cas;
    var s', call := Apply(s, Swap(c)), s.calls[c];
    var row, current := call.phase.row, call.phase.current;
    assert CallInv(s, c);
    forall x ensures NextOf(s'.rows, x) == if |s'.wins| > |s.wins| && x == row then current + 1 else NextOf(s.rows, x) {
      CasCounters(s.rows, row, current, x);
    }
    CasCounters(s.rows, row, current, row);
    forall d | 0 <= d < |s'.calls| ensures CallInv(s', d) {
      assert CallInv(s, d);
      if d != c {
        BystanderKept(s, s', d);
      } else {
        forall i | 0 <= i < |s'.calls[c].lost|
          ensures Charged(s', c, s'.calls[c].lost[i].0, s'.calls[c].lost[i].1)
        {
          ChargeGrows(s, s', c, s'.calls[c].lost[i].0, s'.calls[c].lost[i].1);
        }
        if s'.calls[c].phase.Returned? {
          assert s'.wins[|s.wins|].call == c;
        }
      }
    }
    forall p | 0 <= p < |s.wins| ensures s'.wins[p] == s.wins[p] {}
  }

  lemma InsertKeepsInv(s: System, row: ChainRow)
    requires Inv(s) && Enabled(s, Insert(row))
    ensures Inv(Apply(s, Insert(row)))
  {
    hide Charged, RowAt, Put;
    var s' := Apply(s, Insert(row));
    forall x ensures NextOf(s'.rows, x) == NextOf(s.rows, x) || NextOf(s.rows, x) == -1 {
      PutCounters(s.rows, row, x);
    }
    PutCounters(s.rows, row, row.id);
    forall d | 0 <= d < |s'.calls| ensures CallInv(s', d) {
      assert CallInv(s, d);
      BystanderKept(s, s', d);
    }
  }

  lemma SpawnKeepsInv(s: System, merchant: string)
    requires Inv(s)
    ensures Inv(Apply(s, Spawn(merchant)))
  {
    hide NextOf, Charged;
    var s' := Apply(s, Spawn(merchant));
    forall d | 0 <= d < |s'.calls| ensures CallInv(s', d) {
      if d < |s.calls| {
        assert CallInv(s, d);
        BystanderKept(s, s', d);
      }
    }
  }

  lemma {:induction false} RunKeepsInv(states: seq<System>, steps: seq<Step>, i: nat)
    requires Run(states, steps) && i < |states|
    ensures Inv(states[i])
  {
    hide Inv, Apply;
    if i == 0 {
      EmptyInv(states[0]);
    } else {
      RunKeepsInv(states, steps, i - 1);
      var s := states[i - 1];
      match steps[i - 1]
      case Insert(row) => InsertKeepsInv(s, row);
      case Spawn(merchant) => SpawnKeepsInv(s, merchant);
      case Read(c) => ReadKeepsInv(s, c);
      case Swap(c) => SwapKeepsInv(s, c);
    }
  }

  lemma EmptyInv(s: System)
    requires UniqueIds(s.rows) && s.calls == [] && s.wins == []
    ensures Inv(s)
  {
  }

  // ---------------------------------------------------------------- one call among foreign swaps

  /** Chain ids are fresh when they are inserted. */
  predicate FreshInserts(rows: seq<ChainRow>, ops: seq<Op>) {
    ops == [] ||
    var n := |ops| - 1;
    && FreshInserts(rows, ops[..n])
    && (ops[n].Inserted? ==> RowAt(Others(rows, ops[..n]), ops[n].added.id) < 0)
  }

  /** How many of the foreign swaps win. */
  function ForeignWins(rows: seq<ChainRow>, ops: seq<Op>): (n: nat)
    ensures n <= |ops|
  {
    if ops == [] then 0
    else
      var n := |ops| - 1;
      var here := Others(rows, ops[..n]);
      var won := ops[n].Swapped? && Cas(here, ops[n].row, ops[n].expected, ops[n].expected + 1).1;
      ForeignWins(rows, ops[..n]) + if won then 1 else 0
  }

  /** A swap counts exactly if it expects the value the counter has. */
  lemma OneForeignSwap(rows: seq<ChainRow>, id: string, expected: nat)
    requires UniqueIds(rows)
    ensures ForeignWins(rows, [Swapped(id, expected)]) == if NextOf(rows, id) == expected then 1 else 0
  {
    hide Cas, RowAt;
    assert [Swapped(id, expected)][..0] == [];
    NothingDone(rows);
    CasCounters(rows, id, expected, id);
  }

  /** Fresh insertions and foreign swaps keep a counter unless a swap wins. */
  lemma {:induction false} OthersKeep(rows: seq<ChainRow>, ops: seq<Op>, id: string)
    requires UniqueIds(rows) && FreshInserts(rows, ops) && NextOf(rows, id) >= 0
    ensures UniqueIds(Others(rows, ops)) && NextOf(Others(rows, ops), id) >= 0
    ensures NextOf(Others(rows, ops), id) == NextOf(rows, id) || ForeignWins(rows, ops) > 0
  {
    hide Cas, Put, UniqueIds, RowAt;
    if ops != [] {
      var n := |ops| - 1;
      OthersKeep(rows, ops[..n], id);
      var here := Others(rows, ops[..n]);
      match ops[n]
      case Swapped(row, expected) => CasCounters(here, row, expected, id);
      case Inserted(row) => PutCounters(here, row, id);
    }
  }

  lemma {:induction false} OthersUnique(rows: seq<ChainRow>, ops: seq<Op>)
    requires UniqueIds(rows) && FreshInserts(rows, ops)
    ensures UniqueIds(Others(rows, ops))
  {
    hide Cas, Put, UniqueIds, RowAt;
    if ops != [] {
      var n := |ops| - 1;
      OthersUnique(rows, ops[..n]);
      var here := Others(rows, ops[..n]);
      match ops[n]
      case Swapped(row, expected) => CasCounters(here, row, expected, row);
      case Inserted(row) => PutCounters(here, row, "");
    }
  }

  /** Foreign wins before the swaps of the first `n` attempts, as far as the call gets. */
  function WinsAgainst(rows: seq<ChainRow>, call: Call, others: seq<Interference>, n: nat): nat
    requires n <= |others|
  {
    if n == 0 then 0
    else
      var before := Attempts(rows, call, others, n - 1);
      var readRows := Others(before.0, others[n - 1].beforeRead);
      WinsAgainst(rows, call, others, n - 1)
      + if before.1.phase.Reading? then ForeignWins(readRows, others[n - 1].beforeSwap) else 0
  }

  /** Insertions are fresh at every moment of the call. */
  predicate FreshThroughout(rows: seq<ChainRow>, call: Call, others: seq<Interference>, n: nat)
    requires n <= |others|
  {
    n == 0 ||
    var before := Attempts(rows, call, others, n - 1);
    && FreshThroughout(rows, call, others, n - 1)
    && FreshInserts(before.0, others[n - 1].beforeRead)
    && FreshInserts(Others(before.0, others[n - 1].beforeRead), others[n - 1].beforeSwap)
  }

  /**
   What the loop of one call does, whatever others write meanwhile: each of its losses comes with a win of
   others between its read and its swap, and an index it returns is the value it took off the counter.
   */
  lemma {:induction false} LoopCounts(rows: seq<ChainRow>, merchant: string, others: seq<Interference>, n: nat)
    requires UniqueIds(rows) && n <= |others| && FreshThroughout(rows, Call(merchant, 0, [], Reading), others, n)
    ensures var call := Call(merchant, 0, [], Reading); var r := Attempts(rows, call, others, n);
      && UniqueIds(r.0) && r.1.merchant == merchant && !r.1.phase.Holding?
      && |r.1.lost| <= WinsAgainst(rows, call, others, n)
      && (r.1.phase.Returned? ==> NextOf(r.0, r.1.phase.row) == r.1.phase.index + 1)
      && (r.1.phase.GaveUp? ==> |r.1.lost| >= MAX_CAS_ATTEMPTS)
  {
    hide Cas, UniqueIds, Others, NextOf, Primary, ForeignWins, FreshInserts;
    if n > 0 {
      LoopCounts(rows, merchant, others, n - 1);
      var before := Attempts(rows, Call(merchant, 0, [], Reading), others, n - 1);
      if before.1.phase.Reading? {
        OthersUnique(before.0, others[n - 1].beforeRead);
        var readRows := Others(before.0, others[n - 1].beforeRead);
        if Primary(readRows, merchant).Some? {
          var p := Primary(readRows, merchant).value;
          ReadsCounter(readRows, merchant);
          OthersKeep(readRows, others[n - 1].beforeSwap, p.id);
          var swapRows := Others(readRows, others[n - 1].beforeSwap);
          CasCounters(swapRows, p.id, p.next, p.id);
        }
      }
    }
  }

  /** A call that gives up has been overtaken at least 512 times. */
  lemma GivesUpOnlyOvertaken(rows: seq<ChainRow>, merchant: string, others: seq<Interference>)
    requires UniqueIds(rows) && |others| == MAX_CAS_ATTEMPTS
    requires FreshThroughout(rows, Call(merchant, 0, [], Reading), others, MAX_CAS_ATTEMPTS)
    ensures var call := Call(merchant, 0, [], Reading);
      Attempts(rows, call, others, MAX_CAS_ATTEMPTS).1.phase.GaveUp? ==>
        WinsAgainst(rows, call, others, MAX_CAS_ATTEMPTS) >= MAX_CAS_ATTEMPTS
  {
    hide Attempts, WinsAgainst, FreshThroughout;
    LoopCounts(rows, merchant, others, MAX_CAS_ATTEMPTS);
  }

  /** Someone else takes the value just read, `n` times in a row, starting from 0. */
  function Overtaking(row: string, n: nat): (others: seq<Interference>)
    ensures |others| == n && forall k | 0 <= k < n :: others[k] == Interference([], [Swapped(row, k)])
  {
    seq(n, (k: nat) => Interference([], [Swapped(row, k)]))
  }

  lemma OthersOnce(rows: seq<ChainRow>, op: Op)
    ensures Others(rows, [op]) == Do(rows, op)
  {
    assert [op][..0] == [];
  }

  lemma {:induction false} LosesEachTime(row: ChainRow, n: nat, total: nat)
    requires n <= total && row.next == 0 && total <= 512
    ensures var r := Attempts([row], Call(row.merchant, 0, [], Reading), Overtaking(row.id, total), n);
      && r.0 == [row.(next := n)] && r.1.merchant == row.merchant && |r.1.lost| == n
      && r.1.phase == if n < 512 then Reading else GaveUp
  {
    hide Others, Do, Primary;
    if n > 0 {
      LosesEachTime(row, n - 1, total);
      NothingDone([row.(next := n - 1)]);
      OthersOnce([row.(next := n - 1)], Swapped(row.id, n - 1));
      OnlyChain(row.(next := n - 1));
    }
  }

  lemma OnlyChain(row: ChainRow)
    ensures Primary([row], row.merchant) == Some(row)
    ensures Do([row], Swapped(row.id, row.next)) == [row.(next := row.next + 1)]
    ensures Cas([row.(next := row.next + 1)], row.id, row.next, row.next + 1) == ([row.(next := row.next + 1)], false)
  {
    assert [row][..0] == [];
    assert ChainsOf([row], row.merchant) == [row];
    assert [row][1..] == [] && FirstBtc([]) == None;
  }

  /** And it does give up when overtaken 512 times in a row, and not before. */
  lemma GivesUpWhenOvertaken(row: ChainRow, n: nat)
    requires row.next == 0 && n <= 512
    ensures var r := Attempts([row], Call(row.merchant, 0, [], Reading), Overtaking(row.id, 512), n);
      r.1.phase.GaveUp? <==> n == 512
  {
    LosesEachTime(row, n, 512);
  }

  // ---------------------------------------------------------------- the promises

  /** Indices handed out on one row, in the order of the wins. */
  function IndicesOn(wins: seq<Win>, row: string): seq<nat> {
    if wins == [] then []
    else
      var before, w := IndicesOn(wins[..|wins| - 1], row), wins[|wins| - 1];
      if w.row == row then before + [w.index] else before
  }

  function Interval(from: nat, n: nat): seq<nat> {
    seq(n, k => from + k)
  }

  /**
   Between any two moments of a run the indices handed out on a row are, in order, exactly those from
   the counter's value at the first moment up to its value at the second: no gap and no repetition.
   */
  lemma {:induction false} HandsOutInterval(states: seq<System>, steps: seq<Step>, i: nat, j: nat, row: string)
    requires Run(states, steps) && i <= j < |states| && NextOf(states[i].rows, row) >= 0
    ensures states[i].wins <= states[j].wins
    ensures var from, to := NextOf(states[i].rows, row), NextOf(states[j].rows, row);
      from <= to && IndicesOn(states[j].wins[|states[i].wins|..], row) == Interval(from, to - from)
    decreases j - i
  {
    hide Primary, RowAt, Cas, Put, Inv, Apply, Enabled, NextOf;
    if i < j {
      HandsOutInterval(states, steps, i, j - 1, row);
      var s, s', n := states[j - 1], states[j], |states[i].wins|;
      RunKeepsInv(states, steps, j - 1);
      StepCounts(s, steps[j - 1], row);
      if |s'.wins| > |s.wins| {
        assert s'.wins[n..][..|s'.wins[n..]| - 1] == s.wins[n..];
        assert s'.wins[n..][|s.wins| - n] == s'.wins[|s.wins|];
      } else {
        assert s'.wins == s.wins;
      }
    }
  }

  lemma StepCounts(s: System, step: Step, row: string)
    requires Inv(s) && Enabled(s, step) && NextOf(s.rows, row) >= 0
    ensures var s' := Apply(s, step);
      && s.wins <= s'.wins && |s'.wins| <= |s.wins| + 1
      && (|s'.wins| > |s.wins| && s'.wins[|s.wins|].row == row ==>
            s'.wins[|s.wins|].index == NextOf(s.rows, row) && NextOf(s'.rows, row) == NextOf(s.rows, row) + 1)
      && (|s'.wins| == |s.wins| || s'.wins[|s.wins|].row != row ==> NextOf(s'.rows, row) == NextOf(s.rows, row))
  {
    hide Primary, RowAt, Cas, Put;
    match step
    case Insert(r) => PutCounters(s.rows, r, row);
    case Swap(c) => CasCounters(s.rows, s.calls[c].phase.row, s.calls[c].phase.current, row);
      CasCounters(s.rows, s.calls[c].phase.row, s.calls[c].phase.current, s.calls[c].phase.row);
    case _ =>
  }

  /** A returned index is a win, every win is returned, and no two calls are given the same index of a row. */
  lemma ReturnedAreWins(states: seq<System>, steps: seq<Step>, i: nat)
    requires Run(states, steps) && i < |states|
    ensures var s := states[i];
      && (forall c, row, index | 0 <= c < |s.calls| ::
            s.calls[c].phase == Returned(row, index) <==> Win(c, row, index) in s.wins)
      && (forall c, d | 0 <= c < d < |s.calls| && s.calls[c].phase.Returned? :: s.calls[d].phase != s.calls[c].phase)
      && (forall p, q | 0 <= p < q < |s.wins| :: s.wins[p].call != s.wins[q].call)
  {
    hide NextOf, Charged, Run;
    RunKeepsInv(states, steps, i);
    var s := states[i];
    forall c, row, index | 0 <= c < |s.calls|
      ensures s.calls[c].phase == Returned(row, index) <==> Win(c, row, index) in s.wins
    {
      assert CallInv(s, c);
      if s.calls[c].phase == Returned(row, index) {
        var p :| 0 <= p < |s.wins| && s.wins[p].call == c;
        assert s.wins[p] == Win(c, row, index);
      }
    }
    forall c, d | 0 <= c < d < |s.calls| && s.calls[c].phase.Returned?
      ensures s.calls[d].phase != s.calls[c].phase
    {
      var ph := s.calls[c].phase;
      assert Win(c, ph.row, ph.index) in s.wins;
      assert s.calls[d].phase == ph <==> Win(d, ph.row, ph.index) in s.wins;
    }
  }

  function LostSet(lost: seq<(string, nat)>): set<(string, nat)> {
    set x | x in lost
  }

  function WonSet(wins: seq<Win>): set<(string, nat)> {
    set w | w in wins :: (w.row, w.index)
  }

  lemma {:induction false} DistinctSize(lost: seq<(string, nat)>)
    requires forall i, j | 0 <= i < j < |lost| :: lost[i] != lost[j]
    ensures |LostSet(lost)| == |lost|
  {
    if lost != [] {
      var n := |lost| - 1;
      DistinctSize(lost[..n]);
      assert LostSet(lost) == LostSet(lost[..n]) + {lost[n]};
    }
  }

  lemma {:induction false} WonSize(wins: seq<Win>)
    ensures |WonSet(wins)| <= |wins|
  {
    if wins != [] {
      var n := |wins| - 1;
      WonSize(wins[..n]);
      assert WonSet(wins) == WonSet(wins[..n]) + {(wins[n].row, wins[n].index)};
    }
  }

  /** Every lost compare-and-set is charged to a win of its own by another call during this one. */
  lemma LossesAreCharged(states: seq<System>, steps: seq<Step>, i: nat, c: nat)
    requires Run(states, steps) && i < |states| && c < |states[i].calls|
    ensures var s := states[i]; var call := s.calls[c];
      && call.startedAt <= |s.wins|
      && (forall k | 0 <= k < |call.lost| :: Charged(s, c, call.lost[k].0, call.lost[k].1))
      && (forall j, k | 0 <= j < k < |call.lost| :: call.lost[j] != call.lost[k])
      && |call.lost| <= |s.wins| - call.startedAt
  {
    hide NextOf, Run, Charged;
    RunKeepsInv(states, steps, i);
    var s := states[i];
    assert CallInv(s, c);
    var lost, mine := s.calls[c].lost, s.wins[s.calls[c].startedAt..];
    DistinctSize(lost);
    WonSize(mine);
    forall x | x in LostSet(lost) ensures x in WonSet(mine) {
      ChargedIsWon(s, c, x.0, x.1);
    }
    Sets.SubsetSize(LostSet(lost), WonSet(mine));
  }

  lemma ChargedIsWon(s: System, c: nat, row: string, value: nat)
    requires c < |s.calls| && s.calls[c].startedAt <= |s.wins| && Charged(s, c, row, value)
    ensures (row, value) in WonSet(s.wins[s.calls[c].startedAt..])
  {
    var p :| s.calls[c].startedAt <= p < |s.wins| && s.wins[p].row == row && s.wins[p].index == value
      && s.wins[p].call != c;
    var mine := s.wins[s.calls[c].startedAt..];
    assert mine[p - s.calls[c].startedAt] == s.wins[p];
    assert s.wins[p] in mine;
  }

  /** A call during which at most 511 other calls win never gives up; giving up means exactly 512 losses. */
  lemma GivesUpOnlyAfter512Wins(states: seq<System>, steps: seq<Step>, i: nat, c: nat)
    requires Run(states, steps) && i < |states| && c < |states[i].calls|
    ensures var s := states[i]; var call := s.calls[c];
      && (call.phase.GaveUp? <==> |call.lost| == 512)
      && (call.phase.GaveUp? ==> |s.wins| - call.startedAt >= 512 && forall w | w in s.wins :: w.call != c)
  {
    hide NextOf, Run, Charged;
    RunKeepsInv(states, steps, i);
    LossesAreCharged(states, steps, i, c);
    assert CallInv(states[i], c);
  }
}
