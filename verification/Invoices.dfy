/** Invoice rows and the file-backed storage adapter that the listener uses by default. */
module Invoices {
  import opened Results
  import opened Strings

  datatype Status = Pending | Partial | Confirmed | Expired | Failed

  /** What `BigInt(amount)` makes of the stored text. */
  datatype Amount = Units(units: int) | NotAnInteger

  datatype Invoice = Invoice(
    id: string,
    chain: string,
    asset: string,
    amount: Amount,
    address: string,
    childIndex: Option<nat>,
    status: Status,
    expiresAt: int,
    txHash: Option<string>)

  /** A recorded webhook, with the chain and log key of the transfer it decides. */
  datatype Event = Event(chain: string, key: string, body: Webhook)

  datatype Webhook =
    | InvoiceConfirmed(invoiceId: string, txHash: string, value: int, nonce: int)
    | PaymentOrphan(symbol: string, txHash: string, value: int)

  // ---------------------------------------------------------------- text

  function LowerChar(c: char): char {
    if 'A' <= c <= 'Z' then c - 'A' + 'a' else c
  }

  function UpperChar(c: char): char {
    if 'a' <= c <= 'z' then c - 'a' + 'A' else c
  }

  function Lower(s: string): string {
    seq(|s|, i requires 0 <= i < |s| => LowerChar(s[i]))
  }

  function Upper(s: string): string {
    seq(|s|, i requires 0 <= i < |s| => UpperChar(s[i]))
  }

  const CAPITALS := "ABCDEFGHIJKLMNOPQRSTUVWXYZ"
  const SMALLS := "abcdefghijklmnopqrstuvwxyz"

  predicate Cases(c: char, d: char) {
    exists k :: 0 <= k < 26 && CAPITALS[k] == c && SMALLS[k] == d
  }

  /** The same character, or the two cases of one ASCII letter. */
  predicate SameLetter(c: char, d: char) {
    c == d || Cases(c, d) || Cases(d, c)
  }

  predicate SameText(s: string, t: string) {
    |s| == |t| && forall i | 0 <= i < |s| :: SameLetter(s[i], t[i])
  }

  lemma LettersAt(k: nat)
    requires k < 26
    ensures CAPITALS[k] == 'A' + k as char && SMALLS[k] == 'a' + k as char
  {
  }

  lemma CasesIff(c: char, d: char)
    ensures Cases(c, d) <==> 'A' <= c <= 'Z' && d == c - 'A' + 'a'
  {
    if Cases(c, d) {
      var k :| 0 <= k < 26 && CAPITALS[k] == c && SMALLS[k] == d;
      LettersAt(k);
    }
    if 'A' <= c <= 'Z' && d == c - 'A' + 'a' {
      LettersAt((c - 'A') as int);
    }
  }

  lemma CapitalIff(c: char)
    ensures c in CAPITALS <==> 'A' <= c <= 'Z'
  {
    if c in CAPITALS {
      var k :| 0 <= k < 26 && CAPITALS[k] == c;
      LettersAt(k);
    }
    if 'A' <= c <= 'Z' {
      LettersAt((c - 'A') as int);
    }
  }

  lemma SmallIff(c: char)
    ensures c in SMALLS <==> 'a' <= c <= 'z'
  {
    if c in SMALLS {
      var k :| 0 <= k < 26 && SMALLS[k] == c;
      LettersAt(k);
    }
    if 'a' <= c <= 'z' {
      LettersAt((c - 'a') as int);
    }
  }

  lemma SameLetterIff(c: char, d: char)
    ensures SameLetter(c, d) <==> LowerChar(c) == LowerChar(d)
    ensures SameLetter(c, d) <==> UpperChar(c) == UpperChar(d)
  {
    hide Cases;
    CasesIff(c, d);
    CasesIff(d, c);
  }

  lemma LetterCases(c: char)
    ensures SameLetter(c, LowerChar(c)) && LowerChar(c) !in CAPITALS
    ensures SameLetter(c, UpperChar(c)) && UpperChar(c) !in SMALLS
  {
    hide SameLetter;
    SameLetterIff(c, LowerChar(c));
    SameLetterIff(c, UpperChar(c));
    CapitalIff(LowerChar(c));
    SmallIff(UpperChar(c));
  }

  /** Folding changes letters to the one case and nothing else, so folded texts agree exactly up to case. */
  lemma FoldsIff(s: string, t: string)
    ensures SameText(s, Lower(s)) && forall i | 0 <= i < |s| :: Lower(s)[i] !in CAPITALS
    ensures SameText(s, Upper(s)) && forall i | 0 <= i < |s| :: Upper(s)[i] !in SMALLS
    ensures Lower(s) == Lower(t) <==> SameText(s, t)
    ensures Upper(s) == Upper(t) <==> SameText(s, t)
  {
    hide SameLetter;
    forall i | 0 <= i < |s|
      ensures SameLetter(s[i], Lower(s)[i]) && SameLetter(s[i], Upper(s)[i])
      ensures Lower(s)[i] !in CAPITALS && Upper(s)[i] !in SMALLS
    {
      LetterCases(s[i]);
    }
    if |s| == |t| {
      forall i | 0 <= i < |s|
        ensures SameLetter(s[i], t[i]) <==> Lower(s)[i] == Lower(t)[i]
        ensures SameLetter(s[i], t[i]) <==> Upper(s)[i] == Upper(t)[i]
      {
        SameLetterIff(s[i], t[i]);
      }
    }
  }

  // ---------------------------------------------------------------- lists

  function Filter<T>(s: seq<T>, p: T -> bool): seq<T> {
    if s == [] then []
    else Filter(s[..|s| - 1], p) + if p(s[|s| - 1]) then [s[|s| - 1]] else []
  }

  lemma {:induction false} FilterMember<T>(s: seq<T>, p: T -> bool)
    ensures forall x :: x in Filter(s, p) <==> x in s && p(x)
  {
    if s != [] {
      FilterMember(s[..|s| - 1], p);
      assert s == s[..|s| - 1] + [s[|s| - 1]];
    }
  }

  lemma FilterPush<T>(s: seq<T>, i: nat, p: T -> bool)
    requires i < |s|
    ensures Filter(s[..i + 1], p) == Filter(s[..i], p) + if p(s[i]) then [s[i]] else []
  {
    assert s[..i + 1][..i] == s[..i];
  }

  /** `listPendingInvoices({ chain })`: an invoice at its expiry instant is no longer listed. */
  predicate IsListed(inv: Invoice, chain: string, now: int) {
    inv.status == Pending && inv.expiresAt > now && inv.chain == chain
  }

  function ListPending(rows: seq<Invoice>, chain: string, now: int): seq<Invoice> {
    Filter(rows, inv => IsListed(inv, chain, now))
  }

  /** `updateInvoiceStatus`: the row of that id gets the status and, if given, the transaction hash. */
  function Update(rows: seq<Invoice>, id: string, status: Status, txHash: Option<string>): (r: seq<Invoice>)
    ensures |r| == |rows|
  {
    seq(|rows|, i requires 0 <= i < |rows| =>
      if rows[i].id == id then Patched(rows[i], status, txHash) else rows[i])
  }

  function Patched(inv: Invoice, status: Status, txHash: Option<string>): Invoice {
    inv.(status := status, txHash := if txHash.Some? then txHash else inv.txHash)
  }

  ghost predicate UniqueIds(rows: seq<Invoice>) {
    forall i, j | 0 <= i < j < |rows| :: rows[i].id != rows[j].id
  }

  predicate HasId(rows: seq<Invoice>, id: string) {
    exists i :: 0 <= i < |rows| && rows[i].id == id
  }

  /** `createInvoice`: one file per id, so an existing row of that id is replaced. */
  function PutRow(rows: seq<Invoice>, inv: Invoice): seq<Invoice> {
    if HasId(rows, inv.id) then
      seq(|rows|, i requires 0 <= i < |rows| => if rows[i].id == inv.id then inv else rows[i])
    else rows + [inv]
  }

  /** Every invoice of the list has its row, so updating it finds it. */
  ghost predicate AllStored(rows: seq<Invoice>, invs: seq<Invoice>) {
    forall k | 0 <= k < |invs| :: HasId(rows, invs[k].id)
  }

  lemma ListedAreStored(rows: seq<Invoice>, chain: string, now: int)
    ensures AllStored(rows, ListPending(rows, chain, now))
  {
    var listed := ListPending(rows, chain, now);
    FilterMember(rows, inv => IsListed(inv, chain, now));
    forall k | 0 <= k < |listed| ensures HasId(rows, listed[k].id) {
      assert listed[k] in listed;
      var i :| 0 <= i < |rows| && rows[i] == listed[k];
    }
  }

  lemma FilteredAreStored(rows: seq<Invoice>, invs: seq<Invoice>, p: Invoice -> bool)
    requires AllStored(rows, invs)
    ensures AllStored(rows, Filter(invs, p))
  {
    var kept := Filter(invs, p);
    FilterMember(invs, p);
    forall k | 0 <= k < |kept| ensures HasId(rows, kept[k].id) {
      assert kept[k] in kept;
      var i :| 0 <= i < |invs| && invs[i] == kept[k];
    }
  }

  lemma UpdateKeepsStored(rows: seq<Invoice>, id: string, status: Status, txHash: Option<string>, invs: seq<Invoice>)
    requires AllStored(rows, invs)
    ensures AllStored(Update(rows, id, status, txHash), invs)
  {
    var after := Update(rows, id, status, txHash);
    forall k | 0 <= k < |invs| ensures HasId(after, invs[k].id) {
      var i :| 0 <= i < |rows| && rows[i].id == invs[k].id;
      assert after[i].id == rows[i].id;
    }
  }

  // ---------------------------------------------------------------- stored webhooks

  /** The text an event id is the hash of; the id of an orphan names the transaction, not the log. */
  function EventId(e: Event): string {
    match e.body
    case InvoiceConfirmed(invoiceId, _, _, _) => invoiceId + ":confirmed"
    case PaymentOrphan(symbol, txHash, _) => "orphan:" + e.chain + ":" + symbol + ":" + txHash
  }

  /** Invoice ids, chain names, token symbols and transaction hashes contain no colon. */
  predicate PlainParts(e: Event) {
    match e.body
    case InvoiceConfirmed(invoiceId, _, _, _) => ':' !in invoiceId
    case PaymentOrphan(symbol, txHash, _) => ':' !in e.chain && ':' !in symbol && ':' !in txHash
  }

  /** Both confirm the same invoice, or both report orphans of one transaction in one token. */
  predicate SameSubject(a: Event, b: Event) {
    match (a.body, b.body)
    case (InvoiceConfirmed(x, _, _, _), InvoiceConfirmed(y, _, _, _)) => x == y
    case (PaymentOrphan(s, x, _), PaymentOrphan(t, y, _)) => a.chain == b.chain && s == t && x == y
    case _ => false
  }

  lemma OrphanId(chain: string, symbol: string, txHash: string)
    ensures "orphan:" + chain + ":" + symbol + ":" + txHash == "orphan" + ":" + (chain + ":" + (symbol + ":" + txHash))
  {
  }

  lemma SameOrphan(a: Event, b: Event)
    requires a.body.PaymentOrphan? && b.body.PaymentOrphan? && PlainParts(a) && PlainParts(b)
    ensures EventId(a) == EventId(b) ==> SameSubject(a, b)
  {
    var x, y := a.body, b.body;
    OrphanId(a.chain, x.symbol, x.txHash);
    OrphanId(b.chain, y.symbol, y.txHash);
    if EventId(a) == EventId(b) {
      SplitAtColon("orphan", a.chain + ":" + (x.symbol + ":" + x.txHash),
                   "orphan", b.chain + ":" + (y.symbol + ":" + y.txHash));
      SplitAtColon(a.chain, x.symbol + ":" + x.txHash, b.chain, y.symbol + ":" + y.txHash);
      SplitAtColon(x.symbol, x.txHash, y.symbol, y.txHash);
    }
  }

  lemma ConfirmedIsNoOrphan(a: Event, b: Event)
    requires a.body.InvoiceConfirmed? && b.body.PaymentOrphan? && PlainParts(a)
    ensures EventId(a) != EventId(b)
  {
    var y := b.body;
    OrphanId(b.chain, y.symbol, y.txHash);
    var rest := b.chain + ":" + (y.symbol + ":" + y.txHash);
    assert EventId(a) == a.body.invoiceId + ":" + "confirmed";
    assert rest[|b.chain|] == ':';
    if EventId(a) == EventId(b) {
      SplitAtColon("orphan", rest, a.body.invoiceId, "confirmed");
    }
  }

  /** Two webhooks share an event id exactly if they have the same subject. */
  lemma SameIdIff(a: Event, b: Event)
    requires PlainParts(a) && PlainParts(b)
    ensures EventId(a) == EventId(b) <==> SameSubject(a, b)
  {
    match (a.body, b.body)
    case (InvoiceConfirmed(x, _, _, _), InvoiceConfirmed(y, _, _, _)) =>
      if EventId(a) == EventId(b) {
        assert x == EventId(a)[..|x|] && y == EventId(b)[..|y|];
      }
    case (InvoiceConfirmed(_, _, _, _), PaymentOrphan(_, _, _)) => ConfirmedIsNoOrphan(a, b);
    case (PaymentOrphan(_, _, _), InvoiceConfirmed(_, _, _, _)) => ConfirmedIsNoOrphan(b, a);
    case _ => SameOrphan(a, b);
  }

  predicate HasFile(files: seq<Event>, id: string) {
    exists i :: 0 <= i < |files| && EventId(files[i]) == id
  }

  /** One file per event id: a later event of the same id takes the place of the earlier one. */
  function PutFile(files: seq<Event>, e: Event): seq<Event> {
    if HasFile(files, EventId(e)) then
      seq(|files|, i requires 0 <= i < |files| => if EventId(files[i]) == EventId(e) then e else files[i])
    else files + [e]
  }

  function FilesOf(recorded: seq<Event>): seq<Event> {
    if recorded == [] then [] else PutFile(FilesOf(recorded[..|recorded| - 1]), recorded[|recorded| - 1])
  }

  lemma FileWritten(before: seq<Event>, e: Event, after: seq<Event>, found: bool)
    requires |after| == |before| && (found <==> exists j :: 0 <= j < |before| && EventId(before[j]) == EventId(e))
    requires forall j | 0 <= j < |before| :: after[j] == if EventId(before[j]) == EventId(e) then e else before[j]
    ensures PutFile(before, e) == if found then after else after + [e]
  {
    hide EventId;
    assert found <==> HasFile(before, EventId(e));
    assert !found ==> after == before;
  }

  lemma FilesPush(recorded: seq<Event>, e: Event)
    ensures FilesOf(recorded + [e]) == PutFile(FilesOf(recorded), e)
  {
    assert (recorded + [e])[..|recorded|] == recorded;
  }

  /** No later event of the list has the same id. */
  predicate LastOfId(recorded: seq<Event>, i: nat)
    requires i < |recorded|
  {
    forall j | i < j < |recorded| :: EventId(recorded[j]) != EventId(recorded[i])
  }

  lemma PutFileMembers(files: seq<Event>, e: Event)
    ensures forall x :: x in PutFile(files, e) <==> x == e || (x in files && EventId(x) != EventId(e))
  {
    hide EventId;
    var after := PutFile(files, e);
    forall x | x == e || (x in files && EventId(x) != EventId(e)) ensures x in after {
      if x == e && HasFile(files, EventId(e)) {
        var i :| 0 <= i < |files| && EventId(files[i]) == EventId(e);
        assert after[i] == e;
      } else if x != e {
        var i :| 0 <= i < |files| && files[i] == x;
        assert after[i] == x;
      }
    }
  }

  /** A recorded event is still stored exactly if no later one has its id. */
  lemma {:induction false} StoredIff(recorded: seq<Event>, x: Event)
    ensures x in FilesOf(recorded) <==> exists i :: 0 <= i < |recorded| && recorded[i] == x && LastOfId(recorded, i)
  {
    hide EventId, PutFile;
    if recorded != [] {
      var n := |recorded| - 1;
      var before, e := recorded[..n], recorded[n];
      StoredIff(before, x);
      PutFileMembers(FilesOf(before), e);
      assert LastOfId(recorded, n);
      forall i | 0 <= i < n ensures LastOfId(recorded, i) <==> LastOfId(before, i) && EventId(before[i]) != EventId(e) {
        assert forall j | 0 <= j < n :: before[j] == recorded[j];
      }
    }
  }

  /** The orphans of one transaction share one file, however many logs it has. */
  lemma OrphansShareAFile(chain: string, symbol: string, txHash: string, key: string, value: int, key': string,
                          value': int)
    ensures var a, b := Event(chain, key, PaymentOrphan(symbol, txHash, value)),
                        Event(chain, key', PaymentOrphan(symbol, txHash, value'));
      a != b ==> a !in FilesOf([a, b]) && b in FilesOf([a, b])
  {
    var a, b := Event(chain, key, PaymentOrphan(symbol, txHash, value)),
                Event(chain, key', PaymentOrphan(symbol, txHash, value'));
    assert [a, b][..1] == [a] && [a][..0] == [];
    PutFileMembers([], a);
    PutFileMembers(FilesOf([a]), b);
  }

  class Storage {
    var rows: seq<Invoice>
    var files: seq<Event>
    ghost var recorded: seq<Event>

    /** The stored webhooks are what is left of those recorded. */
    ghost predicate Valid()
      reads this
    {
      files == FilesOf(recorded)
    }

    constructor ()
      ensures Valid() && rows == [] && recorded == []
    {
      rows, files, recorded := [], [], [];
    }

    method CreateInvoice(inv: Invoice)
      modifies this`rows
      ensures rows == PutRow(old(rows), inv)
      ensures (forall i | 0 <= i < |old(rows)| :: old(rows)[i].id != inv.id) ==> rows == old(rows) + [inv]
      ensures (exists i :: 0 <= i < |old(rows)| && old(rows)[i].id == inv.id) ==>
        && |rows| == |old(rows)|
        && forall i | 0 <= i < |rows| :: rows[i] == if old(rows)[i].id == inv.id then inv else old(rows)[i]
    {
      var before, found := rows, false;
      for i := 0 to |before|
        invariant |rows| == |before| && (found <==> HasId(before[..i], inv.id))
        invariant forall j | 0 <= j < i :: rows[j] == if before[j].id == inv.id then inv else before[j]
        invariant forall j | i <= j < |before| :: rows[j] == before[j]
      {
        assert before[..i + 1] == before[..i] + [before[i]];
        assert before[i].id == inv.id ==> before[..i + 1][i].id == inv.id;
        assert forall j | 0 <= j < i :: before[..i + 1][j] == before[..i][j];
        if before[i].id == inv.id {
          rows, found := rows[i := inv], true;
        }
      }
      assert before[..|before|] == before;
      if !found {
        rows := rows + [inv];
      }
    }

    method ListPendingInvoices(chain: string, now: int) returns (out: seq<Invoice>)
      ensures out == ListPending(rows, chain, now)
    {
      out := [];
      assert rows[..0] == [];
      for i := 0 to |rows|
        invariant out == ListPending(rows[..i], chain, now)
      {
        FilterPush(rows, i, inv => IsListed(inv, chain, now));
        if IsListed(rows[i], chain, now) {
          out := out + [rows[i]];
        }
      }
      assert rows[..|rows|] == rows;
    }

    /** `found` is false for the "not found" error. */
    method UpdateInvoiceStatus(id: string, status: Status, txHash: Option<string>) returns (found: bool)
      modifies this`rows
      ensures rows == Update(old(rows), id, status, txHash)
      ensures |rows| == |old(rows)|
      ensures forall i | 0 <= i < |rows| ::
        rows[i] == if old(rows)[i].id != id then old(rows)[i]
                   else if txHash.None? then old(rows)[i].(status := status)
                   else old(rows)[i].(status := status, txHash := txHash)
      ensures found <==> exists i :: 0 <= i < |old(rows)| && old(rows)[i].id == id
    {
      var before := rows;
      found := false;
      for i := 0 to |before|
        invariant |rows| == |before|
        invariant forall j | 0 <= j < i :: rows[j] == Update(before, id, status, txHash)[j]
        invariant forall j | i <= j < |before| :: rows[j] == before[j]
        invariant found <==> exists j :: 0 <= j < i && before[j].id == id
      {
        if rows[i].id == id {
          rows, found := rows[i := Patched(rows[i], status, txHash)], true;
        }
      }
    }

    method RecordWebhookEvent(e: Event)
      requires Valid()
      modifies this`files, this`recorded
      ensures Valid() && recorded == old(recorded) + [e] && files == PutFile(old(files), e)
    {
      hide EventId, FilesOf, PutFile;
      FilesPush(recorded, e);
      recorded := recorded + [e];
      var before, found := files, false;
      for i := 0 to |before|
        invariant recorded == old(recorded) + [e] && |files| == |before|
        invariant found <==> exists j :: 0 <= j < i && EventId(before[j]) == EventId(e)
        invariant forall j | 0 <= j < i :: files[j] == if EventId(before[j]) == EventId(e) then e else before[j]
        invariant forall j | i <= j < |before| :: files[j] == before[j]
      {
        if EventId(before[i]) == EventId(e) {
          files, found := files[i := e], true;
        }
      }
      FileWritten(before, e, files, found);
      if !found {
        files := files + [e];
      }
    }
  }
}
