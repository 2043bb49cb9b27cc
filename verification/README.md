# ZettaPay, modelled and proved

This project models the logic of the ZettaPay payment listener and of its cloud tier, and proves what that
logic promises. One module models one component; a module with a `class` performs the component's updates
on its own fields, and each of its methods is tied to a function on values about which the results are
proved.

- **Fixed-address payments** (`AmountNonce`, `Quorum`, `Invoices`, `InvoiceCore`, `Watcher`, `Votes`,
  `Protocol`, `Payments`, `Settlement`, `Forgery`). All invoices of a merchant share one receive address. The payer
  is recognised by a nonce in the low four decimals of the amount, and a transfer counts only when enough
  RPC endpoints report it alike. `Protocol` is a state machine over creations, polls, reads and time, whose
  endpoints may answer anything; what it guarantees without trusting any of them, safety and liveness over
  all its runs, is in `Payments` and `Settlement`. What an agreement is worth depends on the votes that
  faulty endpoints cast and is settled in `Votes`, exactly; `Payments` concludes when a confirmation means a
  payment, and `Forgery` shows the one way a single endpoint can fake it.
- **Child indices** (`ChildIndex`). The optimistic read and compare-and-set loop, under every interleaving
  of any number of calls.
- **Codecs** (`Positional`, `Numerals`, `Base58`, `Base64`, `Decimals`, `X402`). Base58 as change of radix, decimal
  printing and parsing, and the parser of serialised Solana transactions against a separate description of
  the wire format.
- **Glob translation** (`Glob`). The emitted text is parsed back by a grammar of regular expressions with its
  own semantics.
- **Stateful structures** (`RateLimit`, `PaymentLog`, `Webhooks`, `Billing`). Each is compared with a simple
  specification over its full history.

Clock readings, random starts, generated ids, RPC replies, HTTP outcomes and stored invoice states are
inputs. The results need these assumptions: the clock never runs backwards; invoice creations do not overlap
(listing and inserting are two steps in the code); a poll does not overlap a creation, a read or another poll;
invoice and chain ids are new when they are inserted, and in `Webhooks` each event is inserted once; a chain is
configured once, and so is a token of a chain, whose symbol contains no colon; derived-address invoices live
on chains the watcher does not poll, as the self-hosted wiring arranges. Only the results that speak of real
payments assume anything about endpoints: those not counted as faulty may lag or miss logs but invent
nothing, no value is reported by faulty endpoints as often as the threshold, and transaction hashes and log
indices contain no colon.

Where the code does not do what its text or its neighbours suggest, the model follows the code:

- Base58 gives all-zero input one leading `1` too many and all-`1` text one zero byte too many. The round
  trips are therefore stated as equivalences, with the condition under which each one holds.
- A lone endpoint is said to decide nothing. The watcher counts every listed log as a report, so an endpoint
  that lists a forged log twice reaches a quorum of two by itself and confirms an unpaid invoice
  (`Forgery.RepeatedLogConfirms`, in a run in `Forgery.OneLiarConfirms`). Given what the faulty endpoints answer,
  every agreed transfer is on the chain exactly if no value they report for a log reaches the threshold by their
  reports alone (`Votes.FewFaultyVotesIff`); if none of them repeats a log, it is enough that fewer than the
  threshold are faulty (`Votes.FewFaultyEndpoints`). A single agreed value is certain exactly if an endpoint that
  is not faulty reports it too (`Votes.AgreedIsCertainIff`).
- A lone endpoint can hold a payment up for as long as it answers so: when a majority lists the payment, it is
  agreed deep enough exactly if every endpoint that lists it has it that deep, so one endpoint whose own head
  is behind the transfer's block is in the way (`Settlement.MajorityAgreesIff`), and one malformed log stops the
  scan of its token and of all later tokens of the chain (`Settlement.MalformedLogAborts`). Without the two an
  honest majority gets the payment through (`Settlement.HonestMajorityConfirms`).
- The comment "Flip pending fixed invoices past their TTL to `expired`" holds only within a poll: an invoice
  expires exactly if its expiry falls between the moment it is listed and the moment it is checked
  (`Payments.ExpiresIff`). One that is still pending at its expiry instant is never changed by a poll again; it
  expires exactly when a request reads it after that (`Payments.MissedExpiryStays`).
- An orphan's event id names its transaction but not its log, so of two orphans in one transaction only the
  later webhook is stored (`Invoices.OrphansShareAFile`); a recorded webhook stays stored exactly if no later
  one has its id (`Invoices.StoredIff`), that is, its subject (`Invoices.SameIdIff`).
- The comment on the webhook retry curve says that exhausted events disappear from the due list. They are due
  again exactly from a day after their last failure (`Webhooks.UsedUpDueIff`) and are skipped, but they use up
  the batch: an event is sent exactly if fewer due events than the limit are stored before it
  (`Webhooks.PostedIff`), so a live event can starve for good (`Webhooks.LiveEventStarves`).
- An empty asset text is said to default to USDC; only a missing one does, an empty one is refused
  (`InvoiceCore.TokenNamed`).
- Globs are anchored at the start only, so every pattern is a prefix pattern and the appended `.*` after a
  trailing slash changes nothing (`Glob.EndIsOptional`).
- When two values share the largest support and it reaches the threshold, the one reported first wins; the
  order of the answers matters exactly then (`Quorum.OrderDecidesIff`).
- A purchase keeps the time already held on the plan it buys exactly unless that plan was held without an end
  date, which it then gets (`Billing.HeldTimeKeptIff`); time left on another plan is lost
  (`Billing.PlanInForceKeptIff`).
- With a ceiling below one the two rate limiters advertise different delays (`RateLimit.LimitersAgree`).

## Model

| member | source | states |
|---|---|---|
| AmountNonce.NormalizeStart | packages/listener/src/evm-amount-nonce.ts:76-81 | every start, negative, fractional or not finite, lands on a slot 1..9999 |
| AmountNonce.RingVisitsEachOnce | packages/listener/src/evm-amount-nonce.ts:64-68 | from every start the walk meets each of the 9999 slots, and each at exactly one step |
| AmountNonce.StartWraps | packages/listener/src/evm-amount-nonce.ts:76-81 | starts that differ by whole turns are one start, negative turns included; a start on the ring is itself |
| AmountNonce.StartIsWhole | packages/listener/src/evm-amount-nonce.ts:76-81 | a start that is not finite is slot 1, and a fraction does not matter |
| AmountNonce.AllocateNonce | packages/listener/src/evm-amount-nonce.ts:64-73 | the search loop returns the first free slot of the walk |
| AmountNonce.AllocateIsNearestFree | packages/listener/src/evm-amount-nonce.ts:55-73 | allocation fails exactly when all 9999 nonces are taken, else it yields the free nonce fewest steps from the start |
| AmountNonce.MatchInvertsEncode | packages/listener/src/evm-amount-nonce.ts:108-141 | a received value matches a nonce exactly if it is the encoded amount; amount and price differ by less than 10000 units |
| AmountNonce.EncodedDigits | packages/listener/src/evm-amount-nonce.ts:44-47 | exactly the nonces 1..9999 are encoded; the amount divided by 10000 gives the price divided by 10000, and the remainder is the nonce |
| AmountNonce.BaseRoundsDown | packages/listener/src/invoice-core.ts:324 | the base is the multiple of 10000 at or just below an amount, negative ones included |
| AmountNonce.BaseTruncates | packages/listener/src/fixed-address-watcher.ts:586-603 | the base a received amount is matched against is truncated toward zero, negative amounts included |
| AmountNonce.EncodeInjective | packages/listener/src/evm-amount-nonce.ts:108-120 | two encoded amounts are equal exactly if base price and nonce are |
| AmountNonce.MatchIff | packages/listener/src/evm-amount-nonce.ts:131-141 | a received value yields exactly the amount by which it exceeds the base, if that is between 0 and 9999 |
| AmountNonce.MatchOwnBase | packages/listener/src/evm-amount-nonce.ts:131-141 | an amount matched against its own base yields a nonce exactly if it is non-negative and not divisible by 10000 |
| Quorum.DecideTransferQuorum | packages/listener/src/rpc-quorum.ts:103-130 | the grouping and ranking loops compute the decision that counting all reports gives |
| Quorum.ThresholdIs | packages/listener/src/rpc-quorum.ts:71-79 | the threshold is the number of endpoints or the quorum, whichever is less, and at least one |
| Quorum.DepthIsMinimum | packages/listener/src/rpc-quorum.ts:108-116 | the depth of a value is attained by one of its reports and exceeded by none |
| Quorum.AgreedIff | packages/listener/src/rpc-quorum.ts:103-130 | agreed exactly if some value has threshold reports; the winner has most reports and its least depth; conflict means different values, insufficient means one |
| Quorum.OrderIrrelevant | packages/listener/src/rpc-quorum.ts:103-130 | status and support depend only on the multiset of reports, the whole decision too when twice the threshold exceeds their number |
| Quorum.OrderDecidesIff | packages/listener/src/rpc-quorum.ts:103-130 | every order of the reports gives the same decision exactly if no two values share the largest support at or above the threshold |
| Quorum.TieDependsOnOrder | packages/listener/src/rpc-quorum.ts:118-121 | such a tie with the default quorum: of four reports, two and two, the first value wins |
| Quorum.MajorityWins | packages/listener/src/rpc-quorum.ts:103-130 | reports of one value that reach the threshold and outnumber the rest win |
| Invoices.Storage.CreateInvoice | packages/listener/src/storage/json.ts:106-127 | the row of that id is replaced, a new one is appended, nothing else changes |
| Invoices.Storage.ListPendingInvoices | packages/listener/src/storage/json.ts:134-157 | exactly the pending rows of the chain whose expiry is still ahead, in order |
| Invoices.Storage.UpdateInvoiceStatus | packages/listener/src/storage/json.ts:159-179 | the row of that id gets status and hash, the others stay, and an unknown id is reported |
| Invoices.Storage.RecordWebhookEvent | packages/listener/src/storage/json.ts:181-195 | one file per event id; the files are what is left of everything recorded |
| Invoices.StoredIff | packages/listener/src/storage/json.ts:181-195 | a recorded event is still stored exactly if no later one has its id |
| Invoices.SameIdIff | packages/listener/src/fixed-address-watcher.ts:705-755 | two webhooks whose parts contain no colon have one id exactly if they confirm the same invoice or report orphans of one transaction, token and chain |
| Invoices.OrphansShareAFile | packages/listener/src/fixed-address-watcher.ts:732-755 | of two different orphans of one transaction the later one replaces the earlier |
| Invoices.FoldsIff | packages/listener/src/fixed-address-watcher.ts:381-383 | folding turns each letter to the one case and keeps everything else, so folded texts are equal exactly up to the case of letters |
| Strings.TrimKeepsInner | packages/listener/src/fixed-address-watcher.ts:128-130 | trimming takes off all white space at both ends and nothing else |
| InvoiceCore.CollectActiveNonces | packages/listener/src/invoice-core.ts:302-330 | the loop collects exactly the nonces reserved at this address, token and base price |
| InvoiceCore.CreateFixedEvmInvoice | packages/listener/src/invoice-core.ts:233-292 | creation stores the invoice it returns under its id, or returns the error of the first failed check and stores nothing |
| InvoiceCore.CreateIsDistinct | packages/listener/src/invoice-core.ts:233-330 | a new amount differs from that of every active invoice with the same chain, address up to case and token, at whatever base price |
| InvoiceCore.CreateRefusedIff | packages/listener/src/invoice-core.ts:233-330 | a valid request is refused exactly when each nonce 1..9999 is held by a pending invoice with time left, of the same chain, address, token and price |
| InvoiceCore.CreatedInvoice | packages/listener/src/invoice-core.ts:233-292 | the created invoice has the price down to the cent and a nonce below it, the chain and token the request names, the merchant's address and the requested lifetime |
| InvoiceCore.RefusedIff | packages/listener/src/invoice-core.ts:233-252 | which of the checks refuses a request, in the order of the code |
| InvoiceCore.ChainNamed | packages/listener/src/fixed-address-watcher.ts:95-130 | three names, up to case and surrounding white space, give their chain with its tokens and depth; every other text gives none |
| InvoiceCore.TokenNamed | packages/listener/src/fixed-address-watcher.ts:143-146 | no asset or `usdc` names USDC, `usdt` names USDT on base only, and anything else, the empty text included, nothing |
| InvoiceCore.AddressIff | packages/listener/src/invoice-core.ts:247 | an address is `0x` and forty hexadecimal digits |
| Watcher.FixedAddressWatcher.PollOnce | packages/listener/src/fixed-address-watcher.ts:347-374 | one poll has the effect of the poll function on rows, events and seen keys, and reports its health and pending count |
| Watcher.FixedAddressWatcher.ExpireStaleRows | packages/listener/src/fixed-address-watcher.ts:391-402 | the listed rows become expired that have expired by the clock reading taken for each of them |
| Watcher.FixedAddressWatcher.ScanChain | packages/listener/src/fixed-address-watcher.ts:423-433 | tokens are scanned in order until one aborts on a malformed log |
| Watcher.FixedAddressWatcher.ScanOneToken | packages/listener/src/fixed-address-watcher.ts:442-520 | nothing happens without a quorum of replies or with a malformed log; else every unseen transfer is judged in order of first report |
| Watcher.FixedAddressWatcher.HandleTransfer | packages/listener/src/fixed-address-watcher.ts:537-578 | orphan, wait or confirm: which rows and events change, that only orphan and confirm are final, and that the confirmed row exists |
| Watcher.FindInvoiceByValue | packages/listener/src/fixed-address-watcher.ts:586-603 | the loop finds the first active invoice of exactly this amount |
| Watcher.Aggregate | packages/listener/src/fixed-address-watcher.ts:466-480 | the nested loops group every report of every responding endpoint by log key, or stop at a malformed log |
| Votes.EntriesFit | packages/listener/src/fixed-address-watcher.ts:466-480 | one entry per log key, holding exactly the observations reported under it in order |
| Votes.SomeHonestVote | packages/listener/src/fixed-address-watcher.ts:442-480 | a value reported more often than the faulty endpoints report it, repetitions included, is reported by another endpoint |
| Votes.FewFaultyEndpoints | packages/listener/src/fixed-address-watcher.ts:442-480 | if no faulty endpoint repeats a log, fewer of them than the threshold cannot reach it alone |
| Votes.LoneEndpoint | packages/listener/src/rpc-quorum.ts:71-79 | with at least two endpoints and a quorum of two, one endpoint that repeats no log cannot reach the threshold alone |
| Votes.ReportedDepth | packages/listener/src/fixed-address-watcher.ts:466-477 | an endpoint reports the value of a log, and a depth of at least `d` exactly if its head is at least `d - 1` blocks past the block of the log |
| Votes.RespondedCounts | packages/listener/src/fixed-address-watcher.ts:447-450 | the count compared with the threshold is the number of endpoints that answered |
| Votes.AgreedIsReal | packages/listener/src/fixed-address-watcher.ts:442-520 | if the faulty endpoints' reports do not reach the threshold, an agreed transfer is on the chain, with that value and hash, at least that deep |
| Votes.AgreedIsCertainIff | packages/listener/src/fixed-address-watcher.ts:442-520 | every chain that fits the other endpoints' answers holds the agreed transfer, as deep as agreed, exactly if one of them lists it with the agreed value |
| Votes.FewFaultyVotesIff | packages/listener/src/fixed-address-watcher.ts:434-520 | whatever the other endpoints truthfully answer and whatever the chain, every agreed transfer is on it, exactly if no value reaches the threshold by the faulty endpoints' reports alone |
| Protocol.NextKeepsInv | packages/listener/src/fixed-address-watcher.ts:347-578 | every creation, poll, read and passage of time keeps unique ids, distinct active amounts and the agreement of decisions and seen keys |
| Protocol.PollAdvances | packages/listener/src/fixed-address-watcher.ts:347-578 | whatever the endpoints answer, a poll leaves each row alone, confirms it against an agreed payment or expires it because its expiry falls between listing and check; every new event reports an agreed transfer |
| Protocol.ExpireEffect | packages/listener/src/fixed-address-watcher.ts:386-402 | expiry changes exactly the listed rows that have expired when they are checked |
| Protocol.ReadEffect | packages/listener/src/http-server.ts:397-404 | reading an invoice past its expiry expires it if it is pending; no other row changes |
| Protocol.RunKeepsInv | packages/listener/src/fixed-address-watcher.ts:278-612 | the invariants hold in every state of every run |
| Payments.ConfirmedOnlyIfAgreed | packages/listener/src/fixed-address-watcher.ts:442-578 | in every run an invoice turns confirmed only from pending, in a poll, and only if the endpoints agree on a transfer of its token and exact amount, deep enough |
| Payments.ConfirmedOnlyIfPaid | packages/listener/src/fixed-address-watcher.ts:442-578 | if in that poll the faulty endpoints' reports do not reach the threshold, the chain holds such a transfer; the rest of the run may be dishonest |
| Payments.EventsAreVoted | packages/listener/src/fixed-address-watcher.ts:484-578 | in every run each decision reports a transfer that an earlier poll agreed on |
| Payments.EventsAreReal | packages/listener/src/fixed-address-watcher.ts:484-578 | if faulty endpoints never reach the threshold, each decision of a run names a transfer that really happened |
| Payments.SettledStays | packages/listener/src/fixed-address-watcher.ts:347-578 | confirmed stays confirmed, expired stays expired, and nothing but status and hash ever changes |
| Payments.ExpiresIff | packages/listener/src/fixed-address-watcher.ts:347-402 | a poll expires a pending invoice of a chain exactly if it is of the watched address and its expiry falls between listing and check |
| Payments.MissedExpiryStays | packages/listener/src/fixed-address-watcher.ts:347-402 | in every run an invoice still pending at its expiry instant changes no more, except that it becomes expired exactly if it is read after that |
| Payments.AmountsIdentifyInvoices | packages/listener/src/invoice-core.ts:233-330 | in every reachable state two active fixed invoices of one chain, address and token have different amounts |
| Payments.OneCandidate | packages/listener/src/fixed-address-watcher.ts:376-388 | a poll never has two candidates of one amount |
| Payments.FindByValueFinds | packages/listener/src/fixed-address-watcher.ts:586-603 | a match exists exactly if the value carries a nonce and some listed invoice has that amount |
| Payments.MatchIgnoresOrder | packages/listener/src/fixed-address-watcher.ts:586-603 | the match does not depend on the order in which storage lists invoices |
| Payments.DecidedAtMostOnce | packages/listener/src/fixed-address-watcher.ts:484-520 | in every run each chain, token, transaction and log index is decided at most once, and the seen keys are exactly the decided ones |
| Payments.PollDecides | packages/listener/src/fixed-address-watcher.ts:484-520 | a poll adds a key to the seen set exactly if one of its token scans settles it |
| Payments.OpenUnlessFinal | packages/listener/src/fixed-address-watcher.ts:484-520 | a conflicting, under-reported or immature transfer stays open; a settled one is closed |
| Payments.ListingUnchanged | packages/listener/src/fixed-address-watcher.ts:356-374 | the chains polled before a chain do not change what it lists |
| Payments.HealthyIff | packages/listener/src/fixed-address-watcher.ts:354-373 | a poll is healthy exactly if for every token of every chain enough endpoints answer and list nothing malformed |
| Payments.PendingCounted | packages/listener/src/fixed-address-watcher.ts:355-372 | the pending count is the number of invoices that awaited a payment when their chain was listed |
| Settlement.ScanConfirms | packages/listener/src/fixed-address-watcher.ts:485-518 | within a scan a transfer that is to be confirmed confirms its invoice, whatever is handled before and after |
| Settlement.PaymentConfirms | packages/listener/src/fixed-address-watcher.ts:347-578 | a poll that agrees deep enough on an unseen transfer of an active invoice's amount confirms that invoice and closes the key |
| Settlement.SeenIffSettled | packages/listener/src/fixed-address-watcher.ts:484-520 | in every run a key is seen exactly if an earlier poll settled it |
| Settlement.SettlesIff | packages/listener/src/fixed-address-watcher.ts:484-578 | a poll settles a log exactly if it scans the token and agrees on the log, deep enough or on a value nobody awaits |
| Settlement.FirstAgreementConfirms | packages/listener/src/fixed-address-watcher.ts:484-578 | in every run, whatever the endpoints answer, the first poll that agrees deep enough while the invoice is active confirms it for good; before it the log may have been conflicting, under-reported, or too shallow for an invoice that awaited it |
| Settlement.MajorityAgreesIff | packages/listener/src/rpc-quorum.ts:103-130 | when enough endpoints and more than half of all reports list the payment of an active invoice, they agree on it deep enough exactly if every endpoint that lists it has it that deep |
| Settlement.MalformedLogAborts | packages/listener/src/fixed-address-watcher.ts:423-480 | one malformed log of one answering endpoint: its token and all later tokens of the chain change nothing in this poll |
| Settlement.HonestMajorityConfirms | packages/listener/src/fixed-address-watcher.ts:442-578 | in every run such a majority, with no shallow report and no malformed log, confirms the invoice for good in the first poll with a final vote; deep enough is a matter of heads and blocks |
| Settlement.UnanimityConfirms | packages/listener/src/fixed-address-watcher.ts:442-578 | in every run, if all endpoints, at least one, list an awaited payment deep enough and nothing twice, the token is scanned and the invoice confirmed for good, whatever the quorum |
| Forgery.RepeatedLogConfirms | packages/listener/src/fixed-address-watcher.ts:466-480 | in every reachable state one endpoint that lists a forged log twice confirms an active invoice of that amount |
| Forgery.OneLiarConfirms | packages/listener/src/fixed-address-watcher.ts:466-480 | a run in which this happens: quorum two, the other endpoint truthful, fewer faulty endpoints than the threshold, and no payment on the chain |
| ChildIndex.MemoryCloudDb.GetChains | packages/cloud/src/cloud-db.ts:233-237 | the rows of a merchant in insertion order |
| ChildIndex.MemoryCloudDb.InsertChain | packages/cloud/src/cloud-db.ts:246-248 | a row is added or replaces the row of its id in place |
| ChildIndex.MemoryCloudDb.CasChildIndex | packages/cloud/src/cloud-db.ts:250-255 | the counter changes exactly if the row exists and holds the expected value |
| ChildIndex.PrimaryChain | packages/cloud/src/storage.ts:236-239 | the first bitcoin chain, else the first chain, else none |
| ChildIndex.PrimaryIs | packages/cloud/src/storage.ts:236-239 | no row exactly if the merchant has none; else the merchant's earliest stored bitcoin row, or the earliest row if none is bitcoin |
| ChildIndex.UndisturbedCall | packages/cloud/src/storage.ts:104-117 | a call that nobody disturbs returns the counter of that row and advances it by one, or reports that there is no chain |
| ChildIndex.NextChildIndex | packages/cloud/src/storage.ts:104-117 | with other calls swapping and chains being inserted between its reads and swaps, the loop performs up to 512 attempts and ends with an index, with no chain, or by giving up |
| ChildIndex.LoopCounts | packages/cloud/src/storage.ts:104-117 | each loss of the loop comes with a win of others between its read and its swap, and an index it returns is the value it took off the counter |
| ChildIndex.GivesUpOnlyOvertaken | packages/cloud/src/storage.ts:105-116 | a loop that gives up has lost to at least 512 wins of others |
| ChildIndex.OneForeignSwap | packages/cloud/src/cloud-db.ts:250-255 | a foreign swap counts as a win exactly if it expects the value the counter has |
| ChildIndex.RunKeepsInv | packages/cloud/src/storage.ts:104-117 | the invariants of counters, wins and losses hold in every state of every interleaving |
| ChildIndex.HandsOutInterval | packages/cloud/src/storage.ts:104-117 | between any two moments the indices handed out on a row are, in order, exactly those from its first to its second counter value |
| ChildIndex.ReturnedAreWins | packages/cloud/src/storage.ts:104-117 | a call returns an index exactly if it won it, and no two calls return the same index of a row |
| ChildIndex.LossesAreCharged | packages/cloud/src/storage.ts:104-117 | each lost swap of a call belongs to its own win by another call during that call |
| ChildIndex.GivesUpOnlyAfter512Wins | packages/cloud/src/storage.ts:37-117 | a call gives up exactly after 512 losses, hence only if at least 512 other calls won meanwhile |
| ChildIndex.GivesUpWhenOvertaken | packages/cloud/src/storage.ts:37-117 | a call whose value is taken by another one each time gives up after 512 attempts and no sooner |
| Base58.Accumulate | packages/api/src/base58.ts:7-15 | one pass of the carry loops multiplies the positional value by the radix, adds the symbol and leaves no leading zero digit |
| Base58.CarryBounds | packages/api/src/base58.ts:8-12 | within a pass the carry stays below the source radix, 256 when encoding and 58 when decoding |
| Base58.Base58Encode | packages/api/src/base58.ts:3-27 | the encoder computes the change of radix with one `1` per leading zero byte |
| Base58.Base58Decode | api/_lib/session.ts:111-136 | the decoder computes the inverse change of radix, and none outside the alphabet |
| Base58.Layout | api/_lib/session.ts:134-135 | the output buffer holds the leading zero bytes and then the digits, most significant first |
| Base58.ConvertBackIff | packages/api/src/base58.ts:3-27 | converting digits to another radix and back gives them again exactly if there are none or one is not zero |
| Base58.AlphabetIff | packages/api/src/base58.ts:1 | the 58 characters are the digits and letters other than `0`, `O`, `I` and `l` |
| Base58.DecodeEncode | packages/api/src/base58.ts:3-27 | decoding an encoding gives the bytes again exactly if they are empty or not all zero |
| Base58.EncodeDecode | api/_lib/session.ts:111-136 | encoding a decoding gives the text again exactly if it is empty or has a character other than `1` |
| Base58.EncodesNumber | packages/api/src/base58.ts:3-27 | the text is the same number as the bytes, most significant first, with one `1` per leading zero byte unless all are zero |
| Base58.DecodesNumber | api/_lib/session.ts:111-136 | the bytes are the same number as the text |
| Numerals.NumeralInjective | packages/api/src/payments.ts:89-90 | two numbers printed alike in one radix are equal |
| Numerals.DigitAt | packages/api/src/payments.ts:89-90 | the digits are `0` to `9` and `a` to `z`, and each is read as its place |
| Decimals.ParserAccepts | packages/embed/src/embed.ts:169-174 | texts that are no amounts are invalid, amounts with more digits after the point than decimals too precise, all others parsed |
| Decimals.ParserValue | packages/embed/src/embed.ts:168-179 | the parser returns whole part and fraction, each scaled exactly |
| Decimals.AmountIff | packages/embed/src/embed.ts:169 | an amount is digits, or digits, a point and digits |
| Decimals.ParseFormat | packages/listener/src/usdc-pricing.ts:27-36 | parsing a printed amount gives its units again, with 6, 8 or any number of decimals, and the text has no superfluous zero |
| Decimals.FormatParse | packages/embed/src/embed.ts:168-179 | printing a parsed amount gives its text again exactly if it has no superfluous zero |
| X402.ReadCompactU16 | packages/api/src/x402.ts:46-61 | the shifting loop reads at most three groups of seven bits and stops inside the buffer |
| X402.ReadPieces | packages/api/src/x402.ts:105-109 | the cursor loop cuts out consecutive pieces and ends after the last |
| Base64.DecodesIff | packages/api/src/x402.ts:63-73 | exactly the texts that spell some bytes, between white space and with any padding, are accepted, as those bytes |
| Base64.SextetAt | packages/api/src/x402.ts:63-73 | the alphabet is that of section 4 of RFC 4648 |
| Base64.Examples | packages/api/src/x402.ts:63-73 | the encodings of one, two and three bytes given in section 10 of RFC 4648 |
| Base64.GroupDecoderInverts | packages/api/src/x402.ts:63-73 | a decoder of groups of four characters inverts the encoding as assumed, and no text spells two byte strings |
| X402.ParseTransaction | packages/api/src/x402.ts:87-199 | the parser with its cursor never reads outside the buffer and computes the parse function, error by error |
| X402.ParseX402Payment | packages/api/src/x402.ts:85-199 | the header is decoded strictly, refused as badly encoded, or parsed |
| X402.HeaderAcceptedIff | packages/api/src/x402.ts:63-199 | a header is accepted exactly if it spells a well-formed transaction signed by all its signers, whose parts are returned |
| X402.AcceptsSigned | packages/api/src/x402.ts:85-199 | a well-formed transaction of at most 1232 bytes is accepted exactly if every required signature is nonzero and verifies over the message, and its parts are returned |
| X402.AcceptedIsSigned | packages/api/src/x402.ts:85-199 | whatever is accepted is the serialisation of a well-formed transaction with as many signatures as its header says, all nonzero and verified over exactly the bytes after the signature section |
| X402.ErrorIff | packages/api/src/x402.ts:85-185 | which error refuses which bytes: an unsupported version, no signatures or a blank one first, or an unverified one first; all else is malformed |
| X402.RefusedFor | packages/api/src/x402.ts:167-185 | a well-formed transaction is refused for its first signature that does not count |
| X402.BadlyEncodedIff | packages/api/src/x402.ts:63-83 | a header is badly encoded exactly if it spells no bytes |
| X402.CanonicalIsShaped | packages/api/src/x402.ts:85-199 | any signatures and keys written with shortest counts form such a transaction exactly if they fit in a packet |
| X402.ReportIsReversible | packages/api/src/x402.ts:187-198 | signatures can be read back from the report, keys and block hash too unless all zero |
| Glob.GlobToRegex | fabric/lib/scan.js:36-60 | the index loop with its lookahead emits the text of the pattern's tokens |
| Glob.ReadingIff | fabric/lib/scan.js:36-60 | a pattern is read as the one token list that spells it with every wildcard as long as possible |
| Glob.SourceParses | fabric/lib/scan.js:36-60 | every emitted text is a regular expression, escapes and quantifiers where intended |
| Glob.MeaningKept | fabric/lib/scan.js:36-60 | the expression of a token list matches exactly the texts the tokens cover |
| Glob.EndIsOptional | fabric/lib/scan.js:58-59 | the appended `.*` changes no test |
| Glob.TranslationKeepsMeaning | fabric/lib/scan.js:36-60 | a path passes the test exactly if the glob covers one of its prefixes |
| Glob.OneLineCovers | fabric/lib/scan.js:33-60 | without line terminators the deep wildcards stand for anything, as documented |
| Glob.LineTerminatorIff | fabric/lib/scan.js:44-47 | the characters that `.` does not match |
| Glob.AllowlistedIff | fabric/lib/scan.js:62-97 | a path is exempt from a rule exactly if one of the rule's globs covers it from its start, and no glob is dropped; on one line this is the documented meaning |
| RateLimit.Prune | packages/listener/src/rate-limit.ts:123-127 | skipping the old prefix of an ordered ring leaves exactly the timestamps in the window |
| RateLimit.SlidingWindowRateLimiter.HitAt | packages/listener/src/rate-limit.ts:85-105 | the pruned rings give the decision that counting over everything ever accepted gives; refused hits are not counted |
| RateLimit.CloudRateLimiter.HitAt | packages/cloud/src/auth.ts:87-99 | the filtered ring gives the decision that counting over everything ever accepted gives |
| RateLimit.RefusedIff | packages/listener/src/rate-limit.ts:85-105 | a hit is refused exactly if as many hits as a ceiling were accepted in the window before it, of its caller or overall, and the overall ceiling is named first |
| RateLimit.AcceptedPush | packages/listener/src/rate-limit.ts:85-105 | a run accepts exactly the hits that are not refused, in order |
| RateLimit.NoWindowOverflows | packages/listener/src/rate-limit.ts:85-105 | in every run no window, wherever it starts, holds more accepted hits than the ceilings |
| RateLimit.RetryAfterIsExact | packages/listener/src/rate-limit.ts:107-113 | after a refusal, waiting a whole number of seconds leaves room exactly from the advertised delay on |
| RateLimit.LimitersAgree | packages/cloud/src/auth.ts:87-99 | while the overall ceiling never trips both limiters accept the same hits, and advertise the same delay exactly if the ceiling is at least one or the window at most a second |
| PaymentLog.PaymentLog.RecordX402 | packages/api/src/payments.ts:51-53 | the entry goes in front and the invariants are kept |
| PaymentLog.PaymentLog.RecordOnramp | packages/api/src/payments.ts:55-62 | the retained entry of that transaction is returned, or a new one recorded and indexed |
| PaymentLog.PaymentLog.AppendRecord | packages/api/src/payments.ts:85-103 | the new entry goes in front, the list is cut to a thousand and the index forgets what was cut |
| PaymentLog.PaymentLog.FindOnrampByExternalId | packages/api/src/payments.ts:64-66 | the indexed lookup answers like a linear search |
| PaymentLog.IdsAreUnique | packages/api/src/payments.ts:85-93 | no two retained entries share an id, whatever the clock did |
| PaymentLog.ApplyKeepsValid | packages/api/src/payments.ts:46-104 | every operation keeps length, numbering, distinct keys and the index as the map of retained onramp entries |
| PaymentLog.LookupAlwaysAgrees | packages/api/src/payments.ts:64-66 | after every run of operations lookup and linear search agree |
| PaymentLog.EntriesShift | packages/api/src/payments.ts:85-103 | an entry stays, unchanged and in order, until a thousand newer ones are in front of it |
| PaymentLog.AnsweredIff | packages/api/src/payments.ts:55-62 | a completion leaves the log unchanged exactly if a search finds its entry, which is then returned; otherwise a record with an unused id is appended |
| PaymentLog.X402Recorded | packages/api/src/payments.ts:51-103 | an x402 payment always becomes a record of what was submitted, with its time and the next number, in front of the newest 999 |
| PaymentLog.DeliveredOnce | packages/api/src/payments.ts:55-62 | in every run a completion delivered again while retained gets the record of its first delivery |
| PaymentLog.NewestFirst | packages/api/src/payments.ts:85-103 | after every run the log holds the newest entries, at most a thousand, in order of age |
| Webhooks.WebhookStorage.GetWebhookEventsDue | packages/listener/src/storage/json.ts:197-219 | the first due undelivered events in storage order, up to the limit |
| Webhooks.DueIff | packages/listener/src/storage/json.ts:197-219 | without a limit exactly the undelivered events whose time has come are listed |
| Webhooks.WebhookStorage.RecordWebhookEvent | packages/listener/src/storage/json.ts:181-195 | a new id is appended; for a known id exactly its row starts over, with no attempts and undelivered, and all others stay |
| Webhooks.WebhookStorage.MarkWebhookDelivered | packages/listener/src/storage/json.ts:221-239 | one attempt more; delivered on success, rescheduled on failure; an unknown id is reported |
| Webhooks.WebhookDispatcher.RunTick | packages/listener/src/webhook-dispatcher.ts:124-136 | a tick lists and delivers in order until the list ends or a stop is seen, and does nothing while another is running |
| Webhooks.WebhookDispatcher.DeliverOne | packages/listener/src/webhook-dispatcher.ts:138-202 | one POST with the next attempt number and its outcome recorded, or nothing once ten attempts are used |
| Webhooks.RunKeepsInv | packages/listener/src/webhook-dispatcher.ts:124-214 | in every run, with insertions and stops between any two steps, each stored row is what its history says |
| Webhooks.HistoriesAreOrderly | packages/listener/src/webhook-dispatcher.ts:24-37 | in every run attempts are numbered 1, 2, 3, ... up to ten, none follows a success, and the next comes no sooner than its delay after the recorded failure |
| Webhooks.AttemptsAreSpaced | packages/listener/src/webhook-dispatcher.ts:24-35 | in every run attempt 2, 3, ... 10 comes no sooner after the first than 1 s, 6 s, 36 s, ... 60156 s |
| Webhooks.AtMostTenPosts | packages/listener/src/webhook-dispatcher.ts:138-145 | in every run no event is sent more than ten times |
| Webhooks.TickKeepsInv | packages/listener/src/webhook-dispatcher.ts:124-136 | a whole tick keeps the invariants of such a run |
| Webhooks.QuietIff | packages/listener/src/webhook-dispatcher.ts:138-145 | an undisturbed tick sends something exactly if its list holds an event with attempts left |
| Webhooks.UsedUpDueIff | packages/listener/src/webhook-dispatcher.ts:205-214 | in every run a used-up event is due exactly from a day after its tenth failure was recorded |
| Webhooks.PostedIff | packages/listener/src/webhook-dispatcher.ts:124-145 | an undisturbed tick sends a due event with attempts left exactly if fewer than `limit` due events are stored before it |
| Webhooks.LiveEventStarves | packages/listener/src/webhook-dispatcher.ts:124-145 | a run that ends with an event never sent, due, and not sent by any later undisturbed tick |
| Billing.BillingDb.ListPendingCryptoSubscriptions | packages/cloud/src/cloud-db.ts:222-226 | exactly the pending crypto subscriptions, in order |
| Billing.ListedMembers | packages/cloud/src/cloud-db.ts:222-226 | the list has exactly the pending subscriptions paid in crypto |
| Billing.ListedInPlace | packages/cloud/src/cloud-db.ts:222-226 | each of them stands after those stored before it |
| Billing.BillingDb.UpdateMerchant | packages/cloud/src/cloud-db.ts:185-188 | a known merchant gets plan and expiry, an unknown one stays unknown |
| Billing.BillingDb.UpdateSubscription | packages/cloud/src/cloud-db.ts:217-220 | the row of that id is patched, the others stay |
| Billing.Billing.Reconcile | packages/cloud/src/billing.ts:218-236 | the loop settles each listed subscription in turn against the invoices as they are at that moment |
| Billing.CheckoutIsListed | packages/cloud/src/cloud-db.ts:222-226 | what was checked out is in the list of the next reconcile |
| Billing.TurnAppliesConfirmed | packages/cloud/src/billing.ts:220-235 | a turn applies a subscription exactly if its invoice is confirmed at that moment |
| Billing.TurnKeepsBooks | packages/cloud/src/billing.ts:218-240 | after every turn a subscription is active exactly if it was applied, once |
| Billing.PaidTimeIsStacked | packages/cloud/src/billing.ts:218-240 | in every run each applied subscription adds its own thirty days of its plan, disjoint from the others and following without loss |
| Billing.PlanInForce | packages/cloud/src/plans.ts:86-95 | in every run the merchant is on the paid plan exactly up to the end of the last interval, so throughout every interval |
| Billing.EffectivePlanIs | packages/cloud/src/plans.ts:86-95 | a paid plan is in force up to its end or without one, and otherwise the free plan |
| Billing.PaidTimeIsConserved | packages/cloud/src/billing.ts:225-232 | in every run used and remaining paid time add up to thirty days per payment plus what was left of that plan at the start |
| Billing.SettledStays | packages/cloud/src/billing.ts:218-236 | a subscription leaves pending once and never changes again, whatever its invoice does |
| Billing.ReconcileKeeps | packages/cloud/src/billing.ts:218-236 | a whole reconcile keeps the books and the merchant's intervals |
| Billing.ReconcileSettles | packages/cloud/src/billing.ts:218-236 | over a whole reconcile every pending subscription becomes active, applied exactly once, exactly if its invoice is confirmed at its turn, expired exactly if it has lapsed, and else stays |
| Billing.HeldTimeKeptIff | packages/cloud/src/billing.ts:225-229 | a purchase keeps the time held on the plan it buys exactly unless that plan was held without an end date |
| Billing.PurchaseBuys | packages/cloud/src/billing.ts:225-232 | a purchase adds thirty days from the payment on, or from the end of the same plan if that is later, and the merchant is on it to the end of them |
| Billing.PlanInForceKeptIff | packages/cloud/src/billing.ts:225-229 | it keeps whatever paid plan is in force exactly if none is, or it is the plan bought with an end date |
| Billing.OpenEndedPlanIsCut | packages/cloud/src/billing.ts:226-229 | a witness: an open-ended plan that is bought ends |

## Left out

- HTTP servers (but for the expiry of an invoice that is read), sockets, timers, logging, command line, user interfaces, SDKs and the Supabase client: input and output only.
- Storage failures: reads and writes always succeed, so best-effort catches and retries after a failed write are not modelled.
- SQLite storage: the file-backed adapter, the default, is modelled; merchant ids, creation and payment timestamps of rows, status codes and error texts are not.
- SHA-256, HMAC, Ed25519, BIP-32, checksummed addresses: signature verification is a parameter, ids are inputs, addresses are compared as text.
- Base64.Decode: the platform's lenient decoder is a parameter, of which only that it inverts the encoding and ignores trailing padding is used.
- Glob.Matches: paths and patterns with characters above U+FFFF, which the source's expressions see as two code units.
- Floating-point prices: amounts start as integer base units; JavaScript numbers above 2^53 are not rounded.
- Decimals.Format: one printer stands for `formatUsdc`, `formatUnits` and `formatBtcAmount`, which differ in decimals only; negative and fractional units, which `formatUsdc` rejects, are not modelled.
- Invoices.Lower: case folding is ASCII only, and names inherited by the chain registry object are not looked up.
- X402.Text: the report prints keys with the modelled Base58, so an all-zero key is printed with one `1` too many, as in the code.
- Watcher restarts: a process starts with an empty seen set, and the results hold within one process; an already confirmed transfer seen by a new process is reported as an orphan.
- Overlapping invoice creations: two requests that list the same rows can be given the same amount; the code does not serialise them and the results assume they do not overlap.
- Reads during a poll: an invoice that a request expires after the poll has listed it can still be confirmed by that poll in the code.
- The balance-polling base watcher, the bitcoin listener and derived-address creation: only their rows appear, on chains the fixed-address watcher does not poll.
- The cloud webhook dispatcher, which looks events up as due at time zero; the listener's dispatcher is modelled.
- ChildIndex.NextChildIndex: what others do meanwhile is given as swaps and insertions between its own steps; the state machine lets every call take its own steps.
- PaymentLog listing with limit, offset and source filter, and lookup by id: plain slices and searches.
- Rate-limit configuration parsing, and the limiter's memory use.
- Stripe checkouts and events, plan limits and prices, overlapping runs of `reconcile`, and a crash between activating a plan and closing its subscription.
- Severity, placeholder detection and line scanning around the allowlist, and the built-in path allowlist.
- Compilation units that do not build as committed, `packages/api/src/app.ts` and `packages/api/src/server.ts`.
