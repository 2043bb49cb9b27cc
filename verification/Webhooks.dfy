/**
 Webhook delivery of the listener: a tick lists the due events, POSTs each one and records the outcome,
 scheduling the next attempt on a fixed retry curve. Insertions, stops and restarts may happen between any
 two steps of a tick. The clock never runs backwards and every event is inserted once.
 */
module Webhooks {
  import opened Results

  const SECOND := 1000
  const MINUTE := 60 * SECOND
  const HOUR := 60 * MINUTE

  const RETRY_CURVE_MS: seq<int> := [
    1 * SECOND, 5 * SECOND, 30 * SECOND, 2 * MINUTE, 10 * MINUTE,
    30 * MINUTE, 1 * HOUR, 3 * HOUR, 12 * HOUR, 24 * HOUR]

  const MAX_ATTEMPTS: nat := 10

  datatype Row = Row(id: string, attempts: nat, nextRetryAt: int, delivered: bool)

  function NextRetryDate(attempt: nat, now: int): int {
    var idx := (if attempt < |RETRY_CURVE_MS| then attempt else |RETRY_CURVE_MS|) - 1;
    now + RETRY_CURVE_MS[if idx > 0 then idx else 0]
  }

  /** The wait after the failure of an attempt, counted from 0. */
  function Delay(attempt: nat): int
    requires attempt < MAX_ATTEMPTS
  {
    RETRY_CURVE_MS[attempt]
  }

  // ---------------------------------------------------------------- storage

  predicate IsDue(r: Row, cutoff: int) {
    !r.delivered && r.nextRetryAt <= cutoff
  }

  /** The first `limit` due rows in storage order; a limit of zero lists all. */
  function Due(rows: seq<Row>, cutoff: int, limit: nat): seq<Row> {
    if rows == [] then []
    else
      var before, r := Due(rows[..|rows| - 1], cutoff, limit), rows[|rows| - 1];
      if IsDue(r, cutoff) && (limit == 0 || |before| < limit) then before + [r] else before
  }

  function Marked(r: Row, ok: bool, nextRetryAt: int): Row {
    r.(attempts := r.attempts + 1, delivered := r.delivered || ok,
      nextRetryAt := if ok then r.nextRetryAt else nextRetryAt)
  }

  function Mark(rows: seq<Row>, id: string, ok: bool, nextRetryAt: int): seq<Row> {
    seq(|rows|, i requires 0 <= i < |rows| => if rows[i].id == id then Marked(rows[i], ok, nextRetryAt) else rows[i])
  }

  predicate HasEvent(rows: seq<Row>, id: string) {
    exists i :: 0 <= i < |rows| && rows[i].id == id
  }

  /** One file per event id: recording an id again starts that event over. */
  function PutEvent(rows: seq<Row>, r: Row): seq<Row> {
    if HasEvent(rows, r.id) then seq(|rows|, i requires 0 <= i < |rows| => if rows[i].id == r.id then r else rows[i])
    else rows + [r]
  }

  /** Every event of the list has its file, so marking it finds it. */
  ghost predicate AllStored(rows: seq<Row>, listed: seq<Row>) {
    forall q | 0 <= q < |listed| :: HasEvent(rows, listed[q].id)
  }

  lemma {:induction false} DueAreStored(rows: seq<Row>, cutoff: int, limit: nat)
    ensures AllStored(rows, Due(rows, cutoff, limit))
  {
    if rows != [] {
      var n := |rows| - 1;
      DueAreStored(rows[..n], cutoff, limit);
      var before := Due(rows[..n], cutoff, limit);
      forall q | 0 <= q < |before| ensures HasEvent(rows, before[q].id) {
        var i :| 0 <= i < n && rows[..n][i].id == before[q].id;
        assert rows[i].id == before[q].id;
      }
      assert HasEvent(rows, rows[n].id);
    }
  }

  /** Without a limit exactly the undelivered events whose time has come are due. */
  lemma {:induction false} DueIff(rows: seq<Row>, cutoff: int)
    ensures forall r :: r in Due(rows, cutoff, 0) <==> r in rows && !r.delivered && r.nextRetryAt <= cutoff
  {
    if rows != [] {
      DueIff(rows[..|rows| - 1], cutoff);
      assert rows == rows[..|rows| - 1] + [rows[|rows| - 1]];
    }
  }

  lemma MarkKeepsStored(rows: seq<Row>, id: string, ok: bool, nextRetryAt: int, listed: seq<Row>)
    requires AllStored(rows, listed)
    ensures AllStored(Mark(rows, id, ok, nextRetryAt), listed)
  {
    forall q | 0 <= q < |listed| ensures HasEvent(Mark(rows, id, ok, nextRetryAt), listed[q].id) {
      var i :| 0 <= i < |rows| && rows[i].id == listed[q].id;
      assert Mark(rows, id, ok, nextRetryAt)[i].id == listed[q].id;
    }
  }

  lemma {:induction false} DueStops(rows: seq<Row>, cutoff: int, limit: nat, i: nat)
    requires i <= |rows| && limit > 0 && |Due(rows[..i], cutoff, limit)| >= limit
    ensures Due(rows, cutoff, limit) == Due(rows[..i], cutoff, limit)
    decreases |rows|
  {
    if i == |rows| {
      assert rows[..i] == rows;
    } else {
      assert rows[..|rows| - 1][..i] == rows[..i];
      DueStops(rows[..|rows| - 1], cutoff, limit, i);
    }
  }

  class WebhookStorage {
    var events: seq<Row>

    constructor ()
      ensures events == []
    {
      events := [];
    }

    /** A new event is added; of a known one all attempts are forgotten, delivered or not. */
    method RecordWebhookEvent(id: string, nextRetryAt: int)
      modifies this
      ensures !HasEvent(old(events), id) ==> events == old(events) + [Row(id, 0, nextRetryAt, false)]
      ensures HasEvent(old(events), id) ==>
        && |events| == |old(events)|
        && forall i | 0 <= i < |events| ::
             events[i] == if old(events)[i].id == id then Row(id, 0, nextRetryAt, false) else old(events)[i]
      ensures events == PutEvent(old(events), Row(id, 0, nextRetryAt, false))
    {
      var before, found := events, false;
      for i := 0 to |before|
        invariant |events| == |before| && (found <==> exists j :: 0 <= j < i && before[j].id == id)
        invariant forall j | 0 <= j < i ::
          events[j] == if before[j].id == id then Row(id, 0, nextRetryAt, false) else before[j]
        invariant forall j | i <= j < |before| :: events[j] == before[j]
      {
        if before[i].id == id {
          events, found := events[i := Row(id, 0, nextRetryAt, false)], true;
        }
      }
      if !found {
        assert events == before;
        events := events + [Row(id, 0, nextRetryAt, false)];
      }
    }

    method GetWebhookEventsDue(now: int, limit: nat) returns (out: seq<Row>)
      ensures out == Due(events, now, limit)
    {
      out := [];
      for i := 0 to |events|
        invariant out == Due(events[..i], now, limit)
        invariant limit == 0 || |out| < limit
      {
        assert events[..i + 1][..i] == events[..i];
        if events[i].delivered || events[i].nextRetryAt > now {
          continue;
        }
        out := out + [events[i]];
        if limit != 0 && |out| >= limit {
          DueStops(events, now, limit, i + 1);
          return;
        }
      }
      assert events[..|events|] == events;
    }

    /** `found` is false for the "not found" error. */
    method MarkWebhookDelivered(id: string, ok: bool, nextRetryAt: int) returns (found: bool)
      modifies this
      ensures events == Mark(old(events), id, ok, nextRetryAt)
      ensures |events| == |old(events)|
      ensures forall i | 0 <= i < |events| ::
        var r := old(events)[i];
        events[i] == if r.id != id then r
                     else if ok then r.(attempts := r.attempts + 1, delivered := true)
                     else r.(attempts := r.attempts + 1, nextRetryAt := nextRetryAt)
      ensures found <==> HasEvent(old(events), id)
    {
      var before := events;
      found := false;
      for i := 0 to |before|
        invariant |events| == |before|
        invariant forall j | 0 <= j < i :: events[j] == Mark(before, id, ok, nextRetryAt)[j]
        invariant forall j | i <= j < |before| :: events[j] == before[j]
        invariant found <==> exists j :: 0 <= j < i && before[j].id == id
      {
        if events[i].id == id {
          events, found := events[i := Marked(events[i], ok, nextRetryAt)], true;
        }
      }
    }
  }

  // ---------------------------------------------------------------- steps

  /** What happened to events: attempts sent and outcomes recorded. */
  datatype Entry =
    | Posted(id: string, attempt: nat, at: int)
    | Recorded(id: string, attempt: nat, at: int, ok: bool)

  /** `queue` is the rest of the list a tick works on, `flight` the event whose POST is under way. */
  datatype Sys = Sys(rows: seq<Row>, running: bool, stopped: bool, queue: seq<Row>, flight: Option<Row>,
    log: seq<Entry>, now: int)

  datatype Step =
    | Insert(id: string, nextRetryAt: int)
    | Start
    | Stop
    | Begin(limit: nat)
    | Take
    | Record(ok: bool)
    | Finish

  predicate Enabled(s: Sys, step: Step) {
    match step
    case Insert(id, _) => !HasEvent(s.rows, id)
    case Start => true
    case Stop => true
    case Begin(_) => !s.stopped && !s.running
    case Take => s.running && s.flight.None? && s.queue != [] && !s.stopped
    case Record(_) => s.running && s.flight.Some?
    case Finish => s.running && s.flight.None? && (s.queue == [] || s.stopped)
  }

  /** The effect of a step at time `at`; `Take` skips an event whose attempts are used up. */
  function Apply(s: Sys, step: Step, at: int): Sys
    requires Enabled(s, step)
  {
    var t := s.(now := at);
    match step
    case Insert(id, nextRetryAt) => t.(rows := PutEvent(s.rows, Row(id, 0, nextRetryAt, false)))
    case Start => t.(stopped := false)
    case Stop => t.(stopped := true)
    case Begin(limit) => t.(running := true, queue := Due(s.rows, at, limit))
    case Take =>
      var e := s.queue[0];
      if e.attempts >= MAX_ATTEMPTS then t.(queue := s.queue[1..])
      else t.(queue := s.queue[1..], flight := Some(e), log := s.log + [Posted(e.id, e.attempts + 1, at)])
    case Record(ok) =>
      var e := s.flight.value;
      t.(flight := None, rows := Mark(s.rows, e.id, ok, NextRetryDate(e.attempts + 1, at)),
         log := s.log + [Recorded(e.id, e.attempts + 1, at, ok)])
    case Finish => t.(running := false, queue := [])
  }

  ghost predicate Run(states: seq<Sys>, steps: seq<(Step, int)>) {
    && |states| == |steps| + 1
    && states[0] == Sys([], false, states[0].stopped, [], None, [], states[0].now)
    && forall i | 0 <= i < |steps| ::
         && Enabled(states[i], steps[i].0) && states[i].now <= steps[i].1
         && states[i + 1] == Apply(states[i], steps[i].0, steps[i].1)
  }

  // ---------------------------------------------------------------- a tick as a method

  /** Clock readings and outcome of one delivery, and whether `stop` was called just before it. */
  datatype Delivery = Delivery(stop: bool, postAt: int, recordAt: int, ok: bool)

  function Deliver(s: Sys, d: Delivery): Sys
    requires s.running && s.flight.None? && s.queue != []
  {
    var halted := if d.stop then Apply(s, Stop, s.now) else s;
    if halted.stopped then halted
    else
      var taken := Apply(halted, Take, d.postAt);
      if taken.flight.None? then taken else Apply(taken, Record(d.ok), d.recordAt)
  }

  /** The first `n` events of the list; nothing more once stopped. */
  function Deliveries(s: Sys, env: nat -> Delivery, n: nat): (r: Sys)
    requires s.running && s.flight.None? && n <= |s.queue|
    ensures r.running && r.flight.None? && (!r.stopped ==> r.queue == s.queue[n..])
  {
    if n == 0 then s
    else
      var before := Deliveries(s, env, n - 1);
      if before.stopped then before else Deliver(before, env(n - 1))
  }

  function Tick(s: Sys, at: int, limit: nat, env: nat -> Delivery): Sys
    requires s.flight.None?
  {
    if s.stopped || s.running then s
    else
      var begun := Apply(s, Begin(limit), at);
      var done := Deliveries(begun, env, |begun.queue|);
      Apply(done, Finish, done.now)
  }

  lemma {:induction false} StoppedStays(s: Sys, env: nat -> Delivery, i: nat, n: nat)
    requires s.running && s.flight.None? && i <= n <= |s.queue| && Deliveries(s, env, i).stopped
    ensures Deliveries(s, env, n) == Deliveries(s, env, i)
  {
    if i < n {
      StoppedStays(s, env, i, n - 1);
    }
  }

  lemma DeliverEffect(s: Sys, d: Delivery)
    requires s.running && s.flight.None? && s.queue != [] && !s.stopped
    ensures var e := s.queue[0];
      Deliver(s, d) ==
        if d.stop then s.(stopped := true)
        else if e.attempts >= MAX_ATTEMPTS then s.(queue := s.queue[1..], now := d.postAt)
        else s.(queue := s.queue[1..], now := d.recordAt,
                rows := Mark(s.rows, e.id, d.ok, NextRetryDate(e.attempts + 1, d.recordAt)),
                log := s.log + [Posted(e.id, e.attempts + 1, d.postAt)]
                       + [Recorded(e.id, e.attempts + 1, d.recordAt, d.ok)])
  {
    hide Mark, NextRetryDate;
  }

  /** The step of the loop: what the delivery of event `i` adds to those before it. */
  lemma DeliveriesStep(s: Sys, env: nat -> Delivery, i: nat)
    requires s.running && s.flight.None? && i < |s.queue| && !Deliveries(s, env, i).stopped
    ensures var before, d, e := Deliveries(s, env, i), env(i), s.queue[i];
      Deliveries(s, env, i + 1) ==
        if d.stop then before.(stopped := true)
        else if e.attempts >= MAX_ATTEMPTS then before.(queue := s.queue[i + 1..], now := d.postAt)
        else before.(queue := s.queue[i + 1..], now := d.recordAt,
                     rows := Mark(before.rows, e.id, d.ok, NextRetryDate(e.attempts + 1, d.recordAt)),
                     log := before.log + [Posted(e.id, e.attempts + 1, d.postAt)]
                            + [Recorded(e.id, e.attempts + 1, d.recordAt, d.ok)])
  {
    hide Mark, NextRetryDate, Deliver;
    DeliverEffect(Deliveries(s, env, i), env(i));
    assert s.queue[i..][1..] == s.queue[i + 1..];
  }

  lemma TickIs(s: Sys, at: int, limit: nat, env: nat -> Delivery)
    requires s.flight.None? && !s.stopped && !s.running
    ensures var begun := s.(running := true, now := at, queue := Due(s.rows, at, limit));
      && Deliveries(begun, env, 0) == begun
      && Tick(s, at, limit, env) == Deliveries(begun, env, |begun.queue|).(running := false, queue := [])
  {
    hide Due, Deliver;
  }

  class WebhookDispatcher {
    const storage: WebhookStorage
    var running: bool
    var stopped: bool
    ghost var log: seq<Entry>
    ghost var now: int

    constructor (storage: WebhookStorage, now: int)
      ensures this.storage == storage && this.now == now && !running && !stopped && log == []
    {
      this.storage, this.running, this.stopped := storage, false, false;
      this.log, this.now := [], now;
    }

    ghost function View(): Sys
      reads this, storage
    {
      Sys(storage.events, running, stopped, [], None, log, now)
    }

    method RunTick(at: int, limit: nat, env: nat -> Delivery)
      modifies this, storage
      ensures View() == Tick(old(View()), at, limit, env)
    {
      hide Due, Mark, NextRetryDate, Deliveries, AllStored, Deliver, Apply, HasEvent;
      if stopped || running {
        return;
      }
      running, now := true, at;
      var due := storage.GetWebhookEventsDue(at, limit);
      DueAreStored(storage.events, at, limit);
      hide Tick;
      TickIs(old(View()), at, limit, env);
      ghost var begun := old(View()).(running := true, now := at, queue := due);
      var i := 0;
      while i < |due|
        invariant 0 <= i <= |due| && running && !stopped
        invariant View().(queue := due[i..]) == Deliveries(begun, env, i)
        invariant AllStored(storage.events, due)
        decreases |due| - i
      {
        var d := env(i);
        DeliveriesStep(begun, env, i);
        if d.stop {
          stopped := true;
        }
        if stopped {
          StoppedStays(begun, env, i + 1, |due|);
          break;
        }
        DeliverOne(due[i], d, due);
        i := i + 1;
      }
      running := false;
    }

    /** `listed` is the list the event was taken from. */
    method DeliverOne(evt: Row, d: Delivery, ghost listed: seq<Row>)
      requires AllStored(storage.events, listed) && evt in listed
      modifies this`log, this`now, storage
      ensures running == old(running) && stopped == old(stopped) && AllStored(storage.events, listed)
      ensures storage.events
           == if evt.attempts >= MAX_ATTEMPTS then old(storage.events)
              else Mark(old(storage.events), evt.id, d.ok, NextRetryDate(evt.attempts + 1, d.recordAt))
      ensures log == if evt.attempts >= MAX_ATTEMPTS then old(log)
                     else old(log) + [Posted(evt.id, evt.attempts + 1, d.postAt)]
                          + [Recorded(evt.id, evt.attempts + 1, d.recordAt, d.ok)]
      ensures now == if evt.attempts >= MAX_ATTEMPTS then d.postAt else d.recordAt
    {
      now := d.postAt;
      if evt.attempts >= MAX_ATTEMPTS {
        return;
      }
      var attemptNumber := evt.attempts + 1;
      log := log + [Posted(evt.id, attemptNumber, d.postAt)];
      var nextRetryAt := NextRetryDate(attemptNumber, d.recordAt);
      MarkKeepsStored(storage.events, evt.id, d.ok, nextRetryAt, listed);
      var found := storage.MarkWebhookDelivered(evt.id, d.ok, nextRetryAt);
      assert found;
      log, now := log + [Recorded(evt.id, attemptNumber, d.recordAt, d.ok)], d.recordAt;
    }
  }

  // ---------------------------------------------------------------- the history of one event

  function Of(log: seq<Entry>, id: string): seq<Entry> {
    if log == [] then []
    else
      var before, e := Of(log[..|log| - 1], id), log[|log| - 1];
      if e.id == id then before + [e] else before
  }

  lemma OfPush(log: seq<Entry>, e: Entry, id: string)
    ensures Of(log + [e], id) == if e.id == id then Of(log, id) + [e] else Of(log, id)
  {
    assert (log + [e])[..|log|] == log;
  }

  /**
   Attempts are numbered 1, 2, 3, ..., at most ten; each is sent, then its outcome is recorded; only a
   failure is followed by another attempt, and not before the curve allows it.
   */
  ghost predicate Orderly(h: seq<Entry>) {
    && |h| <= 2 * MAX_ATTEMPTS
    && (forall i | 0 <= i < |h| :: h[i].attempt == i / 2 + 1 && (h[i].Posted? <==> i % 2 == 0))
    && (forall i | 0 <= i < |h| - 1 && h[i].Recorded? :: !h[i].ok && h[i + 1].at >= h[i].at + Delay(i / 2))
  }

  /** The stored row is what its history says. */
  ghost predicate Fits(r: Row, h: seq<Entry>, inFlight: bool) {
    && Orderly(h)
    && |h| == 2 * r.attempts + (if inFlight then 1 else 0)
    && (r.delivered <==> r.attempts > 0 && h[2 * r.attempts - 1].Recorded? && h[2 * r.attempts - 1].ok)
    && (inFlight ==> !r.delivered)
    && (r.attempts > 0 && !r.delivered ==> r.nextRetryAt == h[2 * r.attempts - 1].at + Delay(r.attempts - 1))
  }

  /** Different due events, as they are stored. */
  ghost predicate Listed(rows: seq<Row>, due: seq<Row>, cutoff: int) {
    && (forall q | 0 <= q < |due| :: due[q] in rows)
    && (forall q | 0 <= q < |due| :: IsDue(due[q], cutoff))
    && (forall p, q | 0 <= p < q < |due| :: due[p].id != due[q].id)
  }

  ghost predicate Inv(s: Sys) {
    && (forall i, j | 0 <= i < j < |s.rows| :: s.rows[i].id != s.rows[j].id)
    && (forall i | 0 <= i < |s.rows| :: Fits(s.rows[i], Of(s.log, s.rows[i].id), s.flight == Some(s.rows[i])))
    && (forall e | e in s.log :: exists i :: 0 <= i < |s.rows| && s.rows[i].id == e.id)
    && Listed(s.rows, s.queue, s.now)
    && (s.flight.Some? ==>
          && s.flight.value in s.rows && s.flight.value.attempts < MAX_ATTEMPTS
          && forall q | 0 <= q < |s.queue| :: s.queue[q].id != s.flight.value.id)
  }

  lemma DuePush(rows: seq<Row>, due: seq<Row>, r: Row, cutoff: int)
    requires Listed(rows, due, cutoff) && forall i | 0 <= i < |rows| :: rows[i].id != r.id
    ensures Listed(rows + [r], due, cutoff) && (IsDue(r, cutoff) ==> Listed(rows + [r], due + [r], cutoff))
  {
    hide IsDue;
    forall q | 0 <= q < |due| ensures due[q] in rows + [r] && due[q].id != r.id {
      assert due[q] in rows;
    }
  }

  lemma {:induction false} DueMembers(rows: seq<Row>, cutoff: int, limit: nat)
    requires forall i, j | 0 <= i < j < |rows| :: rows[i].id != rows[j].id
    ensures Listed(rows, Due(rows, cutoff, limit), cutoff)
  {
    hide IsDue, Listed;
    if rows == [] {
      assert Listed(rows, [], cutoff) by { NothingListed(rows, cutoff); }
    } else {
      var n := |rows| - 1;
      DueMembers(rows[..n], cutoff, limit);
      DuePush(rows[..n], Due(rows[..n], cutoff, limit), rows[n], cutoff);
      assert rows == rows[..n] + [rows[n]];
    }
  }

  lemma NothingListed(rows: seq<Row>, cutoff: int)
    ensures Listed(rows, [], cutoff)
  {
  }

  lemma {:induction false} NoHistory(log: seq<Entry>, id: string)
    requires forall e | e in log :: e.id != id
    ensures Of(log, id) == []
  {
    if log != [] {
      NoHistory(log[..|log| - 1], id);
    }
  }

  lemma OrderlyPost(h: seq<Entry>, e: Entry)
    requires Orderly(h) && |h| % 2 == 0 && |h| < 2 * MAX_ATTEMPTS && e.Posted? && e.attempt == |h| / 2 + 1
    requires h != [] ==> var last := h[|h| - 1];
      last.Recorded? && !last.ok && e.at >= last.at + Delay(|h| / 2 - 1)
    ensures Orderly(h + [e])
  {
    hide Delay;
  }

  lemma OrderlyRecord(h: seq<Entry>, e: Entry)
    requires Orderly(h) && |h| % 2 == 1 && e.Recorded? && e.attempt == |h| / 2 + 1
    ensures Orderly(h + [e])
  {
    hide Delay;
  }

  lemma Kinds(h: seq<Entry>, i: nat)
    requires Orderly(h) && i < |h|
    ensures h[i].Posted? <==> i % 2 == 0
    ensures i + 1 < |h| && h[i].Recorded? ==> !h[i].ok
  {
  }

  lemma FitsPost(r: Row, h: seq<Entry>, at: int)
    requires Fits(r, h, false) && IsDue(r, at) && r.attempts < MAX_ATTEMPTS
    ensures Fits(r, h + [Posted(r.id, r.attempts + 1, at)], true)
  {
    hide Orderly;
    if r.attempts > 0 {
      Kinds(h, |h| - 1);
    }
    OrderlyPost(h, Posted(r.id, r.attempts + 1, at));
  }

  lemma CurveDelay(attempt: nat, at: int)
    requires attempt < MAX_ATTEMPTS
    ensures NextRetryDate(attempt + 1, at) == at + Delay(attempt)
  {
  }

  lemma FitsRecord(r: Row, h: seq<Entry>, at: int, ok: bool)
    requires Fits(r, h, true) && r.attempts < MAX_ATTEMPTS
    ensures Fits(Marked(r, ok, NextRetryDate(r.attempts + 1, at)), h + [Recorded(r.id, r.attempts + 1, at, ok)], false)
  {
    hide Orderly, NextRetryDate;
    CurveDelay(r.attempts, at);
    OrderlyRecord(h, Recorded(r.id, r.attempts + 1, at, ok));
  }

  lemma InsertKeepsInv(s: Sys, id: string, nextRetryAt: int, at: int)
    requires Inv(s) && Enabled(s, Insert(id, nextRetryAt)) && s.now <= at
    ensures Inv(Apply(s, Insert(id, nextRetryAt), at))
  {
    hide Orderly, Of, Due, Mark;
    var s' := Apply(s, Insert(id, nextRetryAt), at);
    NoHistory(s.log, id);
    assert Fits(Row(id, 0, nextRetryAt, false), [], false) by { EmptyFits(id, nextRetryAt); }
    forall e | e in s'.log ensures exists i :: 0 <= i < |s'.rows| && s'.rows[i].id == e.id {
      var i :| 0 <= i < |s.rows| && s.rows[i].id == e.id;
      assert s'.rows[i].id == e.id;
    }
  }

  lemma EmptyFits(id: string, nextRetryAt: int)
    ensures Fits(Row(id, 0, nextRetryAt, false), [], false)
  {
  }

  lemma BeginKeepsInv(s: Sys, limit: nat, at: int)
    requires Inv(s) && Enabled(s, Begin(limit)) && s.now <= at && s.flight.None?
    ensures Inv(Apply(s, Begin(limit), at))
  {
    hide Fits, Of, Due;
    DueMembers(s.rows, at, limit);
  }

  lemma TakeKeepsInv(s: Sys, at: int)
    requires Inv(s) && Enabled(s, Take) && s.now <= at
    ensures Inv(Apply(s, Take, at))
  {
    hide Fits, Of, Due, Mark;
    var s', e := Apply(s, Take, at), s.queue[0];
    var post := Posted(e.id, e.attempts + 1, at);
    forall i | 0 <= i < |s'.rows| ensures Fits(s'.rows[i], Of(s'.log, s'.rows[i].id), s'.flight == Some(s'.rows[i])) {
      OfPush(s.log, post, s.rows[i].id);
      if e.attempts < MAX_ATTEMPTS && s.rows[i].id == e.id {
        assert s.rows[i] == e by { SameRow(s.rows, i, e); }
        FitsPost(e, Of(s.log, e.id), at);
      }
    }
    assert forall q | 0 <= q < |s'.queue| :: s'.queue[q] == s.queue[q + 1];
  }

  lemma SameRow(rows: seq<Row>, i: nat, e: Row)
    requires forall i, j | 0 <= i < j < |rows| :: rows[i].id != rows[j].id
    requires i < |rows| && e in rows && rows[i].id == e.id
    ensures rows[i] == e
  {
    var j :| 0 <= j < |rows| && rows[j] == e;
  }

  /** Recording an outcome changes the one row, which then fits its longer history. */
  lemma RecordFits(s: Sys, ok: bool, at: int, i: nat)
    requires Inv(s) && Enabled(s, Record(ok)) && i < |s.rows|
    ensures var s' := Apply(s, Record(ok), at);
      && Fits(s'.rows[i], Of(s'.log, s'.rows[i].id), false)
      && (s.rows[i].id == s.flight.value.id || s'.rows[i] == s.rows[i])
  {
    hide Fits, Of, NextRetryDate;
    var e := s.flight.value;
    OfPush(s.log, Recorded(e.id, e.attempts + 1, at, ok), s.rows[i].id);
    if s.rows[i].id == e.id {
      SameRow(s.rows, i, e);
      FitsRecord(e, Of(s.log, e.id), at, ok);
    }
  }

  lemma RecordKeepsInv(s: Sys, ok: bool, at: int)
    requires Inv(s) && Enabled(s, Record(ok)) && s.now <= at
    ensures Inv(Apply(s, Record(ok), at))
  {
    hide Fits, Of, NextRetryDate, Marked;
    var s', e := Apply(s, Record(ok), at), s.flight.value;
    forall i | 0 <= i < |s'.rows|
      ensures s'.rows[i].id == s.rows[i].id && Fits(s'.rows[i], Of(s'.log, s'.rows[i].id), false)
      ensures s.rows[i].id == e.id || s'.rows[i] == s.rows[i]
    {
      RecordFits(s, ok, at, i);
      MarkKeepsIds(s.rows, e.id, ok, NextRetryDate(e.attempts + 1, at), i);
    }
    forall x | x in s'.log ensures exists i :: 0 <= i < |s'.rows| && s'.rows[i].id == x.id {
      LoggedIsRow(s, x.id);
      var i :| 0 <= i < |s.rows| && s.rows[i].id == x.id;
      assert s'.rows[i].id == x.id;
    }
    forall q | 0 <= q < |s'.queue| ensures s'.queue[q] in s'.rows {
      var j :| 0 <= j < |s.rows| && s.rows[j] == s.queue[q];
      assert s'.rows[j] == s.rows[j];
    }
  }

  lemma MarkKeepsIds(rows: seq<Row>, id: string, ok: bool, nextRetryAt: int, i: nat)
    requires i < |rows|
    ensures Mark(rows, id, ok, nextRetryAt)[i].id == rows[i].id
  {
  }

  lemma LoggedIsRow(s: Sys, id: string)
    requires Inv(s) && s.flight.Some? && (id == s.flight.value.id || exists x :: x in s.log && x.id == id)
    ensures exists i :: 0 <= i < |s.rows| && s.rows[i].id == id
  {
    hide Fits, Of;
    if id == s.flight.value.id {
      var j :| 0 <= j < |s.rows| && s.rows[j] == s.flight.value;
    }
  }

  lemma {:induction false} RunKeepsInv(states: seq<Sys>, steps: seq<(Step, int)>, i: nat)
    requires Run(states, steps) && i < |states|
    ensures Inv(states[i]) && (!states[i].running ==> states[i].flight.None?)
  {
    hide Fits, Of, Due, Mark;
    if i > 0 {
      RunKeepsInv(states, steps, i - 1);
      var s, at := states[i - 1], steps[i - 1].1;
      match steps[i - 1].0
      case Insert(id, nextRetryAt) => InsertKeepsInv(s, id, nextRetryAt, at);
      case Begin(limit) => BeginKeepsInv(s, limit, at);
      case Take => TakeKeepsInv(s, at);
      case Record(ok) => RecordKeepsInv(s, ok, at);
      case _ => LaterKeepsInv(s, Apply(s, steps[i - 1].0, at));
    }
  }

  lemma LaterKeepsInv(s: Sys, s': Sys)
    requires Inv(s) && s.now <= s'.now
    requires s'.rows == s.rows && s'.log == s.log && s'.flight == s.flight && (s'.queue == s.queue || s'.queue == [])
    ensures Inv(s')
  {
    hide Fits, Of;
  }

  // ---------------------------------------------------------------- the promises

  /**
   In every run each event's history is orderly: attempts 1, 2, 3, ... in order, at most ten, none after a
   success, and attempt k + 1 no sooner than the k-th delay after the failure of attempt k was recorded.
   */
  lemma HistoriesAreOrderly(states: seq<Sys>, steps: seq<(Step, int)>, i: nat, id: string)
    requires Run(states, steps) && i < |states|
    ensures Orderly(Of(states[i].log, id))
  {
    hide Run, Of, Due, Mark;
    RunKeepsInv(states, steps, i);
    var s := states[i];
    if e :| e in s.log && e.id == id {
      var k :| 0 <= k < |s.rows| && s.rows[k].id == e.id;
      assert Fits(s.rows[k], Of(s.log, s.rows[k].id), s.flight == Some(s.rows[k]));
    } else {
      NoHistory(s.log, id);
    }
  }

  function Posts(h: seq<Entry>): nat {
    if h == [] then 0 else Posts(h[..|h| - 1]) + if h[|h| - 1].Posted? then 1 else 0
  }

  lemma {:induction false} PostsOfOrderly(h: seq<Entry>)
    requires forall i | 0 <= i < |h| :: h[i].Posted? <==> i % 2 == 0
    ensures Posts(h) == (|h| + 1) / 2
  {
    if h != [] {
      PostsOfOrderly(h[..|h| - 1]);
    }
  }

  /** No event is POSTed more than ten times. */
  lemma AtMostTenPosts(states: seq<Sys>, steps: seq<(Step, int)>, i: nat, id: string)
    requires Run(states, steps) && i < |states|
    ensures Posts(Of(states[i].log, id)) <= 10
  {
    hide Run, Of;
    HistoriesAreOrderly(states, steps, i, id);
    PostsOfOrderly(Of(states[i].log, id));
  }

  /** Entries in the order of the clock, none of them in the future. */
  predicate InOrder(log: seq<Entry>, now: int) {
    && (forall i, j | 0 <= i < j < |log| :: log[i].at <= log[j].at)
    && (forall i | 0 <= i < |log| :: log[i].at <= now)
  }

  lemma {:induction false} RunInOrder(states: seq<Sys>, steps: seq<(Step, int)>, i: nat)
    requires Run(states, steps) && i < |states|
    ensures InOrder(states[i].log, states[i].now)
  {
    hide Due, Mark, PutEvent, HasEvent, NextRetryDate, InOrder;
    if i == 0 {
      NothingLogged(states[0].now);
    } else {
      RunInOrder(states, steps, i - 1);
      var s, s' := states[i - 1], states[i];
      if s'.log == s.log {
        OrderLater(s.log, s.now, s'.now);
      } else {
        OrderPush(s.log, s.now, s'.log[|s.log|]);
      }
    }
  }

  lemma NothingLogged(now: int)
    ensures InOrder([], now)
  {
  }

  lemma OrderLater(log: seq<Entry>, now: int, later: int)
    requires InOrder(log, now) && now <= later
    ensures InOrder(log, later)
  {
  }

  lemma OrderPush(log: seq<Entry>, now: int, e: Entry)
    requires InOrder(log, now) && now <= e.at
    ensures InOrder(log + [e], e.at)
  {
  }

  lemma {:induction false} OfInOrder(log: seq<Entry>, now: int, id: string)
    requires InOrder(log, now)
    ensures InOrder(Of(log, id), now)
  {
    if log != [] {
      OfInOrder(log[..|log| - 1], log[|log| - 1].at, id);
    }
  }

  /** The sums of the first delays, in milliseconds: 1 s, 6 s, 36 s, ..., the last one a little under 17 hours. */
  const EARLIEST: seq<int> := [0, 1000, 6000, 36000, 156000, 756000, 2556000, 6156000, 16956000, 60156000]

  lemma EarliestStep(k: nat)
    requires k + 1 < 10
    ensures EARLIEST[k + 1] == EARLIEST[k] + Delay(k)
  {
  }

  lemma {:induction false} OrderlyIsSpaced(h: seq<Entry>, now: int, k: nat)
    requires Orderly(h) && InOrder(h, now) && 2 * k < |h|
    ensures k < 10 && h[2 * k].Posted? && h[2 * k].attempt == k + 1 && h[2 * k].at >= h[0].at + EARLIEST[k]
  {
    hide Delay;
    if k > 0 {
      OrderlyIsSpaced(h, now, k - 1);
      EarliestStep(k - 1);
      assert h[2 * k - 1].Recorded? && (2 * k - 1) / 2 == k - 1;
    }
  }

  /** In every run attempt `k + 1` is sent no sooner after the first one than the delays before it add up to. */
  lemma AttemptsAreSpaced(states: seq<Sys>, steps: seq<(Step, int)>, i: nat, id: string, k: nat)
    requires Run(states, steps) && i < |states| && 2 * k < |Of(states[i].log, id)|
    ensures var h := Of(states[i].log, id);
      k < 10 && h[2 * k].Posted? && h[2 * k].attempt == k + 1 && h[2 * k].at >= h[0].at + EARLIEST[k]
  {
    hide Run, Of, Orderly, InOrder;
    HistoriesAreOrderly(states, steps, i, id);
    RunInOrder(states, steps, i);
    OfInOrder(states[i].log, states[i].now, id);
    OrderlyIsSpaced(Of(states[i].log, id), states[i].now, k);
  }

  /** A tick, with whatever stop request arrives during it, is itself a piece of a run. */
  lemma TickKeepsInv(s: Sys, at: int, limit: nat, env: nat -> Delivery)
    requires Inv(s) && s.flight.None? && s.now <= at
    requires forall k: nat :: at <= env(k).postAt <= env(k).recordAt <= env(k + 1).postAt
    ensures Inv(Tick(s, at, limit, env))
  {
    hide Inv, Deliveries, Due;
    if !s.stopped && !s.running {
      BeginKeepsInv(s, limit, at);
      var begun := Apply(s, Begin(limit), at);
      DeliveriesKeepInv(begun, env, |begun.queue|);
      LaterKeepsInv(Deliveries(begun, env, |begun.queue|), Tick(s, at, limit, env));
    }
  }

  lemma {:induction false} DeliveriesKeepInv(s: Sys, env: nat -> Delivery, n: nat)
    requires Inv(s) && s.running && s.flight.None? && n <= |s.queue|
    requires forall k: nat :: s.now <= env(k).postAt <= env(k).recordAt <= env(k + 1).postAt
    ensures Inv(Deliveries(s, env, n)) && Deliveries(s, env, n).now <= env(n).postAt
  {
    hide Inv, Mark, NextRetryDate;
    if n > 0 {
      DeliveriesKeepInv(s, env, n - 1);
      var before, d := Deliveries(s, env, n - 1), env(n - 1);
      assert d.recordAt <= env(n - 1 + 1).postAt;
      if !before.stopped {
        var halted := if d.stop then Apply(before, Stop, before.now) else before;
        LaterKeepsInv(before, halted);
        if !halted.stopped {
          TakeKeepsInv(halted, d.postAt);
          var taken := Apply(halted, Take, d.postAt);
          if taken.flight.Some? {
            RecordKeepsInv(taken, d.ok, d.recordAt);
          }
        }
      }
    }
  }

  // ---------------------------------------------------------------- dead events stay in the list

  /**
   Contrary to the comment on the curve, used-up events come back into the list: an undisturbed tick sends
   something exactly when its list holds an event with attempts left, so a full batch of used-up events
   blocks every event stored behind them.
   */
  lemma QuietIff(s: Sys, at: int, limit: nat, env: nat -> Delivery)
    requires s.flight.None? && !s.stopped && !s.running && forall k :: !env(k).stop
    ensures Tick(s, at, limit, env).log == s.log
            <==> forall r | r in Due(s.rows, at, limit) :: r.attempts >= MAX_ATTEMPTS
    ensures Tick(s, at, limit, env).log == s.log ==> Tick(s, at, limit, env).rows == s.rows
  {
    hide Due, Deliveries;
    var begun := Apply(s, Begin(limit), at);
    QuietUpTo(begun, env, |begun.queue|);
    assert begun.queue[..|begun.queue|] == begun.queue;
  }

  lemma {:induction false} QuietUpTo(s: Sys, env: nat -> Delivery, n: nat)
    requires s.running && s.flight.None? && n <= |s.queue| && !s.stopped && forall k :: !env(k).stop
    ensures var d := Deliveries(s, env, n);
      && !d.stopped && |d.log| >= |s.log|
      && (|d.log| == |s.log| <==> forall r | r in s.queue[..n] :: r.attempts >= MAX_ATTEMPTS)
      && (|d.log| == |s.log| ==> d.log == s.log && d.rows == s.rows)
  {
    hide Deliver, Mark, NextRetryDate;
    if n > 0 {
      QuietUpTo(s, env, n - 1);
      DeliverEffect(Deliveries(s, env, n - 1), env(n - 1));
      assert s.queue[..n] == s.queue[..n - 1] + [s.queue[n - 1]];
      assert s.queue[n - 1..][0] == s.queue[n - 1];
    }
  }

  /** A used-up event is due again exactly from a day after its tenth failure was recorded. */
  lemma UsedUpDueIff(states: seq<Sys>, steps: seq<(Step, int)>, i: nat, r: nat, t: int)
    requires Run(states, steps) && i < |states| && r < |states[i].rows|
    requires states[i].rows[r].attempts == MAX_ATTEMPTS && !states[i].rows[r].delivered
    ensures var h := Of(states[i].log, states[i].rows[r].id);
      && |h| == 2 * MAX_ATTEMPTS && h[|h| - 1].Recorded? && !h[|h| - 1].ok
      && (IsDue(states[i].rows[r], t) <==> t >= h[|h| - 1].at + 24 * HOUR)
  {
    hide Run, Of;
    RunKeepsInv(states, steps, i);
    var s := states[i];
    assert Fits(s.rows[r], Of(s.log, s.rows[r].id), s.flight == Some(s.rows[r]));
  }

  /** A due row is listed exactly if the limit is not used up by due rows stored before it. */
  lemma {:induction false} ListedIff(rows: seq<Row>, cutoff: int, limit: nat, q: nat)
    requires forall i, j | 0 <= i < j < |rows| :: rows[i].id != rows[j].id
    requires q < |rows| && IsDue(rows[q], cutoff)
    ensures rows[q] in Due(rows, cutoff, limit) <==> limit == 0 || |Due(rows[..q], cutoff, limit)| < limit
    decreases |rows|
  {
    hide IsDue;
    var n := |rows| - 1;
    DueMembers(rows[..n], cutoff, limit);
    var before := Due(rows[..n], cutoff, limit);
    if q < n {
      ListedIff(rows[..n], cutoff, limit, q);
      assert rows[..n][..q] == rows[..q] && rows[..n][q] == rows[q];
    } else {
      assert rows[..n] == rows[..q];
      forall p | 0 <= p < |before| ensures before[p] != rows[n] {
        assert before[p] in rows[..n];
      }
    }
  }

  /** Attempts on this event that were sent after the log had length `n`. */
  predicate PostedSince(log: seq<Entry>, n: nat, id: string) {
    exists i :: n <= i < |log| && log[i].Posted? && log[i].id == id
  }

  lemma PostedAppended(log: seq<Entry>, n: nat, id: string, post: Entry, outcome: Entry)
    requires n <= |log| && post.Posted? && outcome.Recorded?
    ensures PostedSince(log + [post] + [outcome], n, id) <==> PostedSince(log, n, id) || post.id == id
  {
    var after := log + [post] + [outcome];
    if PostedSince(log, n, id) {
      var i :| n <= i < |log| && log[i].Posted? && log[i].id == id;
      assert after[i] == log[i];
    }
    assert after[|log|] == post && after[|log| + 1] == outcome;
  }

  /** Undisturbed, the first `n` deliveries send exactly the listed events that have attempts left. */
  lemma {:induction false} DeliveriesPost(s: Sys, env: nat -> Delivery, n: nat, id: string)
    requires s.running && s.flight.None? && n <= |s.queue| && !s.stopped && forall k :: !env(k).stop
    ensures var d := Deliveries(s, env, n);
      && !d.stopped && |s.log| <= |d.log|
      && (PostedSince(d.log, |s.log|, id) <==> exists r :: r in s.queue[..n] && r.id == id && r.attempts < MAX_ATTEMPTS)
  {
    hide Deliver, Mark, NextRetryDate, PostedSince;
    if n == 0 {
      NothingPosted(s.log, id);
    } else {
      DeliveriesPost(s, env, n - 1, id);
      var before, e, d := Deliveries(s, env, n - 1), s.queue[n - 1], env(n - 1);
      DeliverEffect(before, d);
      assert s.queue[..n] == s.queue[..n - 1] + [e];
      assert s.queue[n - 1..][0] == e;
      PostedAppended(before.log, |s.log|, id, Posted(e.id, e.attempts + 1, d.postAt),
                     Recorded(e.id, e.attempts + 1, d.recordAt, d.ok));
    }
  }

  lemma NothingPosted(log: seq<Entry>, id: string)
    ensures !PostedSince(log, |log|, id)
  {
  }

  /**
   Which event a full batch hides, exactly: an undisturbed tick sends a due event that has attempts left if and
   only if fewer than `limit` due events, used up or not, are stored before it.
   */
  lemma PostedIff(s: Sys, at: int, limit: nat, env: nat -> Delivery, q: nat)
    requires Inv(s) && s.flight.None? && !s.stopped && !s.running && forall k :: !env(k).stop
    requires q < |s.rows| && IsDue(s.rows[q], at) && s.rows[q].attempts < MAX_ATTEMPTS
    ensures PostedSince(Tick(s, at, limit, env).log, |s.log|, s.rows[q].id)
            <==> limit == 0 || |Due(s.rows[..q], at, limit)| < limit
  {
    hide Due, IsDue, Deliveries, PostedSince, Fits, Of;
    var begun := Apply(s, Begin(limit), at);
    var n := |begun.queue|;
    assert begun.queue[..n] == begun.queue;
    DeliveriesPost(begun, env, n, s.rows[q].id);
    ListedIff(s.rows, at, limit, q);
    DueMembers(s.rows, at, limit);
    forall r | r in begun.queue && r.id == s.rows[q].id ensures r == s.rows[q] {
      var p :| 0 <= p < n && begun.queue[p] == r;
      assert begun.queue[p] in s.rows;
      SameRow(s.rows, q, r);
    }
  }

  // ---------------------------------------------------------------- a run in which an event starves

  lemma Extend(states: seq<Sys>, steps: seq<(Step, int)>, step: Step, at: int)
    returns (states': seq<Sys>, steps': seq<(Step, int)>)
    requires Run(states, steps) && Enabled(states[|steps|], step) && states[|steps|].now <= at
    ensures Run(states', steps') && |steps'| == |steps| + 1
    ensures states'[|steps'|] == Apply(states[|steps|], step, at)
  {
    hide Due, Mark, NextRetryDate;
    states', steps' := states + [Apply(states[|steps|], step, at)], steps + [(step, at)];
    forall i | 0 <= i < |steps'|
      ensures Enabled(states'[i], steps'[i].0) && states'[i].now <= steps'[i].1
      ensures states'[i + 1] == Apply(states'[i], steps'[i].0, steps'[i].1)
    {
      if i < |steps| {
        assert states'[i] == states[i] && states'[i + 1] == states[i + 1] && steps'[i] == steps[i];
      }
    }
  }

  /** Between ticks, with one event of `n` failed attempts. */
  predicate OneFailed(s: Sys, n: nat) {
    && !s.running && !s.stopped && s.queue == [] && s.flight.None?
    && |s.rows| == 1 && s.rows[0].id == "first" && s.rows[0].attempts == n && !s.rows[0].delivered
  }

  lemma {:induction false} CanFail(n: nat) returns (states: seq<Sys>, steps: seq<(Step, int)>)
    requires n <= MAX_ATTEMPTS
    ensures Run(states, steps) && OneFailed(states[|steps|], n)
  {
    if n == 0 {
      states, steps := [Sys([], false, false, [], None, [], 0)], [];
      states, steps := Extend(states, steps, Insert("first", 0), 0);
    } else {
      states, steps := CanFail(n - 1);
      states, steps := FailAgain(states, steps, n - 1);
    }
  }

  lemma RunLength(states: seq<Sys>, steps: seq<(Step, int)>)
    requires Run(states, steps)
    ensures |states| == |steps| + 1
  {
  }

  lemma FailAgain(states0: seq<Sys>, steps0: seq<(Step, int)>, n: nat)
    returns (states: seq<Sys>, steps: seq<(Step, int)>)
    requires n < MAX_ATTEMPTS && Run(states0, steps0) && OneFailed(states0[|steps0|], n)
    ensures Run(states, steps) && OneFailed(states[|steps|], n + 1)
  {
    hide NextRetryDate, Run, PutEvent, HasEvent;
    RunLength(states0, steps0);
    states, steps := states0, steps0;
    var s := states[|steps|];
    var at := if s.now < s.rows[0].nextRetryAt then s.rows[0].nextRetryAt else s.now;
    OnlyDue(s.rows[0], at);
    states, steps := Extend(states, steps, Begin(1), at);
    states, steps := Extend(states, steps, Take, at);
    states, steps := Extend(states, steps, Record(false), at);
    states, steps := Extend(states, steps, Finish, at);
  }

  lemma OnlyDue(r: Row, at: int)
    ensures Due([r], at, 1) == if IsDue(r, at) then [r] else []
  {
    assert [r][..0] == [];
  }

  /**
   With batches of one, an event whose attempts are used up hides a newer one for good: a run reaches a state
   in which an event never sent is due, and no undisturbed tick, however late, sends anything.
   */
  lemma LiveEventStarves() returns (states: seq<Sys>, steps: seq<(Step, int)>, from: int)
    ensures Run(states, steps)
    ensures var s := states[|steps|];
      && !s.running && !s.stopped && s.flight.None? && s.now <= from && |s.rows| == 2
      && s.rows[1].attempts == 0 && IsDue(s.rows[1], from)
      && forall at, env: nat -> Delivery | at >= from && (forall k :: !env(k).stop) ::
           Tick(s, at, 1, env).log == s.log && Tick(s, at, 1, env).rows == s.rows
  {
    hide Tick, Mark, NextRetryDate, Due;
    states, steps := CanFail(MAX_ATTEMPTS);
    states, steps := Extend(states, steps, Insert("second", 0), states[|steps|].now);
    var s := states[|steps|];
    from := if s.now < s.rows[0].nextRetryAt then s.rows[0].nextRetryAt else s.now;
    from := if from < 0 then 0 else from;
    forall at, env: nat -> Delivery | at >= from && (forall k :: !env(k).stop)
      ensures Tick(s, at, 1, env).log == s.log && Tick(s, at, 1, env).rows == s.rows
    {
      OnlyDue(s.rows[0], at);
      assert s.rows[..1] == [s.rows[0]];
      DueStops(s.rows, at, 1, 1);
      QuietIff(s, at, 1, env);
    }
  }
}
