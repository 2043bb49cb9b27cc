/**
 Nonces of the fixed-address mode: the low four decimals of an amount name the invoice. The allocator
 walks a ring of 9999 slots from an arbitrary start and takes the first free one.
 */
module AmountNonce {
  import opened Results

  const NONCE_MAX := 9999
  const NONCE_MODULUS := 10000

  /** A JavaScript number as the allocator's `start`: any real, or a non-finite value. */
  datatype Start = Finite(r: real) | NonFinite

  /** JavaScript `%` on integers keeps the sign of the dividend. */
  function Remainder(a: int, b: int): int
    requires 0 < b
  {
    if a >= 0 then a % b else -((-a) % b)
  }

  function NormalizeStart(start: Start): (n: int)
    ensures 1 <= n <= NONCE_MAX
  {
    match start
    case NonFinite => 1
    case Finite(r) => Remainder(Remainder(r.Floor - 1, NONCE_MAX) + NONCE_MAX, NONCE_MAX) + 1
  }

  /** Slot reached after `i` steps from `origin`. */
  function Slot(origin: int, i: nat): (n: int)
    requires 1 <= origin <= NONCE_MAX
    ensures 1 <= n <= NONCE_MAX
  {
    (origin - 1 + i) % NONCE_MAX + 1
  }

  /** Number of steps after which a slot is reached. */
  function Steps(origin: int, n: int): (i: nat)
    requires 1 <= origin <= NONCE_MAX && 1 <= n <= NONCE_MAX
    ensures i < NONCE_MAX
  {
    if n >= origin then n - origin else n - origin + NONCE_MAX
  }

  /** From every start the walk visits every slot, and each exactly once. */
  lemma RingVisitsEachOnce(start: Start, n: int)
    requires 1 <= n <= NONCE_MAX
    ensures var origin := NormalizeStart(start);
      && Slot(origin, Steps(origin, n)) == n
      && forall i: nat :: i < NONCE_MAX && Slot(origin, i) == n ==> i == Steps(origin, n)
  {
  }

  /** A start that is not finite is the first slot, and only the whole part of a finite one matters. */
  lemma StartIsWhole(r: real)
    ensures NormalizeStart(NonFinite) == 1
    ensures NormalizeStart(Finite(r)) == NormalizeStart(Finite(r.Floor as real))
  {
  }

  /** Starts that differ by a whole number of turns are the same start, negative ones included. */
  lemma StartWraps(k: int, turns: int)
    ensures NormalizeStart(Finite((k + NONCE_MAX * turns) as real)) == NormalizeStart(Finite(k as real))
    ensures 1 <= k <= NONCE_MAX ==> NormalizeStart(Finite(k as real)) == k
  {
    RemainderWraps(k - 1);
    RemainderWraps(k + NONCE_MAX * turns - 1);
    assert (k as real).Floor == k && ((k + NONCE_MAX * turns) as real).Floor == k + NONCE_MAX * turns;
    TurnsVanish(k - 1, turns);
  }

  lemma RemainderWraps(a: int)
    ensures Remainder(Remainder(a, NONCE_MAX) + NONCE_MAX, NONCE_MAX) == a % NONCE_MAX
  {
  }

  lemma {:induction false} TurnsVanish(a: int, turns: int)
    ensures (a + NONCE_MAX * turns) % NONCE_MAX == a % NONCE_MAX
    decreases if turns < 0 then -turns else turns
  {
    if turns > 0 {
      TurnsVanish(a, turns - 1);
    } else if turns < 0 {
      TurnsVanish(a, turns + 1);
    }
  }

  /** First free slot among those from step `i` on. */
  function FirstFree(active: set<int>, origin: int, i: nat): Option<int>
    requires 1 <= origin <= NONCE_MAX && i <= NONCE_MAX
    decreases NONCE_MAX - i
  {
    if i == NONCE_MAX then None
    else if Slot(origin, i) !in active then Some(Slot(origin, i))
    else FirstFree(active, origin, i + 1)
  }

  /** `None` stands for the "pool exhausted" error. */
  function Allocate(active: set<int>, start: Start): Option<int> {
    FirstFree(active, NormalizeStart(start), 0)
  }

  method AllocateNonce(activeNonces: set<int>, start: Start) returns (nonce: Option<int>)
    ensures nonce == Allocate(activeNonces, start)
  {
    var origin := NormalizeStart(start);
    for i := 0 to NONCE_MAX
      invariant FirstFree(activeNonces, origin, 0) == FirstFree(activeNonces, origin, i)
    {
      var n := Slot(origin, i);
      if n !in activeNonces {
        return Some(n);
      }
    }
    return None;
  }

  /** The search fails exactly when the whole ring is taken; otherwise it takes the nearest free slot. */
  lemma AllocateIsNearestFree(active: set<int>, start: Start)
    ensures Allocate(active, start).None? <==> forall n | 1 <= n <= NONCE_MAX :: n in active
    ensures Allocate(active, start).Some? ==>
      var origin, n := NormalizeStart(start), Allocate(active, start).value;
      && 1 <= n <= NONCE_MAX && n !in active
      && forall m | 1 <= m <= NONCE_MAX && m !in active :: Steps(origin, n) <= Steps(origin, m)
  {
    var origin := NormalizeStart(start);
    FirstFreeFrom(active, origin, 0);
    var f := Allocate(active, start);
    forall m | 1 <= m <= NONCE_MAX && m !in active
      ensures f.Some? && Steps(origin, f.value) <= Steps(origin, m)
    {
      RingVisitsEachOnce(start, m);
      assert Slot(origin, Steps(origin, m)) == m;
    }
  }

  lemma {:induction false} FirstFreeFrom(active: set<int>, origin: int, i: nat)
    requires 1 <= origin <= NONCE_MAX && i <= NONCE_MAX
    ensures var f := FirstFree(active, origin, i);
      && (f.None? ==> forall j: nat | i <= j < NONCE_MAX :: Slot(origin, j) in active)
      && (f.Some? ==>
            && 1 <= f.value <= NONCE_MAX && f.value !in active && i <= Steps(origin, f.value)
            && (forall j: nat | i <= j < Steps(origin, f.value) :: Slot(origin, j) in active))
    decreases NONCE_MAX - i
  {
    if i < NONCE_MAX {
      if Slot(origin, i) in active {
        FirstFreeFrom(active, origin, i + 1);
      } else {
        assert Steps(origin, Slot(origin, i)) == i;
      }
    }
  }

  // ---------------------------------------------------------------- amounts

  /** Base units of a price: the low four decimals zeroed (`Math.floor`). `raw` is in integer base units. */
  function BaseUnits(raw: int): int {
    raw / NONCE_MODULUS * NONCE_MODULUS
  }

  /** Base of an amount, for any integer; `/` of a `bigint` truncates toward zero. */
  function BaseOf(amount: int): int {
    if amount >= 0 then amount / NONCE_MODULUS * NONCE_MODULUS
    else -((-amount) / NONCE_MODULUS * NONCE_MODULUS)
  }

  function Encode(raw: nat, nonce: int): Option<int> {
    if 1 <= nonce <= NONCE_MAX then Some(BaseUnits(raw) + nonce) else None
  }

  function MatchAmount(received: int, base: int): Option<int> {
    if received < base then None
    else if received - base > NONCE_MAX then None
    else Some(received - base)
  }

  /**
   The nonce is recovered from the base and from the amount alone, no other received value yields it,
   and the payer never pays a whole nonce range more or less than the price.
   */
  lemma MatchInvertsEncode(raw: nat, nonce: int, received: int)
    requires 1 <= nonce <= NONCE_MAX
    ensures var units := Encode(raw, nonce).value;
      && BaseOf(units) == BaseUnits(raw)
      && (MatchAmount(received, BaseUnits(raw)) == Some(nonce) <==> received == units)
      && -NONCE_MODULUS < units - raw < NONCE_MODULUS
  {
  }

  /** Down to the cent the amount is the price, its last four decimals are the nonce. */
  lemma EncodedDigits(raw: nat, nonce: int)
    ensures Encode(raw, nonce).Some? <==> 1 <= nonce <= 9999
    ensures Encode(raw, nonce).Some? ==>
      var units := Encode(raw, nonce).value;
      && units / 10000 == raw / 10000 && units % 10000 == nonce
      && BaseOf(units) == BaseUnits(units) == BaseUnits(raw) == raw - raw % 10000
  {
  }

  /** Zeroing the last four decimals rounds down, also below zero. */
  lemma BaseRoundsDown(raw: int)
    ensures BaseUnits(raw) % 10000 == 0 && BaseUnits(raw) <= raw < BaseUnits(raw) + 10000
  {
  }

  /** The base of a received amount is the multiple of 10000 next to it on the side of zero. */
  lemma BaseTruncates(amount: int)
    ensures BaseOf(amount) % 10000 == 0
    ensures if amount >= 0 then BaseOf(amount) <= amount < BaseOf(amount) + 10000
            else BaseOf(amount) - 10000 < amount <= BaseOf(amount)
  {
  }

  /** Distinct prices or distinct nonces give distinct amounts, up to the zeroed decimals. */
  lemma EncodeInjective(raw: nat, nonce: int, raw': nat, nonce': int)
    requires 1 <= nonce <= NONCE_MAX && 1 <= nonce' <= NONCE_MAX
    ensures Encode(raw, nonce) == Encode(raw', nonce') <==> BaseUnits(raw) == BaseUnits(raw') && nonce == nonce'
  {
  }

  /** A received value carries the nonce by which it exceeds the base, if at all and by at most 9999. */
  lemma MatchIff(received: int, base: int, nonce: int)
    ensures MatchAmount(received, base) == Some(nonce) <==> received == base + nonce && 0 <= nonce <= 9999
  {
  }

  /** What the watcher accepts as an amount of the fixed mode: a non-negative number not divisible by 10000. */
  lemma MatchOwnBase(amount: int)
    ensures var m := MatchAmount(amount, BaseOf(amount));
      (m.Some? && m.value > 0) <==> 0 <= amount && amount % NONCE_MODULUS != 0
  {
  }
}
