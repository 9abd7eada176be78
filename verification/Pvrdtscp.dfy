/** pvrdtscp.c: a clock read through rdtscp while the domain may migrate between any two instructions. */
module Pvrdtscp {
  import opened Arith

  const LONG: nat := 0x1_0000_0000_0000_0000

  // ----- Scaling -----------------------------------------------------------------------------------------------

  /** delta >> -shift or delta << shift on 64 bits. */
  function Shifted(delta: nat, shift: int): (r: nat)
    requires delta < LONG
    ensures r < LONG
  {
    if shift < 0 then Quotient(delta, Pow2(-shift)) else delta * Pow2(shift) % LONG
  }

  function Quotient(a: nat, d: nat): (r: nat)
    requires d >= 1
    ensures r <= a
  {
    QuotientSmall(a, d);
    a / d
  }

  lemma QuotientSmall(a: nat, d: nat)
    requires d >= 1
    ensures 0 <= a / d <= a
  {
    assert a == (a / d) * d + a % d;
    Mono(1, d, a / d);
  }

  /** One 64-by-64 multiplication of which bits 32 to 95 are kept. */
  function Middle(d: nat, mul: nat): nat {
    d * mul / WORD % LONG
  }

  function Scale64(delta: nat, mul: nat, shift: int): nat
    requires delta < LONG
  {
    Middle(Shifted(delta, shift), mul)
  }

  /** What scaling means.  A negative shift divides by the power of two, rounding down; any other multiplies by it, as
      far as 64 bits go; and the multiplier counts in 2^-32, again rounding down. */
  lemma ScaleIs(delta: nat, mul: nat, shift: int)
    requires delta < LONG && mul < WORD
    ensures var d, r := Shifted(delta, shift), Scale64(delta, mul, shift);
            && (shift < 0 ==> d * Pow2(-shift) <= delta < (d + 1) * Pow2(-shift))
            && (shift >= 0 && delta * Pow2(shift) < LONG ==> d == delta * Pow2(shift))
            && r * 0x1_0000_0000 <= d * mul < (r + 1) * 0x1_0000_0000
  {
    hide Shifted, Pow2, Middle;
    ShiftIs(delta, shift);
    MiddleIs(Shifted(delta, shift), mul);
  }

  lemma ShiftIs(delta: nat, shift: int)
    requires delta < LONG
    ensures var d := Shifted(delta, shift);
            && (shift < 0 ==> d * Pow2(-shift) <= delta < (d + 1) * Pow2(-shift))
            && (shift >= 0 && delta * Pow2(shift) < LONG ==> d == delta * Pow2(shift))
  {
    hide Pow2;
    if shift < 0 {
      RoundsDown(delta, Pow2(-shift));
    } else if delta * Pow2(shift) < LONG {
      SmallMod(delta * Pow2(shift));
    }
  }

  lemma RoundsDown(a: nat, d: nat)
    requires d >= 1
    ensures (a / d) * d <= a < (a / d + 1) * d
  {
    var q := a / d;
    assert a == q * d + a % d;
    assert (q + 1) * d == q * d + d;
  }

  lemma MiddleIs(d: nat, mul: nat)
    requires d < LONG && mul < WORD
    ensures Middle(d, mul) * 0x1_0000_0000 <= d * mul < (Middle(d, mul) + 1) * 0x1_0000_0000
  {
    ScaledFits(d, mul);
    SmallMod(d * mul / WORD);
    RoundsDown(d * mul, WORD);
  }

  /** mul of two 32-bit registers: high and low half of the product. */
  function MulHigh(a: nat, b: nat): nat {
    a * b / WORD
  }

  function MulLow(a: nat, b: nat): nat {
    a * b % WORD
  }

  /** add of two 32-bit registers and adc of zero to a third. */
  function AddCarry(edx: nat, eax: nat, tmp: nat): nat {
    var sum := eax + tmp;
    ((edx + (if sum >= WORD then 1 else 0)) % WORD) * WORD + sum % WORD
  }

  /** Two 32-by-32 multiplications, the high half of the first added into the second with its carry. */
  function TwoMuls(lo: nat, hi: nat, mul: nat): nat {
    AddCarry(MulHigh(hi, mul), MulLow(hi, mul), MulHigh(lo, mul))
  }

  function Scale32(delta: nat, mul: nat, shift: int): nat
    requires delta < LONG
  {
    TwoMuls(Shifted(delta, shift) % WORD, Shifted(delta, shift) / WORD, mul)
  }

  lemma HighBound(a: nat, b: nat)
    requires a < WORD && b < WORD
    ensures a * b <= (WORD - 1) * (WORD - 1) && MulHigh(a, b) <= WORD - 2
  {
    Mono(a, WORD - 1, b);
    Mono(b, WORD - 1, WORD - 1);
    assert b * (WORD - 1) == (WORD - 1) * b;
    assert a * b <= (WORD - 1) * b;
  }

  /** (hi * 2^32 + lo) * mul shifted down 32 bits. */
  lemma SplitProduct(hi: nat, lo: nat, mul: nat)
    requires lo < WORD && hi < WORD && mul < WORD
    ensures (hi * WORD + lo) * mul / WORD == hi * mul + MulHigh(lo, mul)
    ensures hi * mul + MulHigh(lo, mul) < LONG
  {
    HighBound(lo, mul);
    HighBound(hi, mul);
    var r := MulLow(lo, mul);
    assert (hi * WORD + lo) * mul == (hi * mul) * WORD + lo * mul;
    assert lo * mul == MulHigh(lo, mul) * WORD + r;
    assert (hi * WORD + lo) * mul == (hi * mul + MulHigh(lo, mul)) * WORD + r;
    Unique((hi * WORD + lo) * mul, WORD, hi * mul + MulHigh(lo, mul), r);
  }

  lemma AddCarryIs(edx: nat, eax: nat, tmp: nat)
    requires eax < WORD && tmp < WORD && edx * WORD + eax + tmp < LONG
    ensures AddCarry(edx, eax, tmp) == edx * WORD + eax + tmp
  {}

  lemma Halves(a: nat, b: nat)
    ensures a * b == MulHigh(a, b) * WORD + MulLow(a, b) && MulLow(a, b) < WORD
  {}

  lemma TwoMulsAre(lo: nat, hi: nat, mul: nat)
    requires lo < WORD && hi < WORD && mul < WORD
    ensures TwoMuls(lo, hi, mul) == Middle(hi * WORD + lo, mul)
  {
    SplitProduct(hi, lo, mul);
    HighBound(lo, mul);
    Halves(hi, mul);
    hide MulHigh, MulLow, AddCarry;
    AddCarryIs(MulHigh(hi, mul), MulLow(hi, mul), MulHigh(lo, mul));
  }

  /** The 32-bit code computes what the 64-bit code does. */
  lemma ScalesAgree(delta: nat, mul: nat, shift: int)
    requires delta < LONG && mul < WORD
    ensures Scale32(delta, mul, shift) == Scale64(delta, mul, shift)
  {
    hide Shifted, TwoMuls, Middle;
    var d := Shifted(delta, shift);
    TwoMulsAre(d % WORD, d / WORD, mul);
  }

  lemma ShiftMono(a: nat, b: nat, shift: int)
    requires a <= b < LONG && (shift >= 0 ==> b * Pow2(shift) < LONG)
    ensures Shifted(a, shift) <= Shifted(b, shift)
  {
    if shift < 0 {
      hide Pow2;
      DivMono(a, b, Pow2(-shift));
    } else {
      hide Pow2;
      Mono(a, b, Pow2(shift));
      assert a * Pow2(shift) <= b * Pow2(shift) < LONG;
      SmallMod(a * Pow2(shift));
      SmallMod(b * Pow2(shift));
    }
  }

  lemma SmallMod(a: nat)
    requires a < LONG
    ensures a % LONG == a
  {}

  lemma MiddleMono(x: nat, y: nat, mul: nat)
    requires x <= y < LONG && mul < WORD
    ensures Middle(x, mul) <= Middle(y, mul)
  {
    Mono(x, y, mul);
    DivMono(x * mul, y * mul, WORD);
    ScaledFits(x, mul);
    ScaledFits(y, mul);
  }

  /** Between migrations a later reading never scales to an earlier time, short of 64-bit overflow. */
  lemma ScaleMono(a: nat, b: nat, mul: nat, shift: int)
    requires a <= b < LONG && mul < WORD && (shift >= 0 ==> b * Pow2(shift) < LONG)
    ensures Scale64(a, mul, shift) <= Scale64(b, mul, shift)
  {
    ShiftMono(a, b, shift);
    hide Shifted, Middle;
    MiddleMono(Shifted(a, shift), Shifted(b, shift), mul);
  }

  lemma DivMono(a: nat, b: nat, d: nat)
    requires a <= b && d >= 1
    ensures a / d <= b / d
  {
    var p, q := a / d, b / d;
    assert a == p * d + a % d && b == q * d + b % d;
    if p > q {
      Mono(q + 1, p, d);
    }
  }

  lemma ScaledFits(d: nat, mul: nat)
    requires d < LONG && mul < WORD
    ensures d * mul / WORD < LONG
  {
    Mono(d, LONG - 1, mul);
    Mono(mul, WORD - 1, LONG - 1);
    assert (LONG - 1) * mul == mul * (LONG - 1);
    assert d * mul <= (WORD - 1) * (LONG - 1);
  }

  // ----- The clock ---------------------------------------------------------------------------------------------------

  /** a - b on 64 bits, as a signed number. */
  function SignedDiff(a: nat, b: nat): (d: int)
    ensures -(LONG as int) / 2 <= d < LONG / 2
  {
    var u := (a - b) % LONG;
    if u < LONG / 2 then u else u - LONG
  }

  /** What Xen shows at each event: the incarnation the domain is in, its TSC, and the time values of an
      incarnation.  Incarnation numbers are not reused, and after event `calm` there are no migrations. */
  datatype Env = Env(inc: nat -> nat, tsc: nat -> nat, offset: nat -> nat, mul: nat -> nat, shift: nat -> int,
      calm: nat)

  ghost predicate EnvOk(e: Env) {
    && (forall i, j :: i <= j ==> e.inc(i) <= e.inc(j))
    && (forall k :: k >= e.calm ==> e.inc(k) == e.inc(e.calm))
    && (forall k :: e.tsc(k) < LONG)
  }

  /** The time at event k if its TSC is read with the values of incarnation i. */
  function TimeAt(e: Env, k: nat, i: nat): (t: nat)
    requires e.tsc(k) < LONG
    ensures t < LONG
  {
    (Scale64(e.tsc(k), e.mul(i), e.shift(i)) - e.offset(i)) % LONG
  }

  /** Adding the offset back gives the scaled reading, modulo 2^64. */
  lemma TimeIs(e: Env, k: nat, i: nat)
    requires e.tsc(k) < LONG && e.mul(i) < WORD
    ensures (TimeAt(e, k, i) + e.offset(i)) % LONG == Scale64(e.tsc(k), e.mul(i), e.shift(i))
  {
    var r := Scale64(e.tsc(k), e.mul(i), e.shift(i));
    ScaledFits(Shifted(e.tsc(k), e.shift(i)), e.mul(i));
    hide Scale64;
    BackAgain(r, e.offset(i));
  }

  lemma BackAgain(r: nat, offset: nat)
    requires r < LONG
    ensures ((r - offset) % LONG + offset) % LONG == r
  {}

  /** What the code answers to a reading's time `t` when `base` was the time before. */
  function Answer(base: nat, t: nat): (ts: nat)
    requires base < LONG && t < LONG
    ensures ts < LONG && SignedDiff(ts, base) > 0
  {
    OneMore(base);
    if SignedDiff(t, base) > 0 then t else (base + 1) % LONG
  }

  /** The answers to a run of readings. */
  function Answers(base: nat, times: seq<nat>): (r: seq<nat>)
    requires base < LONG && forall i :: 0 <= i < |times| ==> times[i] < LONG
    ensures |r| == |times| && forall i :: 0 <= i < |r| ==> r[i] < LONG
  {
    if times == [] then [] else
      var last := |times| - 1;
      var before := Answers(base, times[..last]);
      before + [Answer(if last == 0 then base else before[last - 1], times[last])]
  }

  class Clock {
    var first: bool
    var last: nat
    var lastAux: nat
    /** The values in use, by the incarnation they are from; `clock` is the event reached. */
    var valuesOf: nat
    ghost var clock: nat

    /** The values are no older than the aux they are filed under, nor newer than now. */
    ghost predicate Valid(e: Env)
      reads this
    {
      EnvOk(e) && last < LONG && (!first ==> lastAux <= valuesOf <= e.inc(clock))
    }

    constructor ()
      ensures first && clock == 0 && forall e :: EnvOk(e) ==> Valid(e)
    {
      first, last, lastAux, valuesOf, clock := true, 0, 0, 0, 0;
    }

    /** First call only: take an aux and then values, possibly after a migration. */
    method Start(e: Env, k: nat) returns (next: nat)
      requires Valid(e) && k >= clock && first
      modifies this
      ensures Valid(e) && !first && next == k + 2 && clock == k + 1 && last == TimeAt(e, k, e.inc(k + 1))
    {
      lastAux := e.inc(k);
      valuesOf := e.inc(k + 1);
      last := TimeAt(e, k, valuesOf);
      first := false;
      clock := k + 1;
      next := k + 2;
    }

    /** Reads aux and TSC until they belong to the values in use. */
    method Settle(e: Env, k: nat) returns (discontinuity: bool, seen: nat)
      requires Valid(e) && k >= clock && !first
      modifies this`lastAux, this`valuesOf, this`clock
      ensures Valid(e) && clock == seen && k <= seen && e.inc(seen) == lastAux == valuesOf
      ensures discontinuity <==> lastAux != old(lastAux)
    {
      assert e.inc(clock) <= e.inc(k);
      seen := k;
      clock := seen;
      discontinuity := false;
      while e.inc(seen) != lastAux
        invariant clock == seen >= k && old(lastAux) <= lastAux <= valuesOf <= e.inc(seen)
        invariant discontinuity <==> lastAux != old(lastAux)
        decreases e.inc(e.calm) - lastAux
      {
        AuxGrows(e, seen);
        lastAux := e.inc(seen);
        valuesOf := e.inc(seen + 1);
        seen := seen + 2;
        clock := seen;
        discontinuity := true;
      }
    }

    /** get_pvrdtscp_timestamp from event k on: `seen` is the event of the reading it used, and the time
        returned is that reading's under the values of its own incarnation, or one more than the time
        before.  The time before the first call is the one place where a TSC of one incarnation may meet
        the values of another. */
    method GetTimestamp(e: Env, k: nat) returns (ts: nat, discontinuity: bool, seen: nat)
      requires Valid(e) && k >= clock
      modifies this
      ensures Valid(e) && !first && clock == seen && k <= seen
      ensures e.inc(seen) == lastAux == valuesOf
      ensures !old(first) ==> (discontinuity <==> lastAux != old(lastAux))
      ensures last == ts < LONG
      ensures var base := if old(first) then TimeAt(e, k, e.inc(k + 1)) else old(last);
              ts == Answer(base, TimeAt(e, seen, e.inc(seen)))
    {
      hide TimeAt, EnvOk;
      Sane(e);
      var k' := k;
      if first {
        k' := Start(e, k);
      }
      discontinuity, seen := Settle(e, k');
      var t := TimeAt(e, seen, valuesOf);
      OneMore(last);
      if SignedDiff(t, last) > 0 {
        last := t;
      } else {
        last := (last + 1) % LONG;
      }
      ts := last;
    }
  }

  lemma Sane(e: Env)
    requires EnvOk(e)
    ensures forall k :: e.tsc(k) < LONG
  {}

  lemma OneMore(last: nat)
    requires last < LONG
    ensures SignedDiff((last + 1) % LONG, last) == 1
  {}

  // ----- Runs of readings -------------------------------------------------------------------------------

  ghost predicate Rising(stamps: seq<nat>) {
    forall i :: 0 < i < |stamps| ==> SignedDiff(stamps[i], stamps[i - 1]) > 0
  }

  /** The loop of main for `n` turns: timestamps keep increasing, in the sense the code compares them, and
      are the answers to readings each taken under the values of its own incarnation. */
  method ReadMany(c: Clock, e: Env, k: nat, n: nat)
    returns (stamps: seq<nat>, ghost seen: seq<nat>, ghost times: seq<nat>)
    requires c.Valid(e) && k >= c.clock
    modifies c
    ensures c.Valid(e) && |stamps| == |seen| == |times| == n && Rising(stamps)
    ensures forall i :: 0 <= i < n ==> k <= seen[i] && times[i] < LONG && times[i] == TimeAt(e, seen[i], e.inc(seen[i]))
    ensures var base := if old(c.first) then TimeAt(e, k, e.inc(k + 1)) else old(c.last);
            stamps == Answers(base, times)
  {
    hide TimeAt, EnvOk, ReadSoFar;
    Sane(e);
    ghost var base := if c.first then TimeAt(e, k, e.inc(k + 1)) else c.last;
    stamps, seen, times := [], [], [];
    var next := k;
    NothingRead(e, k, base);
    for i := 0 to n
      invariant c.Valid(e) && k <= next && next >= c.clock && |stamps| == i
      invariant ReadSoFar(e, k, base, stamps, seen, times)
      invariant i == 0 ==> c.first == old(c.first) && c.last == old(c.last) && next == k
      invariant i > 0 ==> !c.first && c.last == stamps[i - 1]
    {
      var ts, d;
      ts, d, next := c.GetTimestamp(e, next);
      OneMoreRead(e, k, base, stamps, seen, times, next, ts);
      stamps, seen, times := stamps + [ts], seen + [next], times + [TimeAt(e, next, e.inc(next))];
    }
    ReadAll(e, k, base, stamps, seen, times);
  }

  ghost predicate ReadSoFar(e: Env, k: nat, base: nat, stamps: seq<nat>, seen: seq<nat>, times: seq<nat>) {
    && base < LONG && |stamps| == |seen| == |times|
    && (forall i :: 0 <= i < |times| ==>
          k <= seen[i] && e.tsc(seen[i]) < LONG && times[i] == TimeAt(e, seen[i], e.inc(seen[i])) < LONG)
    && stamps == Answers(base, times) && Rising(stamps)
  }

  lemma NothingRead(e: Env, k: nat, base: nat)
    requires base < LONG
    ensures ReadSoFar(e, k, base, [], [], [])
  {}

  lemma OneMoreRead(e: Env, k: nat, base: nat, stamps: seq<nat>, seen: seq<nat>, times: seq<nat>, next: nat, ts: nat)
    requires ReadSoFar(e, k, base, stamps, seen, times) && k <= next && e.tsc(next) < LONG
    requires (stamps != [] ==> stamps[|stamps| - 1] < LONG)
    requires ts == Answer(if stamps == [] then base else stamps[|stamps| - 1], TimeAt(e, next, e.inc(next)))
    ensures ReadSoFar(e, k, base, stamps + [ts], seen + [next], times + [TimeAt(e, next, e.inc(next))])
  {
    hide TimeAt, SignedDiff, Answer;
    var t := TimeAt(e, next, e.inc(next));
    assert (times + [t])[..|times|] == times;
  }

  lemma ReadAll(e: Env, k: nat, base: nat, stamps: seq<nat>, seen: seq<nat>, times: seq<nat>)
    requires ReadSoFar(e, k, base, stamps, seen, times)
    ensures |stamps| == |seen| == |times| && Rising(stamps)
    ensures forall i :: 0 <= i < |times| ==>
              k <= seen[i] && e.tsc(seen[i]) < LONG && times[i] == TimeAt(e, seen[i], e.inc(seen[i])) < LONG
    ensures stamps == Answers(base, times)
  {}

  /** The time before the first call is the first reading's own, whatever the time values, if and only if no
      migration falls between that reading and the values it is scaled with. */
  lemma BaseIsOwn(e: Env, k: nat)
    requires EnvOk(e)
    ensures (forall e' :: SameReadings(e, e') ==> TimeAt(e', k, e'.inc(k + 1)) == TimeAt(e', k, e'.inc(k)))
            <==> e.inc(k) == e.inc(k + 1)
  {
    if e.inc(k) != e.inc(k + 1) {
      var e' := e.(offset := i => if i == e.inc(k) then 0 else 1, mul := _ => 0, shift := _ => 0);
      assert SameReadings(e, e');
      assert TimeAt(e', k, e.inc(k)) == 0 && TimeAt(e', k, e.inc(k + 1)) == LONG - 1;
    }
  }

  /** Same incarnations and TSCs, other time values. */
  ghost predicate SameReadings(e: Env, e': Env) {
    e'.inc == e.inc && e'.tsc == e.tsc
  }

  /** Strictly increasing times, short of half the 64-bit range. */
  ghost predicate Times(times: seq<nat>) {
    && (forall i :: 0 <= i < |times| ==> times[i] < LONG / 2)
    && (forall i :: 0 < i < |times| ==> times[i - 1] < times[i])
  }

  /** Which answers a base affects: answer `i` is its reading's own time if and only if that time is past
      base + i, and otherwise one more than the answer before, base + i + 1. */
  lemma {:induction false} AnswersAre(base: nat, times: seq<nat>, i: nat)
    requires Times(times) && base + |times| < LONG / 2 && i < |times|
    ensures Answers(base, times)[i] == if times[i] > base + i then times[i] else base + i + 1
  {
    hide Answer, SignedDiff;
    var last := |times| - 1;
    var front := times[..last];
    if i < last {
      AnswersAre(base, front, i);
    } else if last > 0 {
      AnswersAre(base, front, last - 1);
      CloseAnswer(Answers(base, front)[last - 1], times[last]);
    } else {
      CloseAnswer(base, times[0]);
    }
  }

  lemma CloseAnswer(base: nat, t: nat)
    requires base < LONG / 2 && t < LONG / 2
    ensures Answer(base, t) == if t > base then t else base + 1
  {
    assert SignedDiff(t, base) == t - base;
  }

  /** A base earlier than the first reading affects none. */
  lemma {:induction false} EarlierBaseHarmless(base: nat, times: seq<nat>, i: nat)
    requires Times(times) && base + |times| < LONG / 2 && i < |times| && base < times[0]
    ensures Answers(base, times)[i] == times[i] && times[i] > base + i
  {
    AnswersAre(base, times, i);
    if i > 0 {
      EarlierBaseHarmless(base, times, i - 1);
    }
  }

  /** A domain that migrates between the first reading and its values: 1 ns by its own values, 2^31 ns by
      those of the new host, where event k is at 2k ns and at most at 2^30. */
  const MIGRATES: Env := Env(k => if k == 0 then 0 else 1, k => if k == 0 then WORD else 4 * UpTo(k, WORD / 8),
                             _ => 0, i => if i == 0 then 1 else WORD / 2, _ => 0, 1)

  function UpTo(k: nat, bound: nat): nat {
    if k < bound then k else bound
  }

  lemma ScaledByHalf(d: nat)
    requires d < WORD
    ensures Scale64(4 * d, WORD / 2, 0) == 2 * d && Scale64(WORD, 1, 0) == 1
  {
    assert Pow2(0) == 1;
    SmallMod(4 * d);
    assert Shifted(4 * d, 0) == 4 * d && Shifted(WORD, 0) == WORD;
    assert 4 * d * (WORD / 2) == 2 * d * WORD;
  }

  lemma MigratesTimes(k: nat)
    ensures MIGRATES.tsc(k) < LONG
    ensures TimeAt(MIGRATES, k, MIGRATES.inc(k)) == if k == 0 then 1 else 2 * UpTo(k, WORD / 8)
    ensures TimeAt(MIGRATES, 0, MIGRATES.inc(1)) == WORD / 2
  {
    hide Scale64;
    ScaledByHalf(UpTo(k, WORD / 8));
    ScaledByHalf(WORD / 4);
    SmallMod(2 * UpTo(k, WORD / 8));
  }

  lemma MigratesOk()
    ensures EnvOk(MIGRATES)
  {}

  /** Its first call answers with a time that no event has: one more than the mixture. */
  method MixedFirstCall() returns (ts: nat)
    ensures EnvOk(MIGRATES) && ts == WORD / 2 + 1
    ensures forall k: nat :: TimeAt(MIGRATES, k, MIGRATES.inc(k)) == if k == 0 then 1 else 2 * UpTo(k, WORD / 8)
    ensures forall k: nat :: TimeAt(MIGRATES, k, MIGRATES.inc(k)) != ts
  {
    hide TimeAt, EnvOk, SignedDiff, Answer;
    MigratesOk();
    forall k: nat
      ensures MIGRATES.tsc(k) < LONG
      ensures TimeAt(MIGRATES, k, MIGRATES.inc(k)) == if k == 0 then 1 else 2 * UpTo(k, WORD / 8)
    {
      MigratesTimes(k);
    }
    MigratesTimes(0);
    var c := new Clock();
    var d, seen;
    ts, d, seen := c.GetTimestamp(MIGRATES, 0);
    CloseAnswer(WORD / 2, TimeAt(MIGRATES, seen, MIGRATES.inc(seen)));
  }

  lemma AuxGrows(e: Env, k: nat)
    requires EnvOk(e)
    ensures e.inc(k) <= e.inc(k + 1) <= e.inc(k + 2) && e.inc(k) <= e.inc(e.calm)
  {
    var m := if k < e.calm then e.calm else k;
    assert e.inc(k) <= e.inc(m);
  }
}
