/** The rate limiter, src/tpg_rate.c and inc/tpg_rate.h: spread a rate over the
    slots of a second, split the slots between cores, and spend them interval
    by interval. */
module RateLimit {
  import opened Prelude
  import opened Arithmetic

  const MAX_SLOT_COUNT := 10000
  const INFINITE := 0xFFFF_FFFF
  const SEC_TO_USEC := 1000000

  function Sum(s: seq<nat>): nat {
    if s == [] then 0 else s[0] + Sum(s[1..])
  }

  lemma {:induction false} SumOfConcat(a: seq<nat>, b: seq<nat>)
    ensures Sum(a + b) == Sum(a) + Sum(b)
  {
    if a == [] {
      assert a + b == b;
    } else {
      assert (a + b)[1..] == a[1..] + b;
      SumOfConcat(a[1..], b);
    }
  }

  lemma SumOfUpdate(s: seq<nat>, i: nat, v: nat)
    requires i < |s|
    ensures Sum(s[i := v]) == Sum(s) - s[i] + v
  {
    assert s == s[..i] + ([s[i]] + s[i + 1..]);
    assert s[i := v] == s[..i] + ([v] + s[i + 1..]);
    SumOfConcat(s[..i], [s[i]] + s[i + 1..]);
    SumOfConcat(s[..i], [v] + s[i + 1..]);
  }

  lemma {:induction false} SumOfZeros(s: seq<nat>)
    requires forall i :: 0 <= i < |s| ==> s[i] == 0
    ensures Sum(s) == 0
  {
    if s != [] {
      SumOfZeros(s[1..]);
    }
  }

  lemma {:induction false} SumIsMonotone(s: seq<nat>, t: seq<nat>)
    requires |s| == |t| && forall i :: 0 <= i < |s| ==> s[i] <= t[i]
    ensures Sum(s) <= Sum(t)
  {
    if s != [] {
      SumIsMonotone(s[1..], t[1..]);
    }
  }

  // ----- spreading a rate

  /** How far apart the extra slots are: far enough to leave room for all. */
  function Step(count: nat, rest: nat): (step: nat)
    requires 0 < rest < count
    ensures step >= 1 && rest * step <= count
  {
    StepFits(count, rest);
    count / rest
  }

  lemma StepFits(count: nat, rest: nat)
    requires 0 < rest < count
    ensures count / rest >= 1 && rest * (count / rest) <= count
  {
    var q := count / rest;
    assert count == rest * q + count % rest;
    assert rest * (1 - q) == rest - rest * q;
    MulAtLeast(rest, 1 - q);
  }

  /** Slot i is among the first k multiples of the step. */
  predicate IsExtra(step: nat, k: nat, i: nat)
    requires step > 0
  {
    i % step == 0 && i / step < k
  }

  /** base, plus one at the first k multiples of the step. */
  function Spread(count: nat, base: nat, step: nat, k: nat): (r: seq<nat>)
    requires step > 0
    ensures |r| == count
  {
    seq(count, i requires 0 <= i => if IsExtra(step, k, i) then base + 1 else base)
  }

  /** The slot table of a rate: an even share, plus one at every step-th slot until
      the remainder is used up. */
  function EvenSlots(rate: nat, count: nat): (r: seq<nat>)
    requires 0 < count
    ensures |r| == count
  {
    var rest := rate % count;
    if rest == 0 then Spread(count, rate / count, 1, 0)
    else Spread(count, rate / count, Step(count, rest), rest)
  }

  /** Among the first n slots, the extra ones are the multiples of the step: as
      many as there are, or as there are to give. */
  lemma {:induction false} SpreadSum(count: nat, base: nat, step: nat, k: nat, n: nat, m: nat)
    requires step > 0 && n <= count
    requires if n == 0 then m == 0 else m > 0 && (m - 1) * step < n <= m * step
    ensures Sum(Spread(count, base, step, k)[..n]) == n * base + Min(k, m)
    decreases n
  {
    var slots := Spread(count, base, step, k);
    if n == 0 {
      assert slots[..0] == [];
    } else {
      assert slots[..n] == slots[..n - 1] + [slots[n - 1]];
      SumOfConcat(slots[..n - 1], [slots[n - 1]]);
      assert n * base == (n - 1) * base + base;
      var o := n - 1 - (m - 1) * step;
      BlockBelow(n, m, step);
      QuotientIsUnique(n - 1, step, m - 1, o);
      SpreadSum(count, base, step, k, n - 1, if o == 0 then m - 1 else m);
    }
  }

  /** Slot n - 1 is number m - 1 of the multiples, or in the block behind it. */
  lemma BlockBelow(n: nat, m: nat, step: nat)
    requires step > 0 && n > 0 && m > 0 && (m - 1) * step < n <= m * step
    ensures 0 <= n - 1 - (m - 1) * step < step && step * (m - 1) == (m - 1) * step
    ensures n - 1 == (m - 1) * step && m > 1 ==> (m - 2) * step < n - 1 <= (m - 1) * step
    ensures n - 1 != (m - 1) * step ==> (m - 1) * step < n - 1 <= m * step
    ensures m == 1 && n - 1 == (m - 1) * step ==> n == 1
  {
    assert m * step == (m - 1) * step + step;
    assert (m - 1) * step == (m - 2) * step + step;
  }

  lemma MultipleAbove(n: nat, step: nat) returns (m: nat)
    requires step > 0 && n > 0
    ensures m > 0 && (m - 1) * step < n <= m * step
  {
    m := (n - 1) / step + 1;
    assert n - 1 == step * (m - 1) + (n - 1) % step;
    assert m * step == (m - 1) * step + step;
  }

  /** The slots of a rate add up to exactly the rate. */
  lemma EvenSlotsSumToRate(rate: nat, count: nat)
    requires 0 < count
    ensures Sum(EvenSlots(rate, count)) == rate
  {
    var slots, rest := EvenSlots(rate, count), rate % count;
    assert rate == count * (rate / count) + rest;
    assert slots[..count] == slots;
    if rest == 0 {
      SpreadSum(count, rate / count, 1, 0, count, count);
    } else {
      var step := Step(count, rest);
      var m := MultipleAbove(count, step);
      SpreadSum(count, rate / count, step, rest, count, m);
      FitsBelow(rest, m, step, count);
    }
  }

  lemma FitsBelow(rest: nat, m: nat, step: nat, count: nat)
    requires step > 0 && rest * step <= count <= m * step
    ensures rest <= m
  {
    MulAtLeast(step, rest - m);
    assert rest * step == m * step + step * (rest - m);
  }

  /** No two slots differ by more than one. */
  lemma EvenSlotsAreEven(rate: nat, count: nat, i: nat, j: nat)
    requires i < count && j < count
    ensures EvenSlots(rate, count)[i] <= EvenSlots(rate, count)[j] + 1
  {
  }

  /** Which slots have one more: with rest units left over, the first rest multiples of
      count / rest, all of which are in the table. */
  lemma ExtraSlotsAre(rate: nat, count: nat, i: nat)
    requires i < count
    ensures rate % count > 0 ==> count / (rate % count) > 0 && (rate % count) * (count / (rate % count)) <= count
    ensures EvenSlots(rate, count)[i] == rate / count
            + if rate % count > 0 && i % (count / (rate % count)) == 0 && i / (count / (rate % count)) < rate % count
              then 1 else 0
  {
    if rate % count > 0 {
      StepFits(count, rate % count);
    }
  }

  /** Giving one more to slot k * step turns the first k multiples into k + 1. */
  lemma SpreadOneMore(count: nat, base: nat, step: nat, k: nat)
    requires step > 0 && k * step < count
    ensures var s := Spread(count, base, step, k);
            s[k * step] == base && Spread(count, base, step, k + 1) == s[k * step := base + 1]
  {
    QuotientIsUnique(k * step, step, k, 0);
    forall i | 0 <= i < count && i != k * step
      ensures IsExtra(step, k + 1, i) == IsExtra(step, k, i)
    {
      assert i == step * (i / step) + i % step;
    }
  }

  /** rate_limit_cfg_t. */
  class Config {
    var count: nat
    var target: u32
    const slots: array<nat>

    constructor ()
      ensures slots.Length == MAX_SLOT_COUNT && fresh(slots)
    {
      slots := new nat[MAX_SLOT_COUNT];
      count, target := 0, 0;
    }

    predicate Valid()
      reads this
    {
      slots.Length == MAX_SLOT_COUNT && 1 <= count <= MAX_SLOT_COUNT
    }

    function Slots(): seq<nat>
      requires Valid()
      reads this, slots
    {
      slots[..count]
    }

    method Clear()
      modifies this, slots
      ensures forall i :: 0 <= i < slots.Length ==> slots[i] == 0
      ensures count == 0 && target == 0
    {
      forall i | 0 <= i < slots.Length {
        slots[i] := 0;
      }
      count, target := 0, 0;
    }

    /** rate_limit_cfg_init; infinite is a missing rate value. */
    method InitFrom(rate: u32, infinite: bool)
      requires slots.Length == MAX_SLOT_COUNT
      modifies this, slots
      ensures Valid()
      ensures infinite ==> count == 1 && target == INFINITE && Slots() == [INFINITE]
      ensures !infinite && rate == 0 ==> count == 1 && target == 0 && Slots() == [0]
      ensures !infinite && rate > 0 ==>
                && count == Min(rate, MAX_SLOT_COUNT) && target == rate
                && Slots() == EvenSlots(rate, count) && Sum(Slots()) == rate
    {
      Clear();
      if infinite {
        count, target, slots[0] := 1, INFINITE, INFINITE;
        return;
      }
      if rate == 0 {
        count := 1;
        return;
      }
      count := Min(rate, MAX_SLOT_COUNT);
      target := rate;
      var minValue := rate / count;
      for i := 0 to count
        invariant count == Min(rate, MAX_SLOT_COUNT) && target == rate
        invariant forall j :: 0 <= j < i ==> slots[j] == minValue
      {
        slots[i] := minValue;
      }
      EvenSlotsSumToRate(rate, count);
      var rest := rate % count;
      if rest == 0 {
        assert Slots() == EvenSlots(rate, count);
        return;
      }
      DivideRest(rest, minValue);
    }

    /** Lines 106-130. The search for the next slot to start from always stops at
        slot 0 at once, and the loop makes a single pass. */
    method DivideRest(rest: nat, base: nat)
      requires Valid() && 0 < rest < count
      requires forall j :: 0 <= j < count ==> slots[j] == base
      modifies slots
      ensures Slots() == Spread(count, base, Step(count, rest), rest)
    {
      var rate, step, minValue := rest, count / rest, base;
      ghost var passes := 0;
      while rate > 0
        invariant passes == 0 ==> rate == rest && step == Step(count, rest) && minValue == base
        invariant passes == 0 ==> forall j :: 0 <= j < count ==> slots[j] == base
        invariant passes > 0 ==> rate == 0 && Slots() == Spread(count, base, Step(count, rest), rest)
        decreases rate
      {
        var index := FindFirst(minValue);
        assert slots[0] == minValue;
        assert index == 0;
        rate := OnePass(step, rate, base);
        step := step + 1;
        passes := passes + 1;
      }
    }

    /** Lines 111-114: the first slot with the value, or the count. */
    method FindFirst(minValue: nat) returns (index: nat)
      requires Valid()
      ensures index <= count && (index < count ==> slots[index] == minValue)
      ensures forall j :: 0 <= j < index ==> slots[j] != minValue
    {
      index := 0;
      while index < count && slots[index] != minValue
        invariant index <= count && forall j :: 0 <= j < index ==> slots[j] != minValue
      {
        index := index + 1;
      }
    }

    /** Lines 124-127: one more for every step-th slot, from slot 0. */
    method OnePass(step: nat, rate: nat, base: nat) returns (left: nat)
      requires Valid() && step > 0 && 0 < rate && rate * step <= count
      requires forall j :: 0 <= j < count ==> slots[j] == base
      modifies slots
      ensures left == 0 && Slots() == Spread(count, base, step, rate)
    {
      left := rate;
      var i := 0;
      ghost var k := 0;
      assert Slots() == Spread(count, base, step, 0);
      while i < count && left > 0
        invariant left + k == rate && i == k * step
        invariant Slots() == Spread(count, base, step, k)
        decreases left
      {
        SpreadOneMore(count, base, step, k);
        assert slots[i] == Slots()[i];
        slots[i] := slots[i] + 1;
        left := left - 1;
        assert (k + 1) * step == k * step + step;
        i, k := i + step, k + 1;
      }
      if left > 0 {
        FitsBelow(rate, k, step, count);
      }
    }
  }
}
