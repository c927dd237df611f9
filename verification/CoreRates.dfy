/** The share of a rate that one core gets, and how it is spent: rate_limit_t in
    inc/tpg_rate.h and rate_limit_init in src/tpg_rate.c. */
module CoreRates {
  import opened Prelude
  import opened Arithmetic
  import opened RateLimit

  // ----- splitting the slots

  /** A core took given and left after of before, slot by slot. */
  predicate Split(before: seq<nat>, after: seq<nat>, given: seq<nat>) {
    && |before| == |after| == |given|
    && forall i :: 0 <= i < |before| ==> before[i] == after[i] + given[i]
  }

  lemma {:induction false} SplitSums(before: seq<nat>, after: seq<nat>, given: seq<nat>)
    requires Split(before, after, given)
    ensures Sum(before) == Sum(after) + Sum(given)
  {
    if before != [] {
      SplitSums(before[1..], after[1..], given[1..]);
    }
  }

  /** One unit of slot i moves to the core. */
  lemma MoveOne(before: seq<nat>, kept: seq<nat>, given: seq<nat>, i: nat)
    requires Split(before, kept, given) && i < |kept| && kept[i] > 0
    ensures Split(before, kept[i := kept[i] - 1], given[i := given[i] + 1])
    ensures Sum(given[i := given[i] + 1]) == Sum(given) + 1
  {
    SumOfUpdate(given, i, given[i] + 1);
  }

  lemma {:induction false} SumIsPositive(s: seq<nat>) returns (i: nat)
    requires Sum(s) > 0
    ensures i < |s| && s[i] > 0
  {
    if s[0] > 0 {
      i := 0;
    } else {
      i := SumIsPositive(s[1..]);
      i := i + 1;
    }
  }

  /** What all cores together got in slot i. */
  function Column(shares: seq<seq<nat>>, i: nat): nat
    requires forall k :: 0 <= k < |shares| ==> i < |shares[k]|
  {
    if shares == [] then 0 else shares[0][i] + Column(shares[1..], i)
  }

  /** Splitting between any number of cores loses and duplicates nothing: in every
      slot the shares and the remainder add up to the original. */
  lemma {:induction false} CoresShareEverySlot(tables: seq<seq<nat>>, shares: seq<seq<nat>>, i: nat)
    requires |tables| == |shares| + 1 && i < |tables[0]|
    requires forall k :: 0 <= k < |shares| ==> Split(tables[k], tables[k + 1], shares[k])
    requires forall k :: 0 <= k < |tables| ==> |tables[k]| == |tables[0]|
    ensures forall k :: 0 <= k < |shares| ==> i < |shares[k]|
    ensures tables[0][i] == tables[|shares|][i] + Column(shares, i)
    decreases |shares|
  {
    forall k | 0 <= k < |shares|
      ensures i < |shares[k]|
    {
      assert Split(tables[k], tables[k + 1], shares[k]);
    }
    if shares != [] {
      assert Split(tables[0], tables[1], shares[0]);
      forall k | 0 <= k < |shares[1..]|
        ensures Split(tables[1..][k], tables[1..][k + 1], shares[1..][k])
      {
        assert Split(tables[k + 1], tables[k + 2], shares[k + 1]);
      }
      CoresShareEverySlot(tables[1..], shares[1..], i);
    }
  }

  /** test_case_rate_init scales the rate by the sessions of a core. Together the
      cores never ask for more than the configuration holds. */
  function Scaled(local: nat, rate: nat, total: nat): nat
    requires total > 0
  {
    local * rate / total
  }

  function ScaledSum(locals: seq<nat>, rate: nat, total: nat): nat
    requires total > 0
  {
    if locals == [] then 0 else Scaled(locals[0], rate, total) + ScaledSum(locals[1..], rate, total)
  }

  lemma {:induction false} ScaledSharesFit(locals: seq<nat>, rate: nat, total: nat)
    requires total > 0 && Sum(locals) <= total
    ensures ScaledSum(locals, rate, total) <= rate
  {
    ScaledSumTimesTotal(locals, rate, total);
    ProductBelow(Sum(locals), total, rate);
    CancelFactor(ScaledSum(locals, rate, total), rate, total);
  }

  /** And when the sessions of the cores are all there are, they ask for less than one
      unit per core below it. */
  lemma {:induction false} ScaledSharesLoseLittle(locals: seq<nat>, rate: nat, total: nat)
    requires total > 0 && Sum(locals) == total
    ensures ScaledSum(locals, rate, total) > rate - |locals|
  {
    ScaledSumLoses(locals, rate, total);
    LosesLittle(ScaledSum(locals, rate, total), rate, total, |locals|);
  }

  lemma LosesLittle(sum: nat, rate: nat, total: nat, n: nat)
    requires total > 0 && n > 0 && sum * total >= total * rate - n * (total - 1)
    ensures sum > rate - n
  {
    assert (rate - n) * total == total * rate - n * total;
    assert n * (total - 1) == n * total - n;
    if sum <= rate - n {
      ProductBelow(sum, rate - n, total);
    }
  }

  lemma {:induction false} ScaledSumLoses(locals: seq<nat>, rate: nat, total: nat)
    requires total > 0
    ensures ScaledSum(locals, rate, total) * total >= Sum(locals) * rate - |locals| * (total - 1)
  {
    if locals != [] {
      ScaledSumLoses(locals[1..], rate, total);
      ScaledStepLoses(locals[0], rate, total, Sum(locals[1..]), ScaledSum(locals[1..], rate, total), |locals| - 1);
    }
  }

  lemma ScaledStepLoses(local: nat, rate: nat, total: nat, rest: nat, more: nat, n: nat)
    requires total > 0 && more * total >= rest * rate - n * (total - 1)
    ensures (Scaled(local, rate, total) + more) * total >= (local + rest) * rate - (n + 1) * (total - 1)
  {
    var x := local * rate;
    var q := x / total;
    assert x == total * q + x % total;
    assert (q + more) * total == total * q + more * total;
    assert (local + rest) * rate == x + rest * rate;
    assert (n + 1) * (total - 1) == n * (total - 1) + (total - 1);
  }

  lemma CancelFactor(a: int, b: int, c: int)
    requires c > 0 && a * c <= c * b
    ensures a <= b
  {
    MulAtLeast(c, a - b);
    assert c * (a - b) == a * c - c * b;
  }

  lemma ProductBelow(a: nat, b: nat, c: nat)
    requires a <= b
    ensures a * c <= b * c
  {
    assert b * c == a * c + (b - a) * c;
  }

  lemma {:induction false} ScaledSumTimesTotal(locals: seq<nat>, rate: nat, total: nat)
    requires total > 0
    ensures ScaledSum(locals, rate, total) * total <= Sum(locals) * rate
  {
    if locals != [] {
      ScaledSumTimesTotal(locals[1..], rate, total);
      ScaledStep(locals[0], rate, total, Sum(locals[1..]), ScaledSum(locals[1..], rate, total));
    }
  }

  lemma ScaledStep(local: nat, rate: nat, total: nat, rest: nat, more: nat)
    requires total > 0 && more * total <= rest * rate
    ensures (Scaled(local, rate, total) + more) * total <= (local + rest) * rate
  {
    var x := local * rate;
    var q := x / total;
    assert x == total * q + x % total;
    assert (q + more) * total == total * q + more * total;
    assert (local + rest) * rate == x + rest * rate;
  }

  /** The index ends behind the table, or moves forwards with a small step and backwards
      with a huge one. */
  lemma IndexMoves(i: nat, step: nat, count: nat)
    requires i < count <= MAX_SLOT_COUNT && 1 <= step <= INFINITE
    ensures var next := (i + step) % 0x1_0000_0000;
            if step + count <= 0x1_0000_0000 then next == i + step else next >= count || next < i
  {
  }

  ghost predicate IsFirstFull(slots: seq<nat>, i: nat) {
    i < |slots| && slots[i] > 0 && forall j :: 0 <= j < i ==> slots[j] == 0
  }

  /** Slot j is a whole number of steps behind the first. */
  predicate OnStep(j: nat, first: nat, step: nat)
    requires step > 0
  {
    j >= first && (j - first) % step == 0
  }

  /** One unit came from each slot below end that is on the steps and was not empty. */
  ghost predicate PassTook(was: seq<nat>, kept: seq<nat>, now: seq<nat>, first: nat, step: nat, end: nat)
    requires step > 0
  {
    && |was| == |kept| == |now|
    && forall j :: 0 <= j < |now| ==>
         now[j] == was[j] + if j < end && OnStep(j, first, step) && kept[j] > 0 then 1 else 0
  }

  lemma PassStarts(was: seq<nat>, kept: seq<nat>, first: nat, step: nat)
    requires step > 0 && |was| == |kept|
    ensures OnStep(first, first, step) && PassTook(was, kept, was, first, step, first)
  {
    QuotientIsUnique(0, step, 0, 0);
  }

  predicate AtMost(s: seq<nat>, t: seq<nat>) {
    |s| == |t| && forall i :: 0 <= i < |s| ==> s[i] <= t[i]
  }

  ghost predicate FirstPass(before: seq<nat>, none: seq<nat>, part: seq<nat>, first: nat, step: nat, end: nat)
    requires step > 0
  {
    IsFirstFull(before, first) && PassTook(none, before, part, first, step, end)
  }

  /** The share starts with one unit of each step-th slot that was not empty, from the
      first such slot on and up to slot end, which is the end of the table unless
      that is the whole share. */
  ghost predicate StartsWithPass(before: seq<nat>, share: seq<nat>, part: seq<nat>, first: nat, step: nat, end: nat)
    requires step > 0
  {
    && FirstPass(before, seq(|before|, _ => 0), part, first, step, end)
    && AtMost(part, share) && (end >= |before| || part == share)
  }

  lemma OnStepNext(first: nat, step: nat, i: nat, j: nat)
    requires step > 0 && OnStep(i, first, step) && i < j <= i + step
    ensures OnStep(j, first, step) <==> j == i + step
  {
    var q := (i - first) / step;
    assert i - first == step * q;
    if j < i + step {
      QuotientIsUnique(j - first, step, q, j - i);
    } else {
      assert step * (q + 1) == step * q + step;
      QuotientIsUnique(j - first, step, q + 1, 0);
    }
  }

  lemma PassNext(before: seq<nat>, was: seq<nat>, kept: seq<nat>, slots: seq<nat>, now: seq<nat>, next: seq<nat>,
                 first: nat, step: nat, i: nat)
    requires step > 0 && i < |now| && OnStep(i, first, step) && PassTook(was, kept, now, first, step, i)
    requires Split(before, kept, was) && Split(before, slots, now)
    requires next == if slots[i] > 0 then now[i := now[i] + 1] else now
    ensures OnStep(i + step, first, step) && PassTook(was, kept, next, first, step, i + step)
  {
    OnStepNext(first, step, i, i + step);
    forall j | i < j < i + step
      ensures !OnStep(j, first, step)
    {
      OnStepNext(first, step, i, j);
    }
  }

  datatype Result = Ok | OutOfMemory

  // ----- one core

  /** rate_limit_t. rl_slots is NULL when nothing was asked for. */
  class CoreRate {
    var currentRate: nat
    var count: nat
    var currentIndex: nat
    var maxBurst: u16
    var slots: array?<nat>

    constructor ()
      ensures slots == null && count == 0
    {
      currentRate, count, currentIndex, maxBurst, slots := 0, 0, 0, 0, null;
    }

    predicate Valid()
      reads this
    {
      slots != null && count > 0 && count <= slots.Length && currentIndex < count
    }

    function Slots(): seq<nat>
      requires Valid()
      reads this, slots
    {
      slots[..count]
    }

    /** rate_limit_init. It always ends, takes exactly the desired amount out of
        the configuration, and keeps every unit in the slot it came from. It begins
        with a pass over each displacement-th slot. */
    method InitFrom(cfg: Config, displacement: u32, desired: u32, burst: u32, memory: bool)
      returns (r: Result)
      requires cfg.Valid() && displacement >= 1
      requires desired == INFINITE || desired <= Sum(cfg.Slots())
      modifies this, cfg.slots
      ensures r == OutOfMemory <==> desired > 0 && !memory
      ensures desired == 0 || r == OutOfMemory ==>
                count == 0 && currentRate == 0 && cfg.Slots() == old(cfg.Slots())
      ensures r == Ok && desired > 0 ==>
                && Valid() && fresh(slots) && currentIndex == 0
                && currentRate == Slots()[0] && maxBurst == burst % 0x1_0000
      ensures r == Ok && desired == INFINITE ==>
                Slots() == [INFINITE] && cfg.Slots() == old(cfg.Slots())
      ensures r == Ok && 0 < desired < INFINITE ==>
                && count == cfg.count && Sum(Slots()) == desired
                && Split(old(cfg.Slots()), cfg.Slots(), Slots())
      ensures r == Ok && 0 < desired < INFINITE && displacement + cfg.count <= 0x1_0000_0000 ==>
                exists part, first, end :: StartsWithPass(old(cfg.Slots()), Slots(), part, first, displacement, end)
    {
      currentRate, count, currentIndex, maxBurst, slots := 0, 0, 0, 0, null;
      if desired == 0 {
        return Ok;
      }
      if !memory {
        return OutOfMemory;
      }
      var a := new nat[cfg.count](_ => 0);
      slots := a;
      maxBurst := burst % 0x1_0000;
      if desired == INFINITE {
        a[0] := INFINITE;
        count, currentRate := 1, INFINITE;
        assert a[..1] == [INFINITE];
        return Ok;
      }
      ghost var part, first, end := Take(cfg, a, displacement, desired);
      currentRate := a[0];
      count := cfg.count;
      assert a[..count] == a[..];
      r := Ok;
    }

    /** Lines 166-186. */
    static method Take(cfg: Config, a: array<nat>, displacement: u32, amount: nat)
      returns (ghost part: seq<nat>, ghost first: nat, ghost end: nat)
      requires cfg.Valid() && displacement >= 1 && 0 < amount <= Sum(cfg.Slots())
      requires a.Length == cfg.count && a != cfg.slots && forall i :: 0 <= i < a.Length ==> a[i] == 0
      modifies a, cfg.slots
      ensures Sum(a[..]) == amount && Split(old(cfg.Slots()), cfg.Slots(), a[..])
      ensures displacement + cfg.count <= 0x1_0000_0000 ==>
                StartsWithPass(old(cfg.Slots()), a[..], part, first, displacement, end)
    {
      ghost var before, none := cfg.Slots(), a[..];
      var step, desired := displacement, amount;
      SumOfZeros(a[..]);
      part, first, end := none, 0, 0;
      while desired > 0
        invariant if desired == amount then step == displacement && a[..] == none && cfg.Slots() == before
                  else displacement + cfg.count <= 0x1_0000_0000 ==>
                         FirstPass(before, none, part, first, displacement, end)
                         && AtMost(part, a[..]) && (end >= cfg.count || (desired == 0 && part == a[..]))
        invariant 1 <= step <= INFINITE && Sum(a[..]) + desired == amount && Split(before, cfg.Slots(), a[..])
        decreases desired
      {
        SplitSums(before, cfg.Slots(), a[..]);
        var left, i, n := TakePass(cfg, a, step, desired, before);
        if desired == amount {
          part, first, end := a[..], i, n;
        }
        desired := left;
        step := (step + 1) % 0x1_0000_0000 % cfg.count;
        if step == 0 {
          step := step + 1;
        }
      }
    }

    /** Lines 169-179: one pass from the first slot that is not empty, with one unit of
        each step-th slot that has some, up to slot end. The index is a 32-bit
        word, so a huge step moves it backwards. */
    static method TakePass(cfg: Config, a: array<nat>, step: nat, desired: nat, ghost before: seq<nat>)
      returns (left: nat, ghost first: nat, ghost end: nat)
      requires cfg.Valid() && 1 <= step <= INFINITE && 0 < desired <= Sum(cfg.Slots())
      requires a.Length == cfg.count && a != cfg.slots && Split(before, cfg.Slots(), a[..])
      modifies a, cfg.slots
      ensures left < desired && Sum(a[..]) + left == old(Sum(a[..])) + desired
      ensures Split(before, cfg.Slots(), a[..]) && AtMost(old(a[..]), a[..])
      ensures IsFirstFull(old(cfg.Slots()), first)
      ensures step + cfg.count <= 0x1_0000_0000 ==>
                && PassTook(old(a[..]), old(cfg.Slots()), a[..], first, step, end)
                && (left == 0 || end >= cfg.count)
    {
      var i := FirstFull(cfg);
      ghost var was, kept, plain := a[..], cfg.Slots(), step + cfg.count <= 0x1_0000_0000;
      first, left := i, desired;
      PassStarts(was, kept, i, step);
      while i < cfg.count && left > 0
        invariant 0 <= i && left <= desired && Sum(a[..]) + left == Sum(was) + desired
        invariant Split(before, cfg.Slots(), a[..]) && AtMost(was, a[..])
        invariant left == desired ==> i < cfg.count && cfg.slots[i] > 0
        invariant plain ==> OnStep(i, first, step) && PassTook(was, kept, a[..], first, step, i)
        decreases i < cfg.count, if plain then cfg.count - i else i
      {
        left, i := PassTurn(cfg, a, i, step, left, before, was, kept, first, plain);
      }
      end := i;
    }

    /** One turn of the inner loop. */
    static method PassTurn(cfg: Config, a: array<nat>, i: nat, step: nat, desired: nat, ghost before: seq<nat>,
                           ghost was: seq<nat>, ghost kept: seq<nat>, ghost first: nat, ghost plain: bool)
      returns (left: nat, next: nat)
      requires cfg.Valid() && a.Length == cfg.count && a != cfg.slots && Split(before, cfg.Slots(), a[..])
      requires i < cfg.count && 1 <= step <= INFINITE && desired > 0
      requires plain ==> step + cfg.count <= 0x1_0000_0000 && Split(before, kept, was)
                         && OnStep(i, first, step) && PassTook(was, kept, a[..], first, step, i)
      modifies a, cfg.slots
      ensures Split(before, cfg.Slots(), a[..]) && Sum(a[..]) + left == old(Sum(a[..])) + desired
      ensures left == (if old(cfg.slots[i]) > 0 then desired - 1 else desired) && AtMost(old(a[..]), a[..])
      ensures if step + cfg.count <= 0x1_0000_0000 then next == i + step else next >= cfg.count || next < i
      ensures plain ==> OnStep(next, first, step) && PassTook(was, kept, a[..], first, step, next)
    {
      ghost var now, slots := a[..], cfg.Slots();
      left := TakeAt(cfg, a, i, desired, before);
      IndexMoves(i, step, cfg.count);
      next := (i + step) % 0x1_0000_0000;
      if plain {
        assert next == i + step;
        PassNext(before, was, kept, slots, now, a[..], first, step, i);
      }
    }

    static method TakeAt(cfg: Config, a: array<nat>, i: nat, desired: nat, ghost before: seq<nat>) returns (left: nat)
      requires cfg.Valid() && a.Length == cfg.count && a != cfg.slots && Split(before, cfg.Slots(), a[..])
      requires i < cfg.count && desired > 0
      modifies a, cfg.slots
      ensures Split(before, cfg.Slots(), a[..]) && Sum(a[..]) + left == old(Sum(a[..])) + desired
      ensures left == if old(cfg.slots[i]) > 0 then desired - 1 else desired
      ensures a[..] == if old(cfg.slots[i]) > 0 then old(a[..][i := a[i] + 1]) else old(a[..])
      ensures AtMost(old(a[..]), a[..])
    {
      left := desired;
      if cfg.slots[i] > 0 {
        ghost var given, kept := a[..], cfg.Slots();
        MoveOne(before, kept, given, i);
        a[i] := a[i] + 1;
        cfg.slots[i] := cfg.slots[i] - 1;
        left := left - 1;
        assert a[..] == given[i := given[i] + 1];
        assert cfg.Slots() == kept[i := kept[i] - 1];
      }
    }

    static method FirstFull(cfg: Config) returns (i: nat)
      requires cfg.Valid() && Sum(cfg.Slots()) > 0
      ensures IsFirstFull(cfg.Slots(), i)
    {
      ghost var some := SumIsPositive(cfg.Slots());
      i := 0;
      while i < cfg.count && cfg.slots[i] == 0
        invariant i <= some && forall j :: 0 <= j < i ==> cfg.slots[j] == 0
      {
        i := i + 1;
      }
    }

    /** rate_limit_available: a full burst, or what is left of the interval. */
    function Available(): (n: nat)
      reads this
      ensures n <= currentRate && n <= maxBurst && (n == currentRate || n == maxBurst)
    {
      if maxBurst <= currentRate then maxBurst else currentRate
    }

    ghost function View(): Meter
      requires Valid()
      reads this, slots
    {
      Meter(Slots(), currentIndex, currentRate, maxBurst)
    }

    /** rate_limit_consume. */
    method Consume(n: nat)
      requires Valid() && n <= Available()
      modifies `currentRate
      ensures Valid() && View() == Spend(old(View()), n) && currentRate == old(currentRate) - n
    {
      currentRate := currentRate - n;
    }

    /** rate_limit_advance_interval: whatever is left, the next slot is there in full. */
    method AdvanceInterval()
      requires Valid()
      modifies this
      ensures Valid() && View() == Advance(old(View())) && slots == old(slots)
      ensures count == old(count) && maxBurst == old(maxBurst)
      ensures currentIndex == (old(currentIndex) + 1) % count && currentRate == Slots()[currentIndex]
    {
      currentIndex := (currentIndex + 1) % count;
      currentRate := slots[currentIndex];
    }

    /** rate_limit_interval_us; noLimit is gcfg_rate_no_lim_interval_size. With a finite
        limit, a full cycle of intervals of this length lasts a second, short of
        less than one microsecond for each. */
    method IntervalUs(noLimit: nat) returns (us: nat)
      requires count == 0 || Valid()
      ensures count == 0 ==> us == 0
      ensures count > 0 && Slots() == [INFINITE] ==> us == noLimit
      ensures count > 0 && Slots() != [INFINITE] ==> SEC_TO_USEC - count < count * us <= SEC_TO_USEC
    {
      if count == 0 {
        return 0;
      }
      if count == 1 && slots[0] == INFINITE {
        assert slots[..count] == [INFINITE];
        return noLimit;
      }
      assert slots[..count][0] == slots[0];
      us := SEC_TO_USEC / count;
      CycleLastsASecond(count);
    }

    /** Any sequence of requests: each is granted as far as the current interval allows.
        spent is what each interval gave. */
    method Serve(requests: seq<Request>) returns (spent: seq<nat>)
      requires Valid()
      modifies this
      ensures Valid() && slots == old(slots)
      ensures spent == Spent(0, Granted(old(View()), requests)) && Slots() == old(Slots())
    {
      ghost var m, goal := View(), Spent(0, Granted(View(), requests));
      var rest, current: nat := requests, 0;
      spent := [];
      while rest != []
        invariant Valid() && slots == old(slots) && m == View() && m.slots == old(Slots())
        invariant goal == spent + Spent(current, Granted(m, rest))
        decreases |rest|
      {
        spent, current, m := ServeNext(spent, current, m, rest);
        rest := rest[1..];
      }
      spent := spent + [current];
    }

    method ServeNext(before: seq<nat>, soFar: nat, ghost m: Meter, rest: seq<Request>)
      returns (spent: seq<nat>, current: nat, ghost after: Meter)
      requires Valid() && m == View() && rest != []
      modifies this
      ensures Valid() && slots == old(slots) && after == View() && after.slots == m.slots
      ensures before + Spent(soFar, Granted(m, rest)) == spent + Spent(current, Granted(after, rest[1..]))
    {
      SpentNext(before, soFar, m, rest);
      var e := ServeOne(rest[0]);
      after := Next(m, e);
      match e {
        case Consumed(n) => spent, current := before, soFar + n;
        case NextInterval => spent, current := before + [soFar], 0;
      }
    }

    method ServeOne(r: Request) returns (e: Event)
      requires Valid()
      modifies this
      ensures Valid() && slots == old(slots)
      ensures e == Grant(old(View()), r) && View() == Next(old(View()), e)
    {
      match r {
        case Take(n) =>
          var granted: nat := Min(n, Available());
          Consume(granted);
          e := Consumed(granted);
        case Tick =>
          AdvanceInterval();
          e := NextInterval;
      }
    }

    /** From the configuration to the packets: a core that was given a finite rate grants
        in each interval what is asked for, up to the slot of the interval, and so
        in any rl_count intervals in a row at most the desired amount. */
    method LimitedRun(cfg: Config, displacement: u32, desired: u32, burst: u32, requests: seq<Request>)
      returns (spent: seq<nat>)
      requires cfg.Valid() && displacement >= 1 && 0 < desired <= Sum(cfg.Slots()) && desired != INFINITE
      modifies this, cfg.slots
      ensures Valid() && Sum(Slots()) == desired && Split(old(cfg.Slots()), cfg.Slots(), Slots())
      ensures GrantsAsked(spent, Asked(0, burst % 0x1_0000, requests), Slots(), 0)
      ensures EveryWindow(spent, cfg.count, desired)
    {
      var r := InitFrom(cfg, displacement, desired, burst, true);
      ghost var m := View();
      spent := Serve(requests);
      GrantedWithinDesired(m, requests);
      GrantedIsAsked(m, requests);
    }
  }

  /** A full cycle of intervals lasts a second, short of less than one microsecond
      for each interval. */
  lemma CycleLastsASecond(count: nat)
    requires 1 <= count
    ensures SEC_TO_USEC - count < count * (SEC_TO_USEC / count) <= SEC_TO_USEC
    ensures count <= MAX_SLOT_COUNT ==> SEC_TO_USEC / count > 0
  {
    var q := SEC_TO_USEC / count;
    assert SEC_TO_USEC == count * q + SEC_TO_USEC % count;
    assert count * (1 - q) == count - count * q;
    MulAtLeast(count, 1 - q);
  }

  // ----- spending

  /** The value of a core's rate limit: its slots, the interval it is in and what
      is left of it, and the largest burst. */
  datatype Meter = Meter(slots: seq<nat>, index: nat, left: nat, burst: nat)

  datatype Event = Consumed(n: nat) | NextInterval

  function Spend(m: Meter, n: nat): Meter
    requires n <= m.left
  {
    m.(left := m.left - n)
  }

  function Advance(m: Meter): Meter
    requires m.index < |m.slots|
  {
    var i := (m.index + 1) % |m.slots|;
    m.(index := i, left := m.slots[i])
  }

  /** Callers consume at most what rate_limit_available told them. */
  predicate Fits(m: Meter, e: Event) {
    e.Consumed? ==> e.n <= Min(m.burst, m.left)
  }

  function Next(m: Meter, e: Event): Meter
    requires m.index < |m.slots| && Fits(m, e)
  {
    match e
    case Consumed(n) => Spend(m, n)
    case NextInterval => Advance(m)
  }

  ghost predicate RunFits(m: Meter, events: seq<Event>)
    decreases |events|
  {
    events == [] ||
    (m.index < |m.slots| && Fits(m, events[0]) && RunFits(Next(m, events[0]), events[1..]))
  }

  /** What each interval of a run consumed, given what the current one has so far. */
  function Spent(soFar: nat, events: seq<Event>): seq<nat>
    decreases |events|
  {
    if events == [] then [soFar]
    else match events[0]
         case Consumed(n) => Spent(soFar + n, events[1..])
         case NextInterval => [soFar] + Spent(0, events[1..])
  }

  /** The slot of interval j from the one at index on. */
  function SlotAhead(slots: seq<nat>, index: nat, j: nat): nat
    requires slots != []
  {
    slots[(index + j) % |slots|]
  }

  lemma SlotsAhead(m: Meter, j: nat)
    requires m.index < |m.slots|
    ensures if j == 0 then SlotAhead(m.slots, m.index, 0) == m.slots[m.index]
            else SlotAhead(m.slots, m.index, j) == SlotAhead(m.slots, Advance(m).index, j - 1)
  {
    if j == 0 {
      QuotientIsUnique(m.index, |m.slots|, 0, m.index);
    } else {
      IndexAhead(m.index, j, |m.slots|);
    }
  }

  /** Each interval of a run stays within the slot it falls on. */
  lemma {:induction false} EachIntervalWithinSlot(m: Meter, soFar: nat, events: seq<Event>, j: nat)
    requires m.index < |m.slots| && RunFits(m, events)
    requires soFar + m.left <= m.slots[m.index] && j < |Spent(soFar, events)|
    ensures Spent(soFar, events)[j] <= SlotAhead(m.slots, m.index, j)
    decreases |events|
  {
    SlotsAhead(m, j);
    if events != [] {
      match events[0] {
        case Consumed(n) => EachIntervalWithinSlot(Next(m, events[0]), soFar + n, events[1..], j);
        case NextInterval =>
          if j > 0 {
            EachIntervalWithinSlot(Advance(m), 0, events[1..], j - 1);
          }
      }
    }
  }

  /** Interval j from here is interval j - 1 from the next one. */
  lemma IndexAhead(i: nat, j: nat, n: nat)
    requires n > 0 && j > 0
    ensures ((i + 1) % n + (j - 1)) % n == (i + j) % n
  {
    RemainderOfSum(i + 1, j - 1, n);
  }

  lemma RemainderOfSum(x: nat, y: nat, n: nat)
    requires n > 0
    ensures (x % n + y) % n == (x + y) % n
  {
    var a, b := x % n + y, x + y;
    assert x == n * (x / n) + x % n && a == n * (a / n) + a % n;
    assert b == n * (x / n + a / n) + a % n;
    QuotientIsUnique(b, n, x / n + a / n, a % n);
  }

  /** The slots that length intervals in a row fall on, from interval a on. */
  function Cycle(slots: seq<nat>, a: nat, length: nat): (r: seq<nat>)
    requires slots != []
    ensures |r| == length
  {
    seq(length, j requires 0 <= j => slots[(a + j) % |slots|])
  }

  /** A full cycle visits every slot once, wherever it starts. */
  lemma {:induction false} FullCycleSum(slots: seq<nat>, a: nat)
    requires slots != []
    ensures Sum(Cycle(slots, a, |slots|)) == Sum(slots)
    decreases a
  {
    var n := |slots|;
    var c := Cycle(slots, a, n);
    if a == 0 {
      forall j | 0 <= j < n
        ensures c[j] == slots[j]
      {
        QuotientIsUnique(j, n, 0, j);
      }
      assert c == slots;
    } else {
      var b := Cycle(slots, a - 1, n);
      RemainderOfSum(a - 1, 0, n);
      QuotientIsUnique(a - 1 + n, n, (a - 1) / n + 1, (a - 1) % n);
      assert b == [b[0]] + b[1..] && c == b[1..] + [b[0]];
      SumOfConcat([b[0]], b[1..]);
      SumOfConcat(b[1..], [b[0]]);
      FullCycleSum(slots, a - 1);
    }
  }

  ghost predicate Below(spent: seq<nat>, w: nat, cycle: seq<nat>)
    requires w + |cycle| <= |spent|
  {
    forall j :: 0 <= j < |cycle| ==> spent[w + j] <= cycle[j]
  }

  lemma {:induction false} SpentWithinCycle(m: Meter, events: seq<Event>, w: nat)
    requires m.index < |m.slots| && m.left <= m.slots[m.index] && RunFits(m, events)
    requires w + |m.slots| <= |Spent(0, events)|
    ensures Below(Spent(0, events), w, Cycle(m.slots, m.index + w, |m.slots|))
  {
    var spent, cycle := Spent(0, events), Cycle(m.slots, m.index + w, |m.slots|);
    forall j | 0 <= j < |cycle|
      ensures spent[w + j] <= cycle[j]
    {
      EachIntervalWithinSlot(m, 0, events, w + j);
      assert m.index + (w + j) == m.index + w + j;
    }
  }

  lemma WindowIsBelow(spent: seq<nat>, w: nat, cycle: seq<nat>)
    requires w + |cycle| <= |spent| && Below(spent, w, cycle)
    ensures Sum(spent[w..w + |cycle|]) <= Sum(cycle)
  {
    SumIsMonotone(spent[w..w + |cycle|], cycle);
  }

  /** In any run, any rl_count intervals in a row consume at most the amount the
      core asked for. */
  lemma {:induction false} WindowWithinDesired(m: Meter, events: seq<Event>, w: nat)
    requires m.index < |m.slots| && m.left <= m.slots[m.index] && RunFits(m, events)
    requires w + |m.slots| <= |Spent(0, events)|
    ensures Sum(Spent(0, events)[w..w + |m.slots|]) <= Sum(m.slots)
  {
    SpentWithinCycle(m, events, w);
    WindowIsBelow(Spent(0, events), w, Cycle(m.slots, m.index + w, |m.slots|));
    FullCycleSum(m.slots, m.index + w);
  }

  // ----- requests

  datatype Request = Take(n: nat) | Tick

  /** What the requests amount to: each gets as much as is available. */
  function Granted(m: Meter, requests: seq<Request>): seq<Event>
    requires m.index < |m.slots|
    decreases |requests|
  {
    if requests == [] then []
    else
      var e := Grant(m, requests[0]);
      [e] + Granted(Next(m, e), requests[1..])
  }

  function Grant(m: Meter, r: Request): (e: Event)
    ensures Fits(m, e)
  {
    match r
    case Take(n) => Consumed(Min(n, Min(m.burst, m.left)))
    case Tick => NextInterval
  }

  lemma {:induction false} GrantedFits(m: Meter, requests: seq<Request>)
    requires m.index < |m.slots|
    ensures RunFits(m, Granted(m, requests))
    decreases |requests|
  {
    if requests != [] {
      var e := Grant(m, requests[0]);
      GrantedFits(Next(m, e), requests[1..]);
      assert Granted(m, requests)[1..] == Granted(Next(m, e), requests[1..]);
    }
  }

  lemma SpentNext(before: seq<nat>, soFar: nat, m: Meter, requests: seq<Request>)
    requires m.index < |m.slots| && requests != []
    ensures var e := Grant(m, requests[0]);
            var rest := Granted(Next(m, e), requests[1..]);
            before + Spent(soFar, Granted(m, requests))
            == if e.Consumed? then before + Spent(soFar + e.n, rest) else before + [soFar] + Spent(0, rest)
  {
    var e := Grant(m, requests[0]);
    var rest := Granted(Next(m, e), requests[1..]);
    assert Granted(m, requests)[1..] == rest;
    assert before + ([soFar] + Spent(0, rest)) == before + [soFar] + Spent(0, rest);
  }

  /** What is asked for in each interval; a request counts up to the burst. */
  function Asked(soFar: nat, burst: nat, requests: seq<Request>): seq<nat>
    decreases |requests|
  {
    if requests == [] then [soFar]
    else match requests[0]
         case Take(n) => Asked(soFar + Min(n, burst), burst, requests[1..])
         case Tick => [soFar] + Asked(0, burst, requests[1..])
  }

  /** Each interval from the one at index on grants what is asked for, as far as its
      slot goes. */
  ghost predicate GrantsAsked(spent: seq<nat>, asked: seq<nat>, slots: seq<nat>, index: nat)
    requires slots != []
  {
    && |spent| == |asked|
    && forall j :: 0 <= j < |spent| ==> spent[j] == Min(asked[j], SlotAhead(slots, index, j))
  }

  /** What a request adds to both. */
  lemma AskedNext(m: Meter, soFar: nat, requests: seq<Request>)
    requires m.index < |m.slots| && requests != []
    requires Min(soFar, m.slots[m.index]) + m.left == m.slots[m.index]
    ensures var slot, t := m.slots[m.index], Next(m, Grant(m, requests[0]));
            var spent, asked := Spent(Min(soFar, slot), Granted(m, requests)), Asked(soFar, m.burst, requests);
            match requests[0]
            case Take(n) =>
              && spent == Spent(Min(soFar + Min(n, m.burst), slot), Granted(t, requests[1..]))
              && asked == Asked(soFar + Min(n, m.burst), m.burst, requests[1..])
              && Min(soFar + Min(n, m.burst), slot) + t.left == slot
            case Tick =>
              && spent == [Min(soFar, slot)] + Spent(0, Granted(t, requests[1..]))
              && asked == [soFar] + Asked(0, m.burst, requests[1..])
  {
    SpentNext([], Min(soFar, m.slots[m.index]), m, requests);
  }

  /** Interval j of any run, given what was asked for in the current one so far. */
  lemma {:induction false} IntervalGrantsAsked(m: Meter, soFar: nat, requests: seq<Request>, j: nat)
    requires m.index < |m.slots| && Min(soFar, m.slots[m.index]) + m.left == m.slots[m.index]
    ensures var spent := Spent(Min(soFar, m.slots[m.index]), Granted(m, requests));
            var asked := Asked(soFar, m.burst, requests);
            |spent| == |asked| && (j < |spent| ==> spent[j] == Min(asked[j], SlotAhead(m.slots, m.index, j)))
    decreases |requests|
  {
    SlotsAhead(m, j);
    if requests != [] {
      AskedNext(m, soFar, requests);
      match requests[0] {
        case Take(n) =>
          IntervalGrantsAsked(Next(m, Grant(m, Take(n))), soFar + Min(n, m.burst), requests[1..], j);
        case Tick =>
          IntervalGrantsAsked(Advance(m), 0, requests[1..], if j > 0 then j - 1 else 0);
      }
    }
  }

  /** A run that starts with a full interval grants in each what is asked for, up to
      the slot. */
  lemma GrantedIsAsked(m: Meter, requests: seq<Request>)
    requires m.index < |m.slots| && m.left == m.slots[m.index]
    ensures GrantsAsked(Spent(0, Granted(m, requests)), Asked(0, m.burst, requests), m.slots, m.index)
  {
    var spent := Spent(0, Granted(m, requests));
    IntervalGrantsAsked(m, 0, requests, 0);
    forall j | 0 <= j < |spent|
      ensures spent[j] == Min(Asked(0, m.burst, requests)[j], SlotAhead(m.slots, m.index, j))
    {
      IntervalGrantsAsked(m, 0, requests, j);
    }
  }

  function WindowSum(spent: seq<nat>, w: nat, n: nat): nat
    requires w + n <= |spent|
  {
    Sum(spent[w..w + n])
  }

  ghost predicate EveryWindow(spent: seq<nat>, n: nat, limit: nat) {
    forall w: nat :: w + n <= |spent| ==> WindowSum(spent, w, n) <= limit
  }

  lemma GrantedWithinDesired(m: Meter, requests: seq<Request>)
    requires m.index < |m.slots| && m.left <= m.slots[m.index]
    ensures EveryWindow(Spent(0, Granted(m, requests)), |m.slots|, Sum(m.slots))
  {
    var events := Granted(m, requests);
    GrantedFits(m, requests);
    forall w: nat | w + |m.slots| <= |Spent(0, events)|
      ensures WindowSum(Spent(0, events), w, |m.slots|) <= Sum(m.slots)
    {
      WindowWithinDesired(m, events, w);
    }
  }
}
