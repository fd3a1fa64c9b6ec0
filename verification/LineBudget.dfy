/** The per-session line budget: a bucket that reads drain, that idle commands refill by
    amounts halving inside one time window, and that mutations refill line for line.

    Time is whole seconds.  A clock reading carries both clocks the budget consults: the
    monotonic one that measures windows, and the wall clock that is persisted. */
module LineBudget {
  import opened Wrappers

  datatype Config = Config(
    initial: nat,
    ceiling: nat,
    recoveryBase: nat,
    windowSecs: nat,
    warningThreshold: nat,
    criticalThreshold: nat,
    idleResetSecs: nat)

  datatype Clock = Clock(mono: nat, epoch: nat)

  /** The changing part of the tracker. */
  datatype Budget = Budget(
    remaining: nat,
    halvings: nat,
    windowStart: nat,
    windowStartEpoch: nat,
    lastDelta: int)

  datatype Snapshot = Snapshot(remaining: nat, delta: int, warning: bool, critical: bool, ceiling: nat)

  datatype Persisted = Persisted(remaining: nat, halvings: nat, windowStartEpoch: nat, expiresAt: nat)

  const U32: nat := 0x1_0000_0000
  const MAX_SHIFT: nat := 31

  /** The smallest base that the clamped shift cannot reduce to nothing: 2^31. */
  const UNCLAMPED_BASE: nat := 0x8000_0000

  // ----- Specification -----

  /** `base >> h`. */
  function Shifted(base: nat, h: nat): nat
  {
    if h == 0 then base else Shifted(base, h - 1) / 2
  }

  function Fresh(config: Config, clock: Clock): Budget
  {
    Budget(config.initial, 0, clock.mono, clock.epoch, 0)
  }

  function Recovered(config: Config, b: Budget, clock: Clock): Budget
  {
    if b.remaining >= config.ceiling then b
    else
      var w := if clock.mono >= b.windowStart + config.windowSecs
               then b.(halvings := 0, windowStart := clock.mono, windowStartEpoch := clock.epoch)
               else b;
      var recovery := Shifted(config.recoveryBase, Min(w.halvings, MAX_SHIFT));
      if recovery == 0 then w
      else w.(remaining := Min(w.remaining + recovery, config.ceiling),
              halvings := (w.halvings + 1) % U32)
  }

  function Deducted(config: Config, b: Budget, lines: nat, clock: Clock): Budget
  {
    var after := if lines == 0 then Recovered(config, b, clock)
                 else b.(remaining := if lines <= b.remaining then b.remaining - lines else 0);
    after.(lastDelta := after.remaining - b.remaining)
  }

  function Rewarded(config: Config, b: Budget, lines: nat): Budget
  {
    if lines == 0 then b
    else
      var remaining := Min(b.remaining + lines, config.ceiling);
      b.(remaining := remaining, lastDelta := remaining - b.remaining)
  }

  function SnapshotOf(config: Config, b: Budget): Snapshot
  {
    Snapshot(b.remaining, b.lastDelta,
             b.remaining < config.warningThreshold,
             b.remaining < config.criticalThreshold,
             config.ceiling)
  }

  /** A snapshot warns under the warning threshold and is critical under the critical one. */
  predicate Tells(snapshot: Snapshot, config: Config, remaining: nat)
  {
    && snapshot.remaining == remaining && snapshot.ceiling == config.ceiling
    && (config.warningThreshold <= remaining <==> !snapshot.warning)
    && (config.criticalThreshold <= remaining <==> !snapshot.critical)
  }

  function Saved(config: Config, b: Budget, clock: Clock): Persisted
  {
    Persisted(b.remaining, b.halvings, b.windowStartEpoch,
              if config.idleResetSecs > 0 then clock.epoch + config.idleResetSecs else 0)
  }

  predicate Expired(p: Persisted, clock: Clock)
  {
    p.expiresAt > 0 && clock.epoch > p.expiresAt
  }

  /** A missing or unreadable file is `None`. */
  function Loaded(config: Config, file: Option<Persisted>, clock: Clock): Budget
  {
    match file
    case None => Fresh(config, clock)
    case Some(p) =>
      if Expired(p, clock) then Fresh(config, clock)
      else
        var elapsed := if clock.epoch >= p.windowStartEpoch then clock.epoch - p.windowStartEpoch else 0;
        var windowStart := if elapsed <= clock.mono then clock.mono - elapsed else clock.mono;
        Budget(Min(p.remaining, config.ceiling), p.halvings, windowStart, p.windowStartEpoch, 0)
  }

  // ----- The tracker -----

  class BudgetState {
    const config: Config
    var remaining: nat
    var halvings: nat
    var windowStart: nat
    var windowStartEpoch: nat
    var lastDelta: int

    function Value(): Budget
      reads this
    {
      Budget(remaining, halvings, windowStart, windowStartEpoch, lastDelta)
    }

    constructor (config: Config, clock: Clock)
      ensures this.config == config
      ensures Value() == Fresh(config, clock)
    {
      this.config := config;
      remaining := config.initial;
      halvings := 0;
      windowStart := clock.mono;
      windowStartEpoch := clock.epoch;
      lastDelta := 0;
    }

    constructor Load(config: Config, file: Option<Persisted>, clock: Clock)
      ensures this.config == config
      ensures Value() == Loaded(config, file, clock)
    {
      this.config := config;
      lastDelta := 0;
      if file.None? || Expired(file.value, clock) {
        remaining := config.initial;
        halvings := 0;
        windowStart := clock.mono;
        windowStartEpoch := clock.epoch;
      } else {
        var p := file.value;
        var elapsed := if clock.epoch >= p.windowStartEpoch then clock.epoch - p.windowStartEpoch else 0;
        remaining := Min(p.remaining, config.ceiling);
        halvings := p.halvings;
        windowStart := if elapsed <= clock.mono then clock.mono - elapsed else clock.mono;
        windowStartEpoch := p.windowStartEpoch;
      }
    }

    method Save(clock: Clock) returns (file: Persisted)
      ensures file == Saved(config, Value(), clock)
    {
      var expiresAt := 0;
      if config.idleResetSecs > 0 {
        expiresAt := clock.epoch + config.idleResetSecs;
      }
      file := Persisted(remaining, halvings, windowStartEpoch, expiresAt);
    }

    method ResetDelta()
      modifies this
      ensures Value() == old(Value()).(lastDelta := 0)
    {
      lastDelta := 0;
    }

    method Deduct(lines: nat, clock: Clock) returns (snapshot: Snapshot)
      modifies this
      ensures Value() == Deducted(config, old(Value()), lines, clock)
      ensures snapshot == SnapshotOf(config, Value()) && Tells(snapshot, config, remaining)
      ensures snapshot.delta == remaining - old(remaining)
    {
      var before := remaining;
      if lines == 0 {
        TryRecover(clock);
      } else {
        remaining := if lines <= remaining then remaining - lines else 0;
      }
      lastDelta := remaining - before;
      snapshot := SnapshotOf(config, Value());
    }

    method RewardMutation(lines: nat) returns (snapshot: Snapshot)
      modifies this
      ensures Value() == Rewarded(config, old(Value()), lines)
      ensures snapshot == SnapshotOf(config, Value()) && Tells(snapshot, config, remaining)
    {
      if lines == 0 {
        snapshot := SnapshotOf(config, Value());
        return;
      }
      var before := remaining;
      remaining := Min(remaining + lines, config.ceiling);
      lastDelta := remaining - before;
      snapshot := SnapshotOf(config, Value());
    }

    method TryRecover(clock: Clock)
      modifies this
      ensures Value() == Recovered(config, old(Value()), clock)
    {
      if remaining >= config.ceiling {
        return;
      }
      if clock.mono >= windowStart + config.windowSecs {
        halvings := 0;
        windowStart := clock.mono;
        windowStartEpoch := clock.epoch;
      }
      var recovery := Shifted(config.recoveryBase, Min(halvings, MAX_SHIFT));
      if recovery == 0 {
        return;
      }
      var newRemaining := Min(remaining + recovery, config.ceiling);
      var actual := newRemaining - remaining;
      if actual > 0 {
        remaining := newRemaining;
        halvings := (halvings + 1) % U32;
      }
    }
  }

  // ----- Runs -----

  /** What a session does to its budget.  `Reload` is a save followed by a later load. */
  datatype Event =
    | Deduct(lines: nat, at: Clock)
    | Reward(lines: nat)
    | ResetDelta
    | Reload(saved: Clock, loaded: Clock)

  function After(config: Config, b: Budget, e: Event): Budget
  {
    match e
    case Deduct(lines, at) => Deducted(config, b, lines, at)
    case Reward(lines) => Rewarded(config, b, lines)
    case ResetDelta => b.(lastDelta := 0)
    case Reload(saved, loaded) => Loaded(config, Some(Saved(config, b, saved)), loaded)
  }

  function Run(config: Config, b: Budget, events: seq<Event>): Budget
    decreases |events|
  {
    if events == [] then b else Run(config, After(config, b, events[0]), events[1..])
  }

  /** Lines given back by idle commands over a run. */
  function Credit(config: Config, b: Budget, events: seq<Event>): nat
    decreases |events|
  {
    if events == [] then 0
    else
      var e := events[0];
      var gain := After(config, b, e).remaining - b.remaining;
      (if e.Deduct? && e.lines == 0 && gain > 0 then gain else 0)
      + Credit(config, After(config, b, e), events[1..])
  }

  /** The last instant of a run that starts at `now`. */
  function End(now: nat, events: seq<Event>): nat
    decreases |events|
  {
    if events == [] then now
    else match events[0]
      case Deduct(_, at) => End(at.mono, events[1..])
      case Reload(_, loaded) => End(loaded.mono, events[1..])
      case _ => End(now, events[1..])
  }

  /** Both clocks advance together, and no reload finds its file expired. */
  predicate Legal(config: Config, now: Clock, events: seq<Event>)
    decreases |events|
  {
    events == []
    || match events[0]
       case Deduct(_, at) =>
         Later(now, at) && Legal(config, at, events[1..])
       case Reload(saved, loaded) =>
         && Later(now, saved) && Later(saved, loaded)
         && (config.idleResetSecs > 0 ==> loaded.epoch <= saved.epoch + config.idleResetSecs)
         && Legal(config, loaded, events[1..])
       case _ => Legal(config, now, events[1..])
  }

  predicate Later(a: Clock, b: Clock)
  {
    a.mono <= b.mono && b.epoch - a.epoch == b.mono - a.mono
  }

  /** The window is the same one on both clocks, and it has begun. */
  predicate Synchronised(b: Budget, now: Clock)
  {
    b.windowStart <= now.mono && now.epoch - b.windowStartEpoch == now.mono - b.windowStart
  }

  // ----- Halving -----

  function Pow2(h: nat): (n: nat)
    ensures 0 < n
  {
    if h == 0 then 1 else 2 * Pow2(h - 1)
  }

  lemma {:induction false} ShiftedFromBelow(base: nat, h: nat)
    requires h > 0
    ensures Shifted(base, h) == Shifted(base / 2, h - 1)
  {
    if h > 1 {
      ShiftedFromBelow(base, h - 1);
    }
  }

  lemma {:induction false} ShiftedOut(base: nat, h: nat)
    ensures Shifted(base, h) == 0 <==> base < Pow2(h)
    decreases h
  {
    if h > 0 {
      ShiftedFromBelow(base, h);
      ShiftedOut(base / 2, h - 1);
    }
  }

  lemma {:induction false} Pow2Ascends(h: nat, k: nat)
    requires h <= k
    ensures Pow2(h) <= Pow2(k)
  {
    if h < k {
      Pow2Ascends(h, k - 1);
    }
  }

  lemma Pow2AtClamp()
    ensures Pow2(MAX_SHIFT) == UNCLAMPED_BASE
  {
    assert Pow2(8) == 256;
    assert Pow2(16) == 65_536;
    assert Pow2(24) == 16_777_216;
    assert Pow2(31) == UNCLAMPED_BASE;
  }

  /** Whether the clamped shift still pays after `h` halvings. */
  lemma ClampPays(base: nat, h: nat)
    requires h <= MAX_SHIFT
    ensures UNCLAMPED_BASE <= base ==> Shifted(base, h) > 0
    ensures base < UNCLAMPED_BASE && h == MAX_SHIFT ==> Shifted(base, h) == 0
  {
    ShiftedOut(base, h);
    Pow2AtClamp();
    Pow2Ascends(h, MAX_SHIFT);
  }

  /** What a window can still give when its next recovery is `x`. */
  function Left(x: nat): (sum: nat)
    ensures sum <= 2 * x
    ensures x > 0 ==> sum < 2 * x
  {
    if x == 0 then 0 else x + Left(x / 2)
  }

  // ----- The rate bound -----

  /** Starting a new window costs at least one whole window length. */
  lemma WindowsElapsed(start: nat, began: nat, end: nat, w: nat)
    requires 0 < w && start + w <= began <= end
    ensures Windows(began, end, w) + 1 <= Windows(start, end, w)
  {
    var q := (end - began) / w;
    assert (q + 1) * w <= end - start by {
      assert q * w <= end - began;
      assert (q + 1) * w == q * w + w;
    }
    QuotientAtLeast(end - start, w, q + 1);
  }

  lemma QuotientAtLeast(a: nat, w: nat, q: nat)
    requires 0 < w && q * w <= a
    ensures q <= a / w
  {
    var p, r := a / w, a % w;
    assert a == p * w + r && r < w;
    if p < q {
      TimesMonotone(p, q, w);
    }
  }

  lemma {:induction false} EndIsLater(config: Config, now: Clock, events: seq<Event>)
    requires Legal(config, now, events)
    ensures now.mono <= End(now.mono, events)
    decreases |events|
  {
    if events != [] {
      match events[0]
      case Deduct(_, at) => EndIsLater(config, at, events[1..]);
      case Reload(_, loaded) => EndIsLater(config, loaded, events[1..]);
      case _ => EndIsLater(config, now, events[1..]);
    }
  }

  /** A reload before expiry resumes the same window, and can only lower the balance. */
  lemma ReloadGrantsNothing(config: Config, b: Budget, now: Clock, saved: Clock, loaded: Clock)
    requires Synchronised(b, now) && Later(now, saved) && Later(saved, loaded)
    requires config.idleResetSecs > 0 ==> loaded.epoch <= saved.epoch + config.idleResetSecs
    ensures Loaded(config, Some(Saved(config, b, saved)), loaded)
            == b.(remaining := Min(b.remaining, config.ceiling), lastDelta := 0)
  {
  }

  /** One idle command spends one halving of the current window, or opens a new window. */
  lemma RecoverySpends(config: Config, b: Budget, clock: Clock)
    requires config.recoveryBase < UNCLAMPED_BASE && b.halvings <= MAX_SHIFT
    ensures var a := Recovered(config, b, clock);
            var gain := a.remaining - b.remaining;
            && a.halvings <= MAX_SHIFT
            && gain >= 0
            && if clock.mono >= b.windowStart + config.windowSecs && b.remaining < config.ceiling
               then a.windowStart == clock.mono && gain + WindowLeft(config, a) <= Left(config.recoveryBase)
               else a.windowStart == b.windowStart && gain + WindowLeft(config, a) <= WindowLeft(config, b)
  {
    ClampPays(config.recoveryBase, b.halvings);
    var w := if clock.mono >= b.windowStart + config.windowSecs then 0 else b.halvings;
    assert Shifted(config.recoveryBase, w + 1) == Shifted(config.recoveryBase, w) / 2;
  }

  /** What the current window can still give back. */
  function WindowLeft(config: Config, b: Budget): nat
  {
    Left(Shifted(config.recoveryBase, b.halvings))
  }

  /** Whole windows between two instants. */
  function Windows(start: nat, end: nat, w: nat): nat
    requires 0 < w && start <= end
  {
    (end - start) / w
  }

  function Allowance(config: Config, b: Budget, end: nat): nat
    requires 0 < config.windowSecs && b.windowStart <= end
  {
    WindowLeft(config, b)
    + Windows(b.windowStart, end, config.windowSecs) * (2 * config.recoveryBase)
  }

  lemma AllowanceOfRecovery(config: Config, b: Budget, clock: Clock, end: nat)
    requires 0 < config.windowSecs && b.windowStart <= clock.mono <= end
    requires config.recoveryBase < UNCLAMPED_BASE && b.halvings <= MAX_SHIFT
    ensures var a := Recovered(config, b, clock);
            && a.windowStart <= end
            && 0 <= a.remaining - b.remaining
            && a.remaining - b.remaining + Allowance(config, a, end) <= Allowance(config, b, end)
  {
    RecoverySpends(config, b, clock);
    if clock.mono >= b.windowStart + config.windowSecs && b.remaining < config.ceiling {
      WindowsElapsed(b.windowStart, clock.mono, end, config.windowSecs);
      TimesMonotone(Windows(clock.mono, end, config.windowSecs),
                    Windows(b.windowStart, end, config.windowSecs), 2 * config.recoveryBase);
    }
  }

  lemma TimesMonotone(n: nat, m: nat, x: nat)
    requires n + 1 <= m
    ensures n * x + x <= m * x
  {
    var d: nat := m - n - 1;
    assert m * x == (n + 1 + d) * x == n * x + x + d * x;
  }

  lemma {:induction false} CreditWithinAllowance(config: Config, b: Budget, now: Clock, events: seq<Event>)
    requires 0 < config.windowSecs
    requires config.recoveryBase < UNCLAMPED_BASE && b.halvings <= MAX_SHIFT
    requires Synchronised(b, now) && Legal(config, now, events)
    ensures b.windowStart <= End(now.mono, events)
    ensures Credit(config, b, events) <= Allowance(config, b, End(now.mono, events))
    decreases |events|
  {
    EndIsLater(config, now, events);
    if events != [] {
      var e, end := events[0], End(now.mono, events);
      var a := After(config, b, e);
      match e
      case Deduct(lines, at) =>
        EndIsLater(config, at, events[1..]);
        if lines == 0 {
          RecoverySpends(config, b, at);
          AllowanceOfRecovery(config, b, at, end);
          assert Allowance(config, a, end) == Allowance(config, Recovered(config, b, at), end);
        }
        CreditWithinAllowance(config, a, at, events[1..]);
      case Reload(saved, loaded) =>
        ReloadGrantsNothing(config, b, now, saved, loaded);
        CreditWithinAllowance(config, a, loaded, events[1..]);
      case _ =>
        CreditWithinAllowance(config, a, now, events[1..]);
    }
  }

  /** Over every run of every length, idle recovery stays under two bases a window. */
  ghost predicate RateBounded(config: Config)
    requires 0 < config.windowSecs
  {
    forall start: Clock, events: seq<Event> ::
      Legal(config, start, events) && start.mono <= End(start.mono, events) ==>
        Credit(config, Fresh(config, start), events) <= RunBound(config, start, events)
  }

  /** `n` times: read the balance away, then idle once, all within the same second. */
  function Drain(lines: nat, at: Clock, n: nat): seq<Event>
  {
    if n == 0 then [] else [Deduct(lines, at), Deduct(0, at)] + Drain(lines, at, n - 1)
  }

  lemma {:induction false} DrainIsLegal(config: Config, lines: nat, at: Clock, n: nat)
    ensures Legal(config, at, Drain(lines, at, n)) && End(at.mono, Drain(lines, at, n)) == at.mono
  {
    if n > 0 {
      DrainIsLegal(config, lines, at, n - 1);
      var rest := Drain(lines, at, n - 1);
      var d := Drain(lines, at, n);
      assert d[1..] == [Deduct(0, at)] + rest;
      assert d[1..][1..] == rest;
    }
  }

  /** While the clamped shift leaves something, every idle command pays. */
  lemma {:induction false} DrainPays(config: Config, b: Budget, lines: nat, at: Clock, n: nat)
    requires 0 < config.ceiling <= lines && b.remaining <= lines
    requires UNCLAMPED_BASE <= config.recoveryBase
    ensures n <= Credit(config, b, Drain(lines, at, n))
    decreases n
  {
    if n > 0 {
      var rest, d := Drain(lines, at, n - 1), Drain(lines, at, n);
      var b1 := After(config, b, d[0]);
      assert d[1..] == [Deduct(0, at)] + rest;
      var b2 := After(config, b1, d[1]);
      assert d[1..][1..] == rest;
      ClampPays(config.recoveryBase, 0);
      ClampPays(config.recoveryBase, Min(b1.halvings, MAX_SHIFT));
      assert b2.remaining >= 1 && b2.remaining <= lines;
      assert Credit(config, b, d) == Credit(config, b1, d[1..]);
      DrainPays(config, b2, lines, at, n - 1);
    }
  }

  /** Two bases for every whole window the run spans, and two for the one it began in. */
  function RunBound(config: Config, start: Clock, events: seq<Event>): nat
    requires 0 < config.windowSecs && start.mono <= End(start.mono, events)
  {
    Windows(start.mono, End(start.mono, events), config.windowSecs) * (2 * config.recoveryBase)
    + 2 * config.recoveryBase
  }

  lemma CreditWithinBound(config: Config, start: Clock, events: seq<Event>)
    requires 0 < config.windowSecs && Legal(config, start, events)
    requires config.recoveryBase < UNCLAMPED_BASE
    ensures start.mono <= End(start.mono, events)
    ensures Credit(config, Fresh(config, start), events) <= RunBound(config, start, events)
    ensures config.recoveryBase > 0 ==> Credit(config, Fresh(config, start), events) < RunBound(config, start, events)
  {
    EndIsLater(config, start, events);
    CreditWithinAllowance(config, Fresh(config, start), start, events);
  }

  /** The first `n` recoveries of a window. */
  function HalvingSum(base: nat, n: nat): nat
  {
    if n == 0 then 0 else HalvingSum(base, n - 1) + Shifted(base, n - 1)
  }

  lemma {:induction false} LeftIsHalvingSum(base: nat, n: nat)
    ensures HalvingSum(base, n) + Left(Shifted(base, n)) == Left(base)
  {
    if n > 0 {
      LeftIsHalvingSum(base, n - 1);
    }
  }

  /** Within one window the credit is at most base + base/2 + base/4 + …, up to the halving
      that leaves nothing, whatever is read, earned or reloaded in between. */
  lemma OneWindowCredit(config: Config, start: Clock, events: seq<Event>, n: nat)
    requires Legal(config, start, events) && config.recoveryBase < UNCLAMPED_BASE
    requires End(start.mono, events) < start.mono + config.windowSecs
    requires Shifted(config.recoveryBase, n) == 0
    ensures Credit(config, Fresh(config, start), events) <= HalvingSum(config.recoveryBase, n)
  {
    hide Legal, Credit, HalvingSum, End;
    var b := Fresh(config, start);
    EndIsLater(config, start, events);
    CreditWithinAllowance(config, b, start, events);
    LeftIsHalvingSum(config.recoveryBase, n);
    NoWholeWindow(End(start.mono, events) - start.mono, config.windowSecs);
    assert WindowLeft(config, b) == Left(config.recoveryBase);
  }

  lemma NoWholeWindow(elapsed: nat, w: nat)
    requires elapsed < w
    ensures elapsed / w == 0
  {
  }

  lemma DrainBreaksBound(config: Config)
    requires 0 < config.windowSecs && 0 < config.ceiling && UNCLAMPED_BASE <= config.recoveryBase
    ensures !RateBounded(config)
  {
    var start := Clock(0, 0);
    var lines := config.initial + config.ceiling;
    var n := 2 * config.recoveryBase + 1;
    var events := Drain(lines, start, n);
    DrainIsLegal(config, lines, start, n);
    DrainPays(config, Fresh(config, start), lines, start, n);
    assert RunBound(config, start, events) == 2 * config.recoveryBase;
  }

  /** The rate bound holds exactly when the 31-bit clamp on the shift can reach zero, or
      when there is nothing to recover to. */
  lemma RecoveryIsRateBounded(config: Config)
    requires 0 < config.windowSecs
    ensures RateBounded(config) <==> config.recoveryBase < UNCLAMPED_BASE || config.ceiling == 0
  {
    if config.recoveryBase < UNCLAMPED_BASE {
      forall start: Clock, events: seq<Event> | Legal(config, start, events) && start.mono <= End(start.mono, events)
        ensures Credit(config, Fresh(config, start), events) <= RunBound(config, start, events)
      {
        CreditWithinBound(config, start, events);
      }
    } else if config.ceiling == 0 {
      forall start: Clock, events: seq<Event> | Legal(config, start, events) && start.mono <= End(start.mono, events)
        ensures Credit(config, Fresh(config, start), events) <= RunBound(config, start, events)
      {
        NothingToRecover(config, Fresh(config, start), events);
      }
    } else {
      DrainBreaksBound(config);
    }
  }

  lemma {:induction false} NothingToRecover(config: Config, b: Budget, events: seq<Event>)
    requires config.ceiling == 0
    ensures Credit(config, b, events) == 0
    decreases |events|
  {
    if events != [] {
      NothingToRecover(config, After(config, b, events[0]), events[1..]);
    }
  }

  // ----- What is paid, drained and earned -----

  /** The shift is the whole quotient by a power of two. */
  lemma {:induction false} ShiftedIsQuotient(base: nat, h: nat)
    ensures Shifted(base, h) * Pow2(h) <= base < (Shifted(base, h) + 1) * Pow2(h)
  {
    if h > 0 {
      ShiftedIsQuotient(base, h - 1);
      var q, half, p := Shifted(base, h - 1), Shifted(base, h), Pow2(h - 1);
      hide *;
      HalfStep(base, q, half, p);
    }
  }

  lemma HalfStep(base: nat, q: nat, half: nat, p: nat)
    requires half == q / 2 && q * p <= base < (q + 1) * p
    ensures half * (2 * p) <= base < (half + 1) * (2 * p)
  {
    var l := q - 2 * half;
    assert q * p == half * (2 * p) + l * p;
    if l == 0 {
      assert (q + 1) * p == half * (2 * p) + p;
    } else {
      assert (q + 1) * p == half * (2 * p) + 2 * p;
    }
  }

  /** One idle command, by what it pays. */
  lemma IdlePays(config: Config, b: Budget, clock: Clock, over: bool, pay: nat)
    requires over == (b.windowStart + config.windowSecs <= clock.mono)
    requires pay == Shifted(config.recoveryBase, if over then 0 else Min(b.halvings, MAX_SHIFT))
    requires b.remaining < config.ceiling
    ensures var a := Deducted(config, b, 0, clock);
      && a.remaining == Min(b.remaining + pay, config.ceiling)
      && a.windowStart == (if over then clock.mono else b.windowStart)
      && a.windowStartEpoch == (if over then clock.epoch else b.windowStartEpoch)
      && a.halvings == (if pay == 0 then (if over then 0 else b.halvings)
                        else ((if over then 0 else b.halvings) + 1) % U32)
  {
    hide Shifted;
  }

  /** One idle command, exactly: at the ceiling nothing happens; a window that is over gives way
      to a new one, which pays the full base; within a window the payment is the base halved
      once for each payment before it, 31 times at most; and the ceiling cuts any payment. */
  lemma IdlePaysExactly(config: Config, b: Budget, clock: Clock)
    ensures var a := Deducted(config, b, 0, clock);
      var over := b.windowStart + config.windowSecs <= clock.mono;
      var pay := Shifted(config.recoveryBase, if over then 0 else Min(b.halvings, MAX_SHIFT));
      if config.ceiling <= b.remaining then a == b.(lastDelta := 0)
      else
        && a.remaining == Min(b.remaining + pay, config.ceiling)
        && a.windowStart == (if over then clock.mono else b.windowStart)
        && a.windowStartEpoch == (if over then clock.epoch else b.windowStartEpoch)
        && a.halvings == (if pay == 0 then (if over then 0 else b.halvings)
                          else ((if over then 0 else b.halvings) + 1) % U32)
  {
    hide *;
    var over := b.windowStart + config.windowSecs <= clock.mono;
    if config.ceiling <= b.remaining {
      IdleAtCeiling(config, b, clock);
    } else {
      IdlePays(config, b, clock, over, Shifted(config.recoveryBase, if over then 0 else Min(b.halvings, MAX_SHIFT)));
    }
  }

  lemma IdleAtCeiling(config: Config, b: Budget, clock: Clock)
    requires config.ceiling <= b.remaining
    ensures Deducted(config, b, 0, clock) == b.(lastDelta := 0)
  {
  }

  /** `n` idle commands in a row, in the same second. */
  function Idle(at: Clock, n: nat): (events: seq<Event>)
  {
    if n == 0 then [] else [Deduct(0, at)] + Idle(at, n - 1)
  }

  /** One idle command in a window with room under the ceiling. */
  lemma IdleStep(config: Config, b: Budget, at: Clock)
    requires at.mono < b.windowStart + config.windowSecs && b.halvings < MAX_SHIFT
    requires 0 < Shifted(config.recoveryBase, b.halvings)
    requires b.remaining + Shifted(config.recoveryBase, b.halvings) <= config.ceiling
    ensures var a := After(config, b, Deduct(0, at));
      && a.remaining == b.remaining + Shifted(config.recoveryBase, b.halvings)
      && a.halvings == b.halvings + 1 && a.windowStart == b.windowStart
  {
    IdlePays(config, b, at, false, Shifted(config.recoveryBase, b.halvings));
  }

  lemma IdleRunStep(config: Config, b: Budget, at: Clock, n: nat)
    requires 0 < n
    ensures Run(config, b, Idle(at, n)) == Run(config, After(config, b, Deduct(0, at)), Idle(at, n - 1))
  {
    assert Idle(at, n)[1..] == Idle(at, n - 1);
  }

  lemma SumStep(base: nat, h: nat)
    ensures HalvingSum(base, h + 1) == HalvingSum(base, h) + Shifted(base, h)
  {
  }

  /** What a run of idle commands pays in one window. */
  lemma {:induction false} IdleRunPays(config: Config, b: Budget, at: Clock, n: nat)
    requires at.mono < b.windowStart + config.windowSecs && b.halvings + n <= MAX_SHIFT
    requires b.remaining + HalvingSum(config.recoveryBase, b.halvings + n)
             <= config.ceiling + HalvingSum(config.recoveryBase, b.halvings)
    requires 0 < Shifted(config.recoveryBase, b.halvings + n)
    ensures Run(config, b, Idle(at, n)).remaining + HalvingSum(config.recoveryBase, b.halvings)
            == b.remaining + HalvingSum(config.recoveryBase, b.halvings + n)
    decreases n
  {
    if n > 0 {
      var base, h := config.recoveryBase, b.halvings;
      hide *;
      SumGrows(base, h + 1, h + n);
      ShiftedFalls(base, h, h + n);
      SumStep(base, h);
      IdleStep(config, b, at);
      IdleRunStep(config, b, at, n);
      IdleRunPays(config, After(config, b, Deduct(0, at)), at, n - 1);
    }
  }

  lemma {:induction false} SumGrows(base: nat, h: nat, k: nat)
    requires h <= k
    ensures HalvingSum(base, h) <= HalvingSum(base, k)
    decreases k
  {
    if h < k {
      SumGrows(base, h, k - 1);
    }
  }

  lemma {:induction false} ShiftedFalls(base: nat, h: nat, k: nat)
    requires h <= k
    ensures Shifted(base, k) <= Shifted(base, h)
    decreases k
  {
    if h < k {
      ShiftedFalls(base, h, k - 1);
    }
  }

  /** The bound on a window is met: with room under the ceiling, idling in it pays base, base/2,
      base/4 and so on, all of them. */
  lemma WindowPaysInFull(config: Config, start: Clock, n: nat)
    requires 0 < config.windowSecs && n <= MAX_SHIFT && 0 < Shifted(config.recoveryBase, n)
    requires config.initial + HalvingSum(config.recoveryBase, n) <= config.ceiling
    ensures Run(config, Fresh(config, start), Idle(start, n)).remaining
            == config.initial + HalvingSum(config.recoveryBase, n)
  {
    IdleRunPays(config, Fresh(config, start), start, n);
  }

  /** Lines read over a run, and lines written. */
  function LinesRead(events: seq<Event>): nat
  {
    if events == [] then 0 else (if events[0].Deduct? then events[0].lines else 0) + LinesRead(events[1..])
  }

  function LinesWritten(events: seq<Event>): nat
  {
    if events == [] then 0 else (if events[0].Reward? then events[0].lines else 0) + LinesWritten(events[1..])
  }

  /** Reads are within the balance, rewards within the ceiling, and nothing is reloaded. */
  predicate WithinBounds(config: Config, b: Budget, events: seq<Event>)
    decreases |events|
  {
    events == []
    || ((match events[0]
         case Deduct(lines, _) => lines <= b.remaining
         case Reward(lines) => b.remaining + lines <= config.ceiling
         case ResetDelta => true
         case Reload(_, _) => false)
        && WithinBounds(config, After(config, b, events[0]), events[1..]))
  }

  /** Conservation: the balance is what it was, less the lines read, plus the lines written,
      plus what idle commands paid. */
  lemma {:induction false} BalanceIsConserved(config: Config, b: Budget, events: seq<Event>)
    requires WithinBounds(config, b, events)
    ensures Run(config, b, events).remaining
            == b.remaining - LinesRead(events) + LinesWritten(events) + Credit(config, b, events)
    decreases |events|
  {
    if events != [] {
      BalanceIsConserved(config, After(config, b, events[0]), events[1..]);
    }
  }

  /** Beyond those bounds a read empties the balance and a reward fills it to the ceiling; either
      way the window is not touched. */
  lemma BoundsCut(config: Config, b: Budget, lines: nat, clock: Clock)
    requires 0 < lines
    ensures var read, written := Deducted(config, b, lines, clock), Rewarded(config, b, lines);
      && (b.remaining <= lines ==> read.remaining == 0)
      && (config.ceiling <= b.remaining + lines ==> written.remaining == config.ceiling)
      && read.halvings == written.halvings == b.halvings
      && read.windowStart == written.windowStart == b.windowStart
  {
  }

  /** A tracker left idle past its deadline, or whose file is gone, starts afresh. */
  lemma ExpiredReloadIsFresh(config: Config, b: Budget, saved: Clock, loaded: Clock)
    requires 0 < config.idleResetSecs && saved.epoch + config.idleResetSecs < loaded.epoch
    ensures var a := Loaded(config, Some(Saved(config, b, saved)), loaded);
      a == Loaded(config, None, loaded)
      && a == Budget(config.initial, 0, loaded.mono, loaded.epoch, 0)
  {
  }

  // ----- Ceiling and deltas -----

  /** The balance stays under the ceiling over every run exactly when it starts there:
      a fresh tracker is not clamped, only a loaded one is. */
  lemma CeilingHolds(config: Config, start: Clock)
    ensures (forall events: seq<Event> :: Run(config, Fresh(config, start), events).remaining <= config.ceiling)
            <==> config.initial <= config.ceiling
  {
    if config.initial <= config.ceiling {
      forall events: seq<Event> ensures Run(config, Fresh(config, start), events).remaining <= config.ceiling {
        StaysUnderCeiling(config, Fresh(config, start), events);
      }
    } else {
      assert Run(config, Fresh(config, start), []).remaining == config.initial;
    }
  }

  lemma {:induction false} StaysUnderCeiling(config: Config, b: Budget, events: seq<Event>)
    requires config.initial <= config.ceiling && b.remaining <= config.ceiling
    ensures Run(config, b, events).remaining <= config.ceiling
    decreases |events|
  {
    if events != [] {
      StaysUnderCeiling(config, After(config, b, events[0]), events[1..]);
    }
  }

  /** The delta in the snapshot a call returns; `None` where no snapshot is returned. */
  function Reported(config: Config, b: Budget, e: Event): Option<int>
  {
    match e
    case Deduct(_, _) => Some(SnapshotOf(config, After(config, b, e)).delta)
    case Reward(_) => Some(SnapshotOf(config, After(config, b, e)).delta)
    case _ => None
  }

  function ReportedTotal(config: Config, b: Budget, events: seq<Event>): int
    decreases |events|
  {
    if events == [] then 0
    else
      var d := Reported(config, b, events[0]);
      (if d.Some? then d.value else 0)
      + ReportedTotal(config, After(config, b, events[0]), events[1..])
  }

  /** A call reports its own change, except that a reward of zero lines repeats the delta
      of the call before it. */
  lemma ReportedDeltaIsChange(config: Config, b: Budget, e: Event)
    requires e.Deduct? || e.Reward?
    ensures Reported(config, b, e) == Some(After(config, b, e).remaining - b.remaining)
            <==> !(e == Reward(0) && b.lastDelta != 0)
  {
  }

  /** What zero-line rewards report a second time over a run. */
  function Repeated(config: Config, b: Budget, events: seq<Event>): int
    decreases |events|
  {
    if events == [] then 0
    else
      (if events[0] == Reward(0) then b.lastDelta else 0)
      + Repeated(config, After(config, b, events[0]), events[1..])
  }

  /** What reloads take from the balance over a run, which no call reports. */
  function Trimmed(config: Config, b: Budget, events: seq<Event>): int
    decreases |events|
  {
    if events == [] then 0
    else
      var a := After(config, b, events[0]);
      (if events[0].Reload? then b.remaining - a.remaining else 0) + Trimmed(config, a, events[1..])
  }

  /** Over every run the reported deltas sum to the change of the balance, what zero-line
      rewards repeated, and what reloads trimmed: they telescope exactly when the last two
      cancel. */
  lemma {:induction false} DeltasTelescope(config: Config, b: Budget, events: seq<Event>)
    ensures ReportedTotal(config, b, events)
            == Run(config, b, events).remaining - b.remaining + Repeated(config, b, events) + Trimmed(config, b, events)
    ensures Reward(0) !in events ==> Repeated(config, b, events) == 0
    decreases |events|
  {
    if events != [] {
      var e := events[0];
      assert e in events && forall x :: x in events[1..] ==> x in events;
      if e.Deduct? || e.Reward? {
        ReportedDeltaIsChange(config, b, e);
      }
      DeltasTelescope(config, After(config, b, e), events[1..]);
    }
  }

  /** Reloads before expiry trim nothing from a balance under the ceiling. */
  lemma {:induction false} ReloadsTrimNothing(config: Config, b: Budget, now: Clock, events: seq<Event>)
    requires config.initial <= config.ceiling && b.remaining <= config.ceiling
    requires Synchronised(b, now) && Legal(config, now, events)
    ensures Trimmed(config, b, events) == 0
    decreases |events|
  {
    if events != [] {
      var a := After(config, b, events[0]);
      match events[0]
      case Deduct(_, at) =>
        ReloadsTrimNothing(config, a, at, events[1..]);
      case Reload(saved, loaded) =>
        ReloadGrantsNothing(config, b, now, saved, loaded);
        ReloadsTrimNothing(config, a, loaded, events[1..]);
      case _ =>
        ReloadsTrimNothing(config, a, now, events[1..]);
    }
  }

  /** With a zero-line reward in between they do not: the drop of fifty is counted twice. */
  lemma ZeroRewardRepeatsDelta(config: Config, start: Clock)
    requires config.initial >= 50
    ensures var events := [Deduct(50, start), Reward(0)];
            && ReportedTotal(config, Fresh(config, start), events) == -100
            && Run(config, Fresh(config, start), events).remaining == config.initial - 50
  {
    var events := [Deduct(50, start), Reward(0)];
    var b := Fresh(config, start);
    var b1 := After(config, b, events[0]);
    assert events[1..] == [Reward(0)];
    assert events[1..][1..] == [];
    assert Run(config, b1, events[1..]) == Run(config, After(config, b1, Reward(0)), []);
    assert ReportedTotal(config, b1, events[1..]) == -50 + ReportedTotal(config, After(config, b1, Reward(0)), []);
  }
}
