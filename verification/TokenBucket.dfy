/** The per-key token bucket in front of the product's API, over real time. */
module TokenBucket {

  /** The bucket of one key; a key never used has none. */
  datatype Level = Level(tokens: real, lastRefill: real)

  type Levels = map<string, Level>

  datatype Limits = Limits(ratePerMinute: int, burst: int) {
    /** Tokens per second. */
    function Rate(): real {
      ratePerMinute as real / 60.0
    }
  }

  /** `DivisionByZero` is the ZeroDivisionError of a refused take at rate zero. */
  datatype Answer = Allowed | Refused(retryAfter: real) | DivisionByZero

  function Min(a: real, b: real): real {
    if a < b then a else b
  }

  /** The tokens that flow into a bucket in a stretch of time. */
  function Inflow(limits: Limits, elapsed: real): real {
    elapsed * limits.Rate()
  }

  /** What a take finds in the bucket after refilling it. For a fresh key the
      stored time is read on first use, after `now` was read. */
  function Available(limits: Limits, levels: Levels, key: string, now: real, firstRead: real): real {
    var level := if key in levels then levels[key] else Level(limits.burst as real, firstRead);
    Min(limits.burst as real, level.tokens + Inflow(limits, now - level.lastRefill))
  }

  function AnswerOf(limits: Limits, available: real): Answer {
    if available >= 1.0 then Allowed
    else if limits.Rate() == 0.0 then DivisionByZero
    else Refused((1.0 - available) / limits.Rate())
  }

  function LevelsAfter(limits: Limits, levels: Levels, key: string, now: real, firstRead: real): Levels {
    var available := Available(limits, levels, key, now, firstRead);
    levels[key := Level(if available >= 1.0 then available - 1.0 else available, now)]
  }

  function Paired(tokens: map<string, real>, lastRefill: map<string, real>): Levels
    requires tokens.Keys == lastRefill.Keys
  {
    map key | key in tokens :: Level(tokens[key], lastRefill[key])
  }

  lemma PairedAt(tokens: map<string, real>, lastRefill: map<string, real>, key: string)
    requires tokens.Keys == lastRefill.Keys
    ensures key in Paired(tokens, lastRefill) <==> key in tokens
    ensures key in tokens ==> Paired(tokens, lastRefill)[key] == Level(tokens[key], lastRefill[key])
  {
  }

  lemma LastWriteWins(m: map<string, real>, key: string, a: real, b: real)
    ensures m[key := a][key := b] == m[key := b]
  {
  }

  lemma PairedUpdate(tokens: map<string, real>, lastRefill: map<string, real>, key: string, t: real, r: real)
    requires tokens.Keys == lastRefill.Keys
    ensures Paired(tokens[key := t], lastRefill[key := r]) == Paired(tokens, lastRefill)[key := Level(t, r)]
  {
  }

  class Bucket {
    const limits: Limits
    var tokens: map<string, real>
    var lastRefill: map<string, real>

    constructor (ratePerMinute: int, burst: int)
      ensures limits == Limits(ratePerMinute, burst) && Valid() && View() == map[]
    {
      this.limits := Limits(ratePerMinute, burst);
      this.tokens := map[];
      this.lastRefill := map[];
    }

    ghost predicate Valid()
      reads this
    {
      tokens.Keys == lastRefill.Keys
    }

    ghost function View(): Levels
      requires Valid()
      reads this
    {
      Paired(tokens, lastRefill)
    }

    /** The first half of `take`: read both defaults, refill, cap at the burst. */
    method Refill(key: string, now: real, firstRead: real)
      requires Valid()
      modifies this
      ensures tokens == old(tokens)[key := Available(limits, old(View()), key, now, firstRead)]
      ensures lastRefill == old(lastRefill)[key := now]
    {
      hide Inflow, Paired;
      PairedAt(tokens, lastRefill, key);
      ghost var available := Available(limits, View(), key, now, firstRead);
      LastWriteWins(tokens, key, limits.burst as real, available);
      LastWriteWins(lastRefill, key, firstRead, now);
      if key !in lastRefill {
        lastRefill := lastRefill[key := firstRead];
      }
      var elapsed := now - lastRefill[key];
      lastRefill := lastRefill[key := now];
      if key !in tokens {
        tokens := tokens[key := limits.burst as real];
      }
      var refilled := tokens[key] + Inflow(limits, elapsed);
      tokens := tokens[key := if limits.burst as real < refilled then limits.burst as real else refilled];
    }

    method Take(key: string, now: real, firstRead: real) returns (answer: Answer)
      requires Valid()
      modifies this
      ensures Valid()
      ensures View() == LevelsAfter(limits, old(View()), key, now, firstRead)
      ensures answer == AnswerOf(limits, Available(limits, old(View()), key, now, firstRead))
    {
      hide Available, Paired;
      ghost var available := Available(limits, View(), key, now, firstRead);
      LastWriteWins(tokens, key, available, available - 1.0);
      Refill(key, now, firstRead);
      if tokens[key] >= 1.0 {
        tokens := tokens[key := tokens[key] - 1.0];
        answer := Allowed;
      } else {
        var deficit := 1.0 - tokens[key];
        answer := if limits.Rate() == 0.0 then DivisionByZero else Refused(deficit / limits.Rate());
      }
      PairedUpdate(old(tokens), old(lastRefill), key, tokens[key], now);
    }
  }

  // ---- runs ----

  datatype Take = Take(key: string, now: real, firstRead: real)

  /** The monotonic clock: `now` never goes back, and a fresh key's second
      reading is not before its first. */
  ghost predicate ClockRuns(takes: seq<Take>) {
    && (forall i :: 0 <= i < |takes| ==> takes[i].now <= takes[i].firstRead)
    && forall i, j :: 0 <= i < j < |takes| ==> takes[i].now <= takes[j].now
  }

  function After(limits: Limits, takes: seq<Take>): Levels {
    if takes == [] then map[]
    else
      var t := takes[|takes| - 1];
      LevelsAfter(limits, After(limits, takes[..|takes| - 1]), t.key, t.now, t.firstRead)
  }

  /** The answer to take `i` of a run from an empty bucket. */
  function AnswerAt(limits: Limits, takes: seq<Take>, i: nat): Answer
    requires i < |takes|
  {
    AnswerOf(limits, Available(limits, After(limits, takes[..i]), takes[i].key, takes[i].now, takes[i].firstRead))
  }

  /** How many takes of a key were allowed in a window of time. */
  function AllowedIn(limits: Limits, takes: seq<Take>, key: string, from: real, to: real): nat {
    if takes == [] then 0
    else
      var n := |takes| - 1;
      var t := takes[n];
      AllowedIn(limits, takes[..n], key, from, to)
      + (if t.key == key && from <= t.now <= to && AnswerAt(limits, takes, n) == Allowed then 1 else 0)
  }

  ghost function AllowedTakes(limits: Limits, takes: seq<Take>, key: string, from: real, to: real): set<nat> {
    set i: nat |
      && i < |takes| && takes[i].key == key && from <= takes[i].now <= to
      && AnswerAt(limits, takes, i) == Allowed
  }

  lemma EarlierAnswer(limits: Limits, takes: seq<Take>, i: nat)
    requires i + 1 < |takes|
    ensures AnswerAt(limits, takes[..|takes| - 1], i) == AnswerAt(limits, takes, i)
  {
    assert takes[..|takes| - 1][..i] == takes[..i];
  }

  lemma {:induction false} AllowedInCounts(limits: Limits, takes: seq<Take>, key: string, from: real, to: real)
    ensures AllowedIn(limits, takes, key, from, to) == |AllowedTakes(limits, takes, key, from, to)|
  {
    hide AnswerAt;
    if takes == [] {
    } else {
      var n := |takes| - 1;
      AllowedInCounts(limits, takes[..n], key, from, to);
      forall i: nat | i < n
        ensures AnswerAt(limits, takes[..n], i) == AnswerAt(limits, takes, i)
      {
        EarlierAnswer(limits, takes, i);
      }
      var earlier := AllowedTakes(limits, takes[..n], key, from, to);
      assert AllowedTakes(limits, takes, key, from, to)
          == earlier + if n in AllowedTakes(limits, takes, key, from, to) then {n} else {};
    }
  }

  /** Takes of other keys leave a key's bucket alone. */
  lemma OtherKeysDoNotMatter(limits: Limits, takes: seq<Take>, t: Take, key: string)
    requires t.key != key
    ensures var before, after := After(limits, takes), After(limits, takes + [t]);
            && (key in after <==> key in before)
            && (key in before ==> after[key] == before[key])
  {
    assert (takes + [t])[..|takes|] == takes;
  }

  /** What is in the bucket of a known key at a time, were it refilled then. */
  function LevelAt(limits: Limits, level: Level, now: real): real {
    Min(limits.burst as real, level.tokens + Inflow(limits, now - level.lastRefill))
  }

  /** The most that a window may let through by the time `now`: the burst and
      the rate's share of the time passed. */
  function Allowance(limits: Limits, from: real, now: real): real {
    limits.burst as real + Inflow(limits, now - from)
  }

  lemma InflowAdds(limits: Limits, a: real, b: real)
    ensures Inflow(limits, a + b) == Inflow(limits, a) + Inflow(limits, b)
  {
  }

  lemma InflowSign(limits: Limits, a: real)
    requires limits.ratePerMinute >= 0
    ensures a >= 0.0 ==> Inflow(limits, a) >= 0.0
    ensures a <= 0.0 ==> Inflow(limits, a) <= 0.0
  {
  }

  lemma AllowanceGrows(limits: Limits, from: real, middle: real, now: real)
    requires limits.ratePerMinute >= 0 && middle <= now
    ensures Allowance(limits, from, now) == Allowance(limits, from, middle) + Inflow(limits, now - middle)
    ensures Inflow(limits, now - middle) >= 0.0
  {
    hide Inflow;
    InflowAdds(limits, middle - from, now - middle);
    InflowSign(limits, now - middle);
    assert (middle - from) + (now - middle) == now - from;
  }

  /** The allowed takes of a window stay within its allowance, and so do they
      together with what is left in the bucket. */
  ghost predicate WithinBudget(limits: Limits, takes: seq<Take>, key: string, from: real, to: real, now: real) {
    var levels := After(limits, takes);
    var count := AllowedIn(limits, takes, key, from, to) as real;
    && count <= Allowance(limits, from, now)
    && (key in levels ==> count + LevelAt(limits, levels[key], now) <= Allowance(limits, from, now))
    && (key !in levels ==> count == 0.0)
  }

  lemma {:induction false} WindowBudget(limits: Limits, takes: seq<Take>, key: string, from: real, to: real, now: real)
    requires limits.burst >= 0 && limits.ratePerMinute >= 0 && ClockRuns(takes)
    requires forall i :: 0 <= i < |takes| ==> takes[i].now <= now
    requires from <= now <= to
    ensures WithinBudget(limits, takes, key, from, to, now)
  {
    hide Inflow;
    InflowSign(limits, 0.0);
    AllowanceGrows(limits, from, from, now);
    if takes == [] {
    } else {
      var n := |takes| - 1;
      var t := takes[n];
      if t.key != key {
        WindowBudget(limits, takes[..n], key, from, to, now);
      } else if t.now < from {
        NoneBefore(limits, takes, key, from, to);
      } else {
        WindowBudget(limits, takes[..n], key, from, to, t.now);
        TakeKeepsBudget(limits, takes, from, to, now);
      }
    }
  }

  /** A take moves one token from the bucket to the count, or nothing. */
  lemma TakeKeepsBudget(limits: Limits, takes: seq<Take>, from: real, to: real, now: real)
    requires limits.burst >= 0 && limits.ratePerMinute >= 0 && takes != []
    requires var t := takes[|takes| - 1]; from <= t.now <= now <= to && t.now <= t.firstRead
    requires var t := takes[|takes| - 1]; WithinBudget(limits, takes[..|takes| - 1], t.key, from, to, t.now)
    ensures var t := takes[|takes| - 1]; WithinBudget(limits, takes, t.key, from, to, now)
  {
    hide Inflow;
    var n := |takes| - 1;
    var t := takes[n];
    var before := After(limits, takes[..n]);
    var available := Available(limits, before, t.key, t.now, t.firstRead);
    var count := AllowedIn(limits, takes[..n], t.key, from, to) as real;
    AllowanceGrows(limits, from, from, t.now);
    AllowanceGrows(limits, from, t.now, now);
    InflowSign(limits, t.now - t.firstRead);
    InflowSign(limits, 0.0);
    assert count + available <= Allowance(limits, from, t.now);
  }

  /** The rate bound: in any window of time, at most the burst and the rate's
      share of the window is let through for a key, whatever else is taken. */
  lemma {:induction false} RateBound(limits: Limits, takes: seq<Take>, key: string, from: real, to: real)
    requires limits.burst >= 0 && limits.ratePerMinute >= 0 && ClockRuns(takes) && from <= to
    ensures |AllowedTakes(limits, takes, key, from, to)| as real
            <= limits.burst as real + limits.ratePerMinute as real * (to - from) / 60.0
  {
    hide Inflow, AllowedIn, ClockRuns, AllowedTakes;
    WithinAllowance(limits, takes, key, from, to);
    AllowedInCounts(limits, takes, key, from, to);
    InflowIs(limits, to - from);
  }

  lemma {:induction false} WithinAllowance(limits: Limits, takes: seq<Take>, key: string, from: real, to: real)
    requires limits.burst >= 0 && limits.ratePerMinute >= 0 && ClockRuns(takes) && from <= to
    ensures AllowedIn(limits, takes, key, from, to) as real <= Allowance(limits, from, to)
  {
    hide Inflow;
    if takes != [] && takes[|takes| - 1].now > to {
      WithinAllowance(limits, takes[..|takes| - 1], key, from, to);
    } else {
      WindowBudget(limits, takes, key, from, to, to);
    }
  }

  /** Before the window opens nothing is counted in it. */
  lemma {:induction false} NoneBefore(limits: Limits, takes: seq<Take>, key: string, from: real, to: real)
    requires forall i :: 0 <= i < |takes| ==> takes[i].now < from
    ensures AllowedIn(limits, takes, key, from, to) == 0
  {
    if takes == [] {
    } else {
      NoneBefore(limits, takes[..|takes| - 1], key, from, to);
    }
  }

  lemma InflowIs(limits: Limits, elapsed: real)
    ensures Inflow(limits, elapsed) == limits.ratePerMinute as real * elapsed / 60.0
  {
  }

  // ---- what a caller can count on ----

  /** Take `i` is the first of its key. */
  predicate IsFirst(takes: seq<Take>, i: nat)
    requires i < |takes|
  {
    forall k :: 0 <= k < i ==> takes[k].key != takes[i].key
  }

  function TakesOf(takes: seq<Take>, key: string): nat {
    if takes == [] then 0
    else TakesOf(takes[..|takes| - 1], key) + if takes[|takes| - 1].key == key then 1 else 0
  }

  /** A key has a bucket once it has been used. */
  lemma {:induction false} KnownExactly(limits: Limits, takes: seq<Take>, key: string)
    ensures key in After(limits, takes) <==> exists k :: 0 <= k < |takes| && takes[k].key == key
    ensures key in After(limits, takes) <==> TakesOf(takes, key) > 0
  {
    if takes == [] {
    } else {
      var n := |takes| - 1;
      KnownExactly(limits, takes[..n], key);
      if k :| 0 <= k < n && takes[k].key == key {
        assert takes[..n][k].key == key;
      }
    }
  }

  /** The first take of a key finds a full bucket, less what the rate makes of the
      time between its two readings of the clock. */
  lemma FirstTakeExactly(limits: Limits, takes: seq<Take>, i: nat)
    requires limits.ratePerMinute >= 0 && i < |takes| && IsFirst(takes, i) && takes[i].now <= takes[i].firstRead
    ensures AnswerAt(limits, takes, i) == Allowed <==>
            limits.ratePerMinute as real * (takes[i].firstRead - takes[i].now) / 60.0 <= limits.burst as real - 1.0
  {
    hide Inflow;
    KnownExactly(limits, takes[..i], takes[i].key);
    assert takes[i].key !in After(limits, takes[..i]);
    var late := takes[i].firstRead - takes[i].now;
    InflowSign(limits, late);
    InflowIs(limits, late);
    InflowIs(limits, -late);
    assert takes[i].now - takes[i].firstRead == -late;
  }

  /** The keys' first takes read the clock once, so to speak. */
  ghost predicate FreshAtOnce(takes: seq<Take>, key: string) {
    forall i :: 0 <= i < |takes| && takes[i].key == key && IsFirst(takes, i) ==> takes[i].firstRead == takes[i].now
  }

  /** As long as a key has taken no more than its burst, each take has cost it one
      token at most, and all were allowed. */
  lemma {:induction false} BurstIsKept(limits: Limits, takes: seq<Take>, key: string, now: real)
    requires limits.ratePerMinute >= 0 && ClockRuns(takes) && FreshAtOnce(takes, key)
    requires forall i :: 0 <= i < |takes| ==> takes[i].now <= now
    requires TakesOf(takes, key) <= limits.burst
    ensures key in After(limits, takes) ==>
              && After(limits, takes)[key].lastRefill <= now
              && After(limits, takes)[key].tokens >= limits.burst as real - TakesOf(takes, key) as real
    ensures takes != [] && takes[|takes| - 1].key == key ==> AnswerAt(limits, takes, |takes| - 1) == Allowed
  {
    hide Available, After, AnswerAt;
    if takes == [] {
      KnownExactly(limits, takes, key);
    } else {
      var n := |takes| - 1;
      var t := takes[n];
      var before := takes[..n];
      EarlierFirsts(takes, key);
      if t.key != key {
        BurstIsKept(limits, before, key, now);
        OtherKeysDoNotMatter(limits, before, t, key);
        assert before + [t] == takes;
      } else {
        BurstIsKept(limits, before, key, t.now);
        KnownExactly(limits, before, key);
        assert key !in After(limits, before) ==> IsFirst(takes, n);
        NoLessThan(limits, After(limits, before), key, t.now, t.firstRead,
                   limits.burst as real - TakesOf(before, key) as real);
        FoundToken(limits, takes);
      }
    }
  }

  /** A refill takes nothing away. */
  lemma NoLessThan(limits: Limits, levels: Levels, key: string, now: real, firstRead: real, low: real)
    requires limits.ratePerMinute >= 0 && low <= limits.burst as real
    requires key in levels ==> levels[key].tokens >= low && levels[key].lastRefill <= now
    requires key !in levels ==> firstRead == now
    ensures Available(limits, levels, key, now, firstRead) >= low
  {
    hide Inflow;
    InflowSign(limits, if key in levels then now - levels[key].lastRefill else now - firstRead);
  }

  lemma EarlierFirsts(takes: seq<Take>, key: string)
    requires takes != [] && FreshAtOnce(takes, key)
    ensures FreshAtOnce(takes[..|takes| - 1], key)
  {
    var before := takes[..|takes| - 1];
    forall i | 0 <= i < |before| && before[i].key == key && IsFirst(before, i)
      ensures before[i].firstRead == before[i].now
    {
      assert forall k :: 0 <= k < i ==> before[k] == takes[k];
      assert IsFirst(takes, i);
    }
  }

  /** A key's first takes, as many as the burst, are all allowed, at whatever times
      and whatever other keys take in between. */
  lemma BurstIsAllowed(limits: Limits, takes: seq<Take>, i: nat)
    requires limits.ratePerMinute >= 0 && ClockRuns(takes) && i < |takes|
    requires FreshAtOnce(takes[..i + 1], takes[i].key)
    requires TakesOf(takes[..i], takes[i].key) < limits.burst
    ensures AnswerAt(limits, takes, i) == Allowed
  {
    assert takes[..i + 1][..i] == takes[..i];
    BurstIsKept(limits, takes[..i + 1], takes[i].key, takes[i].now);
  }

  /** The rate makes a token in this time. */
  predicate TokenTime(limits: Limits, elapsed: real) {
    limits.ratePerMinute as real * elapsed >= 60.0
  }

  /** Any two takes of the key are at least the time of one token apart. */
  ghost predicate SteadyPace(limits: Limits, takes: seq<Take>, key: string) {
    forall i, j :: 0 <= i < j < |takes| && takes[i].key == key && takes[j].key == key ==>
      TokenTime(limits, takes[j].now - takes[i].now)
  }

  /** A take that finds a token is allowed and leaves the rest. */
  lemma FoundToken(limits: Limits, takes: seq<Take>)
    requires takes != []
    requires var t := takes[|takes| - 1];
             Available(limits, After(limits, takes[..|takes| - 1]), t.key, t.now, t.firstRead) >= 1.0
    ensures var t := takes[|takes| - 1];
            && AnswerAt(limits, takes, |takes| - 1) == Allowed
            && t.key in After(limits, takes)
            && After(limits, takes)[t.key]
               == Level(Available(limits, After(limits, takes[..|takes| - 1]), t.key, t.now, t.firstRead) - 1.0, t.now)
  {
    hide Available;
  }

  /** After the time of a token there is one in the bucket. */
  lemma TokenIsBack(limits: Limits, levels: Levels, key: string, now: real, firstRead: real)
    requires limits.burst >= 1 && limits.ratePerMinute > 0
    requires key in levels ==> levels[key].tokens >= 0.0 && TokenTime(limits, now - levels[key].lastRefill)
    requires key !in levels ==> firstRead == now
    ensures Available(limits, levels, key, now, firstRead) >= 1.0
  {
    hide Inflow;
    if key in levels {
      InflowIs(limits, now - levels[key].lastRefill);
    } else {
      InflowIs(limits, 0.0);
    }
  }

  /** The bucket of the key is what one of its takes left, and is not overdrawn. */
  ghost predicate LeftByATake(limits: Limits, takes: seq<Take>, key: string) {
    key in After(limits, takes) ==>
      && After(limits, takes)[key].tokens >= 0.0
      && exists k :: 0 <= k < |takes| && takes[k].key == key && After(limits, takes)[key].lastRefill == takes[k].now
  }

  /** A caller that keeps to the rate is never refused, however long it goes on. */
  lemma {:induction false} SteadyPaceIsAllowed(limits: Limits, takes: seq<Take>, key: string)
    requires limits.burst >= 1 && limits.ratePerMinute > 0
    requires SteadyPace(limits, takes, key) && FreshAtOnce(takes, key)
    ensures LeftByATake(limits, takes, key)
    ensures takes != [] && takes[|takes| - 1].key == key ==> AnswerAt(limits, takes, |takes| - 1) == Allowed
  {
    hide Available, TokenTime, After, AnswerAt, LevelsAfter;
    if takes == [] {
      assert LeftByATake(limits, takes, key) by {
        KnownExactly(limits, takes, key);
      }
    } else {
      var n := |takes| - 1;
      EarlierFirsts(takes, key);
      SteadyPaceIsAllowed(limits, takes[..n], key);
      if takes[n].key == key {
        SteadyTake(limits, takes, key);
      } else {
        IdleTake(limits, takes, key);
      }
    }
  }

  lemma IdleTake(limits: Limits, takes: seq<Take>, key: string)
    requires takes != [] && takes[|takes| - 1].key != key && LeftByATake(limits, takes[..|takes| - 1], key)
    ensures LeftByATake(limits, takes, key)
  {
    hide After;
    var n := |takes| - 1;
    var before := takes[..n];
    OtherKeysDoNotMatter(limits, before, takes[n], key);
    assert before + [takes[n]] == takes;
    if key in After(limits, before) {
      var k :| 0 <= k < n && before[k].key == key && After(limits, before)[key].lastRefill == before[k].now;
      assert takes[k].key == key;
    }
  }

  lemma SteadyTake(limits: Limits, takes: seq<Take>, key: string)
    requires limits.burst >= 1 && limits.ratePerMinute > 0
    requires SteadyPace(limits, takes, key) && FreshAtOnce(takes, key)
    requires takes != [] && takes[|takes| - 1].key == key && LeftByATake(limits, takes[..|takes| - 1], key)
    ensures LeftByATake(limits, takes, key) && AnswerAt(limits, takes, |takes| - 1) == Allowed
  {
    hide Available, TokenTime, After, AnswerAt;
    var n := |takes| - 1;
    var before := takes[..n];
    KnownExactly(limits, before, key);
    if key in After(limits, before) {
      var k :| 0 <= k < n && before[k].key == key && After(limits, before)[key].lastRefill == before[k].now;
      assert takes[k].key == key && takes[n].key == key;
    } else {
      assert IsFirst(takes, n);
    }
    TokenIsBack(limits, After(limits, before), key, takes[n].now, takes[n].firstRead);
    FoundToken(limits, takes);
  }

  // ---- Retry-After ----

  /** A run of other keys' takes leaves a key's bucket alone. */
  lemma {:induction false} OthersDoNotMatter(limits: Limits, takes: seq<Take>, others: seq<Take>, key: string)
    requires forall i :: 0 <= i < |others| ==> others[i].key != key
    ensures var before, after := After(limits, takes), After(limits, takes + others);
            && (key in after <==> key in before)
            && (key in before ==> after[key] == before[key])
  {
    if others == [] {
      assert takes + others == takes;
    } else {
      var m := |others| - 1;
      OthersDoNotMatter(limits, takes, others[..m], key);
      OtherKeysDoNotMatter(limits, takes + others[..m], others[m], key);
      assert takes + others[..m] + [others[m]] == takes + others;
    }
  }

  /** The header is the least whole number of seconds above the time to wait. */
  lemma HeaderIsLeast(retryAfter: real, seconds: int)
    ensures seconds as real > retryAfter <==> seconds >= RetryAfterSeconds(retryAfter)
  {
  }

  /** The value of the `Retry-After` header. */
  function RetryAfterSeconds(retryAfter: real): int {
    retryAfter.Floor + 1
  }

  /** A refused caller that comes back with no other take on its key is allowed
      exactly when it has waited the time it was told and the burst lets anyone
      through at all: with a burst below one the told time is wrong, however
      long. So it is with a negative rate. */
  lemma RetryIsExact(limits: Limits, takes: seq<Take>, refused: Take, others: seq<Take>, again: Take)
    requires again.key == refused.key && forall i :: 0 <= i < |others| ==> others[i].key != refused.key
    requires AnswerAt(limits, takes + [refused], |takes|).Refused?
    ensures var retry := AnswerAt(limits, takes + [refused], |takes|).retryAfter;
            var wait := again.now - refused.now;
            var answer := AnswerAt(limits, takes + [refused] + others + [again], |takes| + 1 + |others|);
            && (limits.ratePerMinute > 0 ==> (answer == Allowed <==> limits.burst >= 1 && wait >= retry))
            && (limits.ratePerMinute < 0 && wait >= 0.0 ==> answer != Allowed)
  {
    hide Inflow;
    var first := takes + [refused];
    assert first[..|takes|] == takes;
    var available := Available(limits, After(limits, takes), refused.key, refused.now, refused.firstRead);
    OthersDoNotMatter(limits, first, others, refused.key);
    assert (first + others + [again])[..|takes| + 1 + |others|] == first + others;
    assert After(limits, first)[refused.key] == Level(available, refused.now);
    var wait := again.now - refused.now;
    if limits.ratePerMinute > 0 {
      RetryMeans(limits, 1.0 - available, wait);
    } else if limits.ratePerMinute < 0 && wait >= 0.0 {
      Outflow(limits, wait);
    }
  }

  lemma Outflow(limits: Limits, elapsed: real)
    requires limits.ratePerMinute < 0 && elapsed >= 0.0
    ensures Inflow(limits, elapsed) <= 0.0
  {
  }

  lemma RetryMeans(limits: Limits, deficit: real, wait: real)
    requires limits.ratePerMinute > 0
    ensures limits.Rate() > 0.0
    ensures wait >= deficit / limits.Rate() <==> Inflow(limits, wait) >= deficit
  {
    QuotientBound(deficit, limits.Rate(), wait);
  }

  lemma QuotientBound(deficit: real, rate: real, wait: real)
    requires rate > 0.0
    ensures wait >= deficit / rate <==> wait * rate >= deficit
  {
    assert deficit / rate * rate == deficit;
    if wait >= deficit / rate {
      assert (wait - deficit / rate) * rate >= 0.0;
    } else {
      assert (deficit / rate - wait) * rate > 0.0;
    }
  }

  /** So a caller that waits the whole seconds of the header is allowed, unless
      the burst is below one. */
  lemma RetryAfterIsEnough(limits: Limits, takes: seq<Take>, refused: Take, others: seq<Take>, again: Take)
    requires limits.ratePerMinute > 0
    requires again.key == refused.key && forall i :: 0 <= i < |others| ==> others[i].key != refused.key
    requires AnswerAt(limits, takes + [refused], |takes|).Refused?
    requires again.now - refused.now
             >= RetryAfterSeconds(AnswerAt(limits, takes + [refused], |takes|).retryAfter) as real
    ensures AnswerAt(limits, takes + [refused] + others + [again], |takes| + 1 + |others|) == Allowed
            <==> limits.burst >= 1
  {
    RetryIsExact(limits, takes, refused, others, again);
  }
}
