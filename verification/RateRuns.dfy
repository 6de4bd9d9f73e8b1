/** What the shared limiters promise over whole runs of tunnels that fetch them and wait. */
module RateRuns {
  import opened RateLimit

  datatype Step =
    | Get(user: string, speedLimit: int, r: DynamicRateLimiter?)
    | Wait(d: DynamicRateLimiter?, n: int, now: real)

  ghost predicate Next(w: World, s: Step, t: World) {
    match s
    case Get(user, speedLimit, r) => GetStep(w, user, speedLimit, r, t)
    case Wait(d, n, now) => WaitStep(w, d, n, now, t)
  }

  ghost predicate IsRun(worlds: seq<World>, steps: seq<Step>) {
    && |worlds| == |steps| + 1
    && WellFormed(worlds[0])
    && forall i | 0 <= i < |steps| :: Next(worlds[i], steps[i], worlds[i + 1])
  }

  lemma {:induction false} RunKeepsWellFormed(worlds: seq<World>, steps: seq<Step>, i: nat)
    requires IsRun(worlds, steps) && i < |worlds|
    ensures WellFormed(worlds[i])
  {
    hide WellFormed, GetStep, WaitStep;
    if i > 0 {
      RunKeepsWellFormed(worlds, steps, i - 1);
      var w, t := worlds[i - 1], worlds[i];
      assert Next(w, steps[i - 1], t);
      match steps[i - 1]
      case Get(user, speedLimit, r) => GetKeepsWellFormed(w, user, speedLimit, r, t);
      case Wait(d, n, now) => WaitKeepsWellFormed(w, d, n, now, t);
    }
  }

  /** A tunnel gets a limiter exactly when it has a user whose limit is positive and converts to a rate;
      below the overflow bound every positive limit does. */
  lemma FetchLimits(w: World, user: string, limit: int, r: DynamicRateLimiter?, t: World)
    requires GetStep(w, user, limit, r, t)
    ensures r != null <==> user != "" && limit > 0 && BytesPerSec(limit) > 0
    ensures limit <= MAX_SPEED_LIMIT ==> (r != null <==> user != "" && limit > 0)
    ensures user == "" ==> t == w
  {
    if 0 < limit <= MAX_SPEED_LIMIT {
      ConversionExactBelowOverflow(limit);
    }
    hide BytesPerSec;
  }

  // ---------- bytes in a span of time ----------

  /** The bytes let through at times from `from` to `until`. */
  function Within(log: seq<Grant>, from: real, until: real): nat {
    if log == [] then 0
    else
      var last := log[|log| - 1];
      Within(log[..|log| - 1], from, until) + if from <= last.at <= until then last.n else 0
  }

  ghost predicate Sorted(log: seq<Grant>) {
    forall i, j | 0 <= i < j < |log| :: log[i].at <= log[j].at
  }

  lemma WithinStep(log: seq<Grant>, n: nat, from: real, until: real)
    requires 0 < n <= |log|
    ensures Within(log[..n], from, until)
            == Within(log[..n - 1], from, until) + if from <= log[n - 1].at <= until then log[n - 1].n else 0
  {
    assert log[..n][..n - 1] == log[..n - 1];
  }

  lemma EmptyWindow(log: seq<Grant>, i: nat)
    requires i <= |log|
    ensures Total(log[i..i]) == 0
  {
    assert log[i..i] == [];
  }

  /** The grants of a span of time lie next to each other. */
  lemma {:induction false} WithinIsWindow(log: seq<Grant>, n: nat, from: real, until: real) returns (i: nat, j: nat)
    requires Sorted(log) && from <= until && n <= |log|
    ensures i <= j <= n && Within(log[..n], from, until) == Total(log[i..j])
    ensures forall k | 0 <= k < i :: log[k].at < from
    ensures forall k | i <= k < j :: from <= log[k].at <= until
    ensures forall k | j <= k < n :: until < log[k].at
  {
    i, j := 0, 0;
    if n == 0 {
      EmptyWindow(log, 0);
    } else {
      WithinStep(log, n, from, until);
      var last := log[n - 1].at;
      assert forall k | 0 <= k < n :: log[k].at <= last;
      hide Total, Within, Sorted;
      i, j := WithinIsWindow(log, n - 1, from, until);
      if last < from {
        EmptyWindow(log, i);
        EmptyWindow(log, n);
        i, j := n, n;
      } else if last <= until {
        EmptyWindow(log, i);
        TotalOfWindow(log, i, n);
        j := n;
      }
    }
  }

  /** At most `rate` bytes a second and one burst in every span of time. */
  ghost predicate KeepsTo(log: seq<Grant>, rate: nat) {
    forall from: real, until: real | from <= until ::
      Within(log, from, until) as real <= rate as real * (until - from) + rate as real
  }

  lemma ConformingKeepsTo(log: seq<Grant>, rate: nat)
    requires Conforms(log, rate as real, rate as real)
    ensures KeepsTo(log, rate)
  {
    hide Within;
    forall from: real, until: real | from <= until
      ensures Within(log, from, until) as real <= rate as real * (until - from) + rate as real
    {
      SpanBound(log, rate as real, from, until);
    }
  }

  lemma SpanBound(log: seq<Grant>, rate: real, from: real, until: real)
    requires Conforms(log, rate, rate) && rate >= 0.0 && from <= until
    ensures Within(log, from, until) as real <= rate * (until - from) + rate
  {
    hide Within, LevelAfter, Total;
    assert log[..|log|] == log;
    var i, j := WithinIsWindow(log, |log|, from, until);
    var bytes := Total(log[i..j]) as real;
    var span := if i < j then log[j - 1].at - log[i].at else 0.0;
    if i < j {
      RateBound(log, rate, rate, i, j);
    } else {
      EmptyWindow(log, i);
    }
    assert bytes <= rate * span + rate;
    Widen(rate, span, until - from);
  }

  lemma Widen(rate: real, a: real, b: real)
    requires rate >= 0.0 && a <= b
    ensures rate * a <= rate * b && (a == 0.0 ==> rate * b >= 0.0)
  {
  }

  // ---------- a constant limit ----------

  /** The bytes that tunnels waited for through `d`. */
  function Waited(steps: seq<Step>, d: DynamicRateLimiter): nat {
    if steps == [] then 0
    else
      var last := steps[|steps| - 1];
      Waited(steps[..|steps| - 1], d) + if last.Wait? && last.d == d && last.n > 0 then last.n else 0
  }

  lemma {:induction false} TotalConcat(a: seq<Grant>, b: seq<Grant>)
    ensures Total(a + b) == Total(a) + Total(b)
  {
    if b == [] {
      assert a + b == a;
    } else {
      var all := a + b;
      assert all[..|all| - 1] == a + b[..|b| - 1];
      TotalConcat(a, b[..|b| - 1]);
    }
  }

  /** The user's limiter is `d`, and `b` is its bucket, at the rate of `limit`. */
  ghost predicate Holds(w: World, user: string, limit: int, d: DynamicRateLimiter, b: Bucket) {
    && user in w.limiters && w.limiters[user] == d
    && d in w.cells && w.cells[d].bucket == b && w.cells[d].bytesPerSec == b.rate == BytesPerSec(limit)
    && b in w.logs
  }

  lemma StepKeepsHolds(w: World, s: Step, t: World, user: string, limit: int, d: DynamicRateLimiter, b: Bucket)
    requires WellFormed(w) && Next(w, s, t) && Holds(w, user, limit, d, b) && user != "" && Limits(limit)
    requires s.Get? && s.user == user ==> s.speedLimit == limit
    ensures Holds(t, user, limit, d, b)
    ensures s.Get? && s.user == user ==> s.r == d
    ensures w.logs[b] <= t.logs[b]
    ensures Total(t.logs[b]) == Total(w.logs[b]) + Waited([s], d)
  {
    hide Conforms, BytesPerSec;
    assert [s][..0] == [];
    if s.Wait? && s.d == d && s.n > 0 {
      var granted := t.logs[b][|w.logs[b]|..];
      assert t.logs[b] == w.logs[b] + granted;
      TotalConcat(w.logs[b], granted);
    }
  }

  lemma GetHolds(w: World, user: string, limit: int, d: DynamicRateLimiter, t: World)
    requires WellFormed(w) && GetStep(w, user, limit, d, t) && user != "" && Limits(limit)
    ensures t.limiters[user] == d && t.cells[d].bucket != null && Holds(t, user, limit, d, t.cells[d].bucket)
  {
    hide Conforms, BytesPerSec;
  }

  lemma {:induction false} WaitedAppend(steps: seq<Step>, k: nat, d: DynamicRateLimiter)
    requires k < |steps|
    ensures Waited(steps[..k + 1], d) == Waited(steps[..k], d) + Waited([steps[k]], d)
  {
    assert steps[..k + 1][..k] == steps[..k];
    assert [steps[k]][..0] == [];
  }

  /** From a fetch on, as long as the user's limit stays the same, every fetch of the user gets the same
      limiter with the same bucket, whatever other users fetch and wait for; and every byte waited for
      through it, by any tunnel, is in that bucket's log, and no other byte. */
  lemma {:induction false} ConstantLimitSharesOneLog(worlds: seq<World>, steps: seq<Step>, user: string, limit: int,
                                                     d: DynamicRateLimiter, i: nat)
    requires IsRun(worlds, steps) && 0 < i < |worlds| && user != "" && Limits(limit)
    requires steps[0] == Get(user, limit, d)
    requires forall k | 0 <= k < i && steps[k].Get? && steps[k].user == user :: steps[k].speedLimit == limit
    ensures d in worlds[1].cells && worlds[1].cells[d].bucket != null
    ensures var b := worlds[1].cells[d].bucket;
      && Holds(worlds[1], user, limit, d, b) && Holds(worlds[i], user, limit, d, b)
      && worlds[1].logs[b] <= worlds[i].logs[b]
      && Total(worlds[i].logs[b]) == Total(worlds[1].logs[b]) + Waited(steps[..i], d)
    ensures forall k | 0 <= k < i && steps[k].Get? && steps[k].user == user :: steps[k].r == d
  {
    assert Next(worlds[0], steps[0], worlds[1]);
    RunKeepsWellFormed(worlds, steps, i - 1);
    GetHolds(worlds[0], user, limit, d, worlds[1]);
    if i == 1 {
      assert steps[..1][..0] == [];
    } else {
      hide Limits, WellFormed, Holds, Waited, Total;
      var b := worlds[1].cells[d].bucket;
      ConstantLimitSharesOneLog(worlds, steps, user, limit, d, i - 1);
      assert Next(worlds[i - 1], steps[i - 1], worlds[i]);
      StepKeepsHolds(worlds[i - 1], steps[i - 1], worlds[i], user, limit, d, b);
      WaitedAppend(steps, i - 1, d);
    }
  }

  /** So all tunnels that hold the user's limiter together get, in any span of time, at most the rate
      times the span and one burst. */
  lemma UserRateBound(worlds: seq<World>, steps: seq<Step>, user: string, limit: int, d: DynamicRateLimiter, i: nat)
    requires IsRun(worlds, steps) && 0 < i < |worlds| && user != "" && Limits(limit)
    requires steps[0] == Get(user, limit, d)
    requires forall k | 0 <= k < i && steps[k].Get? && steps[k].user == user :: steps[k].speedLimit == limit
    ensures user in worlds[i].limiters && worlds[i].limiters[user] == d && d in worlds[i].cells
    ensures var b := worlds[i].cells[d].bucket;
      && b in worlds[i].logs && b.rate == BytesPerSec(limit)
      && Waited(steps[..i], d) <= Total(worlds[i].logs[b])
      && KeepsTo(worlds[i].logs[b], b.rate)
  {
    hide BytesPerSec, Conforms, KeepsTo, Total, Waited, Limits;
    RunKeepsWellFormed(worlds, steps, i);
    ConstantLimitSharesOneLog(worlds, steps, user, limit, d, i);
    var b := worlds[1].cells[d].bucket;
    ConformingKeepsTo(worlds[i].logs[b], b.rate);
  }

  // ---------- a changing limit ----------

  predicate IsFetch(s: Step, user: string) {
    s.Get? && s.user == user
  }

  /** The limit of the user's last fetch. */
  function LastLimit(steps: seq<Step>, user: string): int {
    if steps == [] then 0
    else if IsFetch(steps[|steps| - 1], user) then steps[|steps| - 1].speedLimit
    else LastLimit(steps[..|steps| - 1], user)
  }

  /** A fetch after the first step has lifted the limit while the limiter was still the user's: it was
      the first one that does not limit. An overflowing limit counts as none, but does not free. */
  predicate Lifted(steps: seq<Step>, user: string) {
    |steps| > 1
    && (Lifted(steps[..|steps| - 1], user)
        || (AllLimit(steps[..|steps| - 1], user)
            && IsFetch(steps[|steps| - 1], user) && steps[|steps| - 1].speedLimit <= 0))
  }

  predicate AllLimit(steps: seq<Step>, user: string) {
    forall k | 0 < k < |steps| && IsFetch(steps[k], user) :: Limits(steps[k].speedLimit)
  }

  /** Where the limiter `d`, once the user's, stands: whether it still is, the limit it then runs at,
      and whether it is free. */
  ghost predicate Stands(w: World, user: string, d: DynamicRateLimiter, held: bool, limit: int, free: bool) {
    && d in w.cells
    && (user in w.limiters && w.limiters[user] == d <==> held)
    && (forall u | u in w.limiters && u != user :: w.limiters[u] != d)
    && (held ==> w.cells[d].bytesPerSec == BytesPerSec(limit))
    && (w.cells[d].bucket == null <==> free)
  }

  lemma StepMoves(w: World, s: Step, t: World, user: string, d: DynamicRateLimiter, held: bool, limit: int, free: bool)
    requires WellFormed(w) && Next(w, s, t) && user != "" && Stands(w, user, d, held, limit, free)
    ensures
      var fetch := IsFetch(s, user);
      Stands(t, user, d, held && (fetch ==> Limits(s.speedLimit)), if fetch then s.speedLimit else limit,
             free || (held && fetch && s.speedLimit <= 0))
  {
    hide Conforms, BytesPerSec;
    assert held ==> !free;
  }

  lemma FetchMoves(w: World, s: Step, t: World, user: string, d: DynamicRateLimiter)
    requires WellFormed(w) && Next(w, s, t) && user != "" && IsFetch(s, user) && s.r == d
    ensures Stands(t, user, d, true, s.speedLimit, false)
  {
    hide Conforms, BytesPerSec;
    if user in w.limiters {
      assert forall u | u in w.limiters && u != user :: w.limiters[u] != d;
    }
  }

  /** A tunnel's limiter stays its user's limiter exactly as long as every later fetch of the user
      limits, and then it runs at the limit of the last fetch, however often that changed. It is free
      exactly when the fetch that ended this lifted the limit. */
  lemma {:induction false} HeldIffNeverLifted(worlds: seq<World>, steps: seq<Step>, user: string,
                                              d: DynamicRateLimiter, i: nat)
    requires IsRun(worlds, steps) && 0 < i < |worlds| && user != ""
    requires IsFetch(steps[0], user) && steps[0].r == d
    ensures d in worlds[i].cells
    ensures (user in worlds[i].limiters && worlds[i].limiters[user] == d)
       <==> (forall k | 0 < k < i && IsFetch(steps[k], user) :: Limits(steps[k].speedLimit))
    ensures user in worlds[i].limiters && worlds[i].limiters[user] == d ==>
      && worlds[i].cells[d].bucket != null
      && worlds[i].cells[d].bytesPerSec == BytesPerSec(LastLimit(steps[..i], user))
    ensures worlds[i].cells[d].bucket == null <==> Lifted(steps[..i], user)
  {
    hide Conforms, BytesPerSec;
    RunStands(worlds, steps, user, d, i);
    RunKeepsWellFormed(worlds, steps, i);
    assert AllLimit(steps[..i], user)
      <==> forall k | 0 < k < i && IsFetch(steps[k], user) :: Limits(steps[k].speedLimit);
  }

  lemma {:induction false} RunStands(worlds: seq<World>, steps: seq<Step>, user: string, d: DynamicRateLimiter, i: nat)
    requires IsRun(worlds, steps) && 0 < i < |worlds| && user != ""
    requires IsFetch(steps[0], user) && steps[0].r == d
    ensures var past := steps[..i];
      Stands(worlds[i], user, d, AllLimit(past, user), LastLimit(past, user), Lifted(past, user))
  {
    hide WellFormed, GetStep, WaitStep, Stands, Limits;
    RunKeepsWellFormed(worlds, steps, i - 1);
    var before, s := steps[..i - 1], steps[i - 1];
    assert Next(worlds[i - 1], s, worlds[i]);
    assert steps[..i][..i - 1] == before;
    if i == 1 {
      FetchMoves(worlds[0], s, worlds[1], user, d);
    } else {
      RunStands(worlds, steps, user, d, i - 1);
      StepMoves(worlds[i - 1], s, worlds[i], user, d,
                AllLimit(before, user), LastLimit(before, user), Lifted(before, user));
      assert AllLimit(steps[..i], user) <==> AllLimit(before, user) && (IsFetch(s, user) ==> Limits(s.speedLimit));
    }
  }

  /** Lifting the limit frees the tunnels that hold the limiter, for good: their limiter never has a
      bucket again, so that even when the user gets a limit again, waits through it are not waits. */
  lemma {:induction false} LiftedLimiterStaysFree(worlds: seq<World>, steps: seq<Step>, user: string, limit: int,
                                                  d: DynamicRateLimiter, i: nat)
    requires IsRun(worlds, steps) && 0 < i < |worlds|
    requires user in worlds[0].limiters && worlds[0].limiters[user] == d
    requires steps[0] == Get(user, limit, null) && limit <= 0 && user != ""
    ensures d in worlds[i].cells && worlds[i].cells[d].bucket == null
    ensures forall u | u in worlds[i].limiters :: worlds[i].limiters[u] != d
    ensures i < |steps| && steps[i].Wait? && steps[i].d == d ==> worlds[i + 1] == worlds[i]
    ensures i < |steps| && steps[i].Get? ==> steps[i].r != d
  {
    hide Conforms, BytesPerSec;
    assert Next(worlds[i - 1], steps[i - 1], worlds[i]);
    RunKeepsWellFormed(worlds, steps, i - 1);
    RunKeepsWellFormed(worlds, steps, i);
    if i > 1 {
      LiftedLimiterStaysFree(worlds, steps, user, limit, d, i - 1);
    }
    assert i < |steps| ==> Next(worlds[i], steps[i], worlds[i + 1]);
  }

  const NOBODY := World(map[], map[], map[])

  lemma LiftAndRestore(w1: World, w2: World, w3: World, first: DynamicRateLimiter?, second: DynamicRateLimiter?)
    requires GetStep(NOBODY, "u", 8, first, w1) && GetStep(w1, "u", 0, null, w2) && GetStep(w2, "u", 8, second, w3)
    ensures first != null && second != null && first != second
    ensures first in w3.cells && w3.cells[first] == Cell(null, 0)
    ensures w3.limiters == map["u" := second] && second in w3.cells && w3.cells[second].bucket != null
  {
  }

  /** With the actual registry, empty at first: the limit is lifted and given back, and the limiter
      fetched first stays free next to the one that limits now. */
  method FreedForGood() returns (first: DynamicRateLimiter?, second: DynamicRateLimiter?,
                                 ghost worlds: seq<World>, ghost steps: seq<Step>)
    ensures IsRun(worlds, steps) && worlds[0] == NOBODY
    ensures steps == [Get("u", 8, first), Get("u", 0, null), Get("u", 8, second)]
    ensures first != null && second != null && first != second
    ensures first in worlds[3].cells && worlds[3].cells[first] == Cell(null, 0)
    ensures worlds[3].limiters == map["u" := second]
    ensures second in worlds[3].cells && worlds[3].cells[second].bucket != null
  {
    hide WellFormed, GetStep;
    var registry := new Registry();
    ghost var w0 := registry.Now();
    first := registry.GetUserRateLimiter("u", 8);
    ghost var w1 := registry.Now();
    var none := registry.GetUserRateLimiter("u", 0);
    ghost var w2 := registry.Now();
    second := registry.GetUserRateLimiter("u", 8);
    ghost var w3 := registry.Now();
    worlds, steps := [w0, w1, w2, w3], [Get("u", 8, first), Get("u", 0, none), Get("u", 8, second)];
    NoneFetched(w1, none, w2);
    LiftAndRestore(w1, w2, w3, first, second);
    assert forall i | 0 <= i < 3 :: Next(worlds[i], steps[i], worlds[i + 1]);
  }

  lemma NoneFetched(w: World, r: DynamicRateLimiter?, t: World)
    requires GetStep(w, "u", 0, r, t)
    ensures r == null
  {
  }
}
