/** The per-user rate limiter of the tunnels, over a token bucket. */
module RateLimit {
  // ---------- the token bucket ----------

  /** `n` bytes let through at time `at`, in seconds. */
  datatype Grant = Grant(at: real, n: nat)

  function MinReal(a: real, b: real): real {
    if a < b then a else b
  }

  /** The tokens of a bucket `time` after it held `level`. */
  function Refilled(burst: real, rate: real, level: real, time: real): real {
    MinReal(burst, level + rate * time)
  }

  /** The tokens just before the last grant takes its own: the bucket starts full, fills at `rate`
      tokens a second and holds at most `burst`. */
  function LevelBefore(grants: seq<Grant>, rate: real, burst: real): real
    requires grants != []
    decreases |grants|, 0
  {
    var init, last := grants[..|grants| - 1], grants[|grants| - 1];
    if init == [] then burst
    else Refilled(burst, rate, LevelAfter(init, rate, burst), last.at - init[|init| - 1].at)
  }

  function LevelAfter(grants: seq<Grant>, rate: real, burst: real): real
    requires grants != []
    decreases |grants|, 1
  {
    LevelBefore(grants, rate, burst) - grants[|grants| - 1].n as real
  }

  /** What a token bucket may let through: times do not run back and no grant overdraws it. */
  ghost predicate Conforms(grants: seq<Grant>, rate: real, burst: real) {
    && (forall i, j | 0 <= i < j < |grants| :: grants[i].at <= grants[j].at)
    && (forall k | 0 < k <= |grants| :: LevelAfter(grants[..k], rate, burst) >= 0.0)
  }

  function Total(grants: seq<Grant>): nat {
    if grants == [] then 0 else Total(grants[..|grants| - 1]) + grants[|grants| - 1].n
  }

  lemma LastGrantSpends(grants: seq<Grant>, rate: real, burst: real, j: nat)
    requires 0 < j <= |grants|
    ensures LevelAfter(grants[..j], rate, burst) <= burst - grants[j - 1].n as real
    ensures j > 1 ==>
      LevelAfter(grants[..j], rate, burst)
      <= LevelAfter(grants[..j - 1], rate, burst) + rate * (grants[j - 1].at - grants[j - 2].at)
         - grants[j - 1].n as real
  {
    assert grants[..j][..j - 1] == grants[..j - 1];
  }

  lemma {:induction false} WindowSpends(grants: seq<Grant>, rate: real, burst: real, i: nat, j: nat)
    requires i < j <= |grants|
    ensures LevelAfter(grants[..j], rate, burst)
            <= burst + rate * (grants[j - 1].at - grants[i].at) - Total(grants[i..j]) as real
    decreases j
  {
    hide LevelAfter, Total;
    LastGrantSpends(grants, rate, burst, j);
    TotalOfWindow(grants, i, j);
    if j > i + 1 {
      WindowSpends(grants, rate, burst, i, j - 1);
      Distribute(rate, grants[j - 1].at, grants[j - 2].at, grants[i].at);
    }
  }

  lemma TotalOfWindow(grants: seq<Grant>, i: nat, j: nat)
    requires i < j <= |grants|
    ensures Total(grants[i..j]) == (if j == i + 1 then 0 else Total(grants[i..j - 1])) + grants[j - 1].n
  {
    assert grants[i..j][..j - i - 1] == grants[i..j - 1];
  }

  lemma Distribute(rate: real, a: real, b: real, c: real)
    ensures rate * (a - b) + rate * (b - c) == rate * (a - c)
  {
  }

  /** Between any two grants, at most `rate` bytes a second and one burst get through. */
  lemma RateBound(grants: seq<Grant>, rate: real, burst: real, i: nat, j: nat)
    requires Conforms(grants, rate, burst) && rate >= 0.0 && i < j <= |grants|
    ensures Total(grants[i..j]) as real <= rate * (grants[j - 1].at - grants[i].at) + burst
  {
    WindowSpends(grants, rate, burst, i, j);
  }

  // ---------- splitting a wait ----------

  /** Appending a grant that the bucket can cover keeps the bucket's promise. */
  lemma ConformsAppend(grants: seq<Grant>, g: Grant, rate: real, burst: real)
    requires Conforms(grants, rate, burst)
    requires grants != [] ==> grants[|grants| - 1].at <= g.at
    requires LevelBefore(grants + [g], rate, burst) >= g.n as real
    ensures Conforms(grants + [g], rate, burst)
  {
    var more := grants + [g];
    forall k | 0 < k <= |more| ensures LevelAfter(more[..k], rate, burst) >= 0.0 {
      if k <= |grants| {
        assert more[..k] == grants[..k];
      } else {
        assert more[..k] == more;
      }
    }
  }

  /** The earliest time, not before `now`, at which the bucket holds `n` tokens. */
  function EarliestGrant(log: seq<Grant>, rate: real, burst: real, n: nat, now: real): real
    requires rate > 0.0
  {
    if log == [] then now
    else
      var last := log[|log| - 1].at;
      var from := if now < last then last else now;
      var level := Refilled(burst, rate, LevelAfter(log, rate, burst), from - last);
      if level >= n as real then from else from + (n as real - level) / rate
  }

  lemma EarliestGrantIsCovered(log: seq<Grant>, rate: real, burst: real, n: nat, now: real)
    requires rate > 0.0 && n as real <= burst
    ensures var at := EarliestGrant(log, rate, burst, n, now);
      && now <= at
      && (log != [] ==> log[|log| - 1].at <= at)
      && LevelBefore(log + [Grant(at, n)], rate, burst) >= n as real
  {
    hide Refilled, LevelAfter;
    var at := EarliestGrant(log, rate, burst, n, now);
    var more := log + [Grant(at, n)];
    assert more[..|more| - 1] == log;
    if log != [] {
      var last := log[|log| - 1].at;
      var from := if now < last then last else now;
      RefilledInTime(burst, rate, LevelAfter(log, rate, burst), from - last, n as real);
      assert from + (n as real - Refilled(burst, rate, LevelAfter(log, rate, burst), from - last)) / rate - last
          == from - last + (n as real - Refilled(burst, rate, LevelAfter(log, rate, burst), from - last)) / rate;
    }
  }

  /** Waiting for the missing tokens brings them. */
  lemma RefilledInTime(burst: real, rate: real, level: real, time: real, n: real)
    requires rate > 0.0 && n <= burst
    ensures var missing := n - Refilled(burst, rate, level, time);
      missing > 0.0 ==> missing / rate > 0.0 && Refilled(burst, rate, level, time + missing / rate) >= n
  {
    var missing := n - Refilled(burst, rate, level, time);
    if missing > 0.0 {
      Distribute(rate, time + missing / rate, time, 0.0);
      assert rate * (missing / rate) == missing;
    }
  }

  /** Waiting for less brings fewer. */
  lemma RefilledTooEarly(burst: real, rate: real, level: real, time: real, earlier: real, n: real)
    requires rate > 0.0
    requires var missing := n - Refilled(burst, rate, level, time); missing > 0.0 && earlier - time < missing / rate
    ensures Refilled(burst, rate, level, earlier) < n
  {
    GainBelow(rate, earlier - time, n - Refilled(burst, rate, level, time));
    Distribute(rate, earlier, time, 0.0);
  }

  /** No earlier time would do: before it, and not before `now` or the last grant, tokens are missing. */
  lemma NoEarlierGrant(log: seq<Grant>, rate: real, burst: real, n: nat, now: real, at: real)
    requires rate > 0.0 && now <= at < EarliestGrant(log, rate, burst, n, now)
    requires log != [] ==> log[|log| - 1].at <= at
    ensures LevelBefore(log + [Grant(at, n)], rate, burst) < n as real
  {
    hide Refilled, LevelAfter;
    var last := log[|log| - 1].at;
    var from := if now < last then last else now;
    var more := log + [Grant(at, n)];
    assert more[..|more| - 1] == log;
    RefilledTooEarly(burst, rate, LevelAfter(log, rate, burst), from - last, at - last, n as real);
  }

  lemma GainBelow(rate: real, time: real, short: real)
    requires rate > 0.0 && time < short / rate
    ensures rate * time < short
  {
    var left := short / rate - time;
    assert rate * left > 0.0;
    assert rate * (time + left) == rate * time + rate * left;
    assert rate * (short / rate) == short;
  }

  /** A token bucket whose burst is one second of its rate. It refuses a request larger than the
      burst and lets any other through as soon as it holds the tokens. */
  class Bucket {
    const rate: nat
    var log: seq<Grant>

    ghost predicate Valid()
      reads this
    {
      rate > 0 && Conforms(log, rate as real, rate as real)
    }

    constructor (rate: nat)
      requires rate > 0
      ensures Valid() && this.rate == rate && log == []
    {
      this.rate, log := rate, [];
    }

    method WaitN(n: nat, now: real) returns (ok: bool)
      requires Valid()
      modifies this
      ensures Valid()
      ensures ok == (n <= rate)
      ensures !ok ==> log == old(log)
      ensures ok ==> log == old(log) + [Grant(EarliestGrant(old(log), rate as real, rate as real, n, now), n)]
    {
      ok := n <= rate;
      if ok {
        var at := EarliestGrant(log, rate as real, rate as real, n, now);
        EarliestGrantIsCovered(log, rate as real, rate as real, n, now);
        ConformsAppend(log, Grant(at, n), rate as real, rate as real);
        log := log + [Grant(at, n)];
      }
    }
  }

  class DynamicRateLimiter {
    var limiter: Bucket?
    var bytesPerSec: int

    ghost predicate Valid()
      reads this, limiter
    {
      limiter != null ==> limiter.Valid() && bytesPerSec == limiter.rate
    }

    constructor ()
      ensures limiter == null && bytesPerSec == 0
    {
      limiter, bytesPerSec := null, 0;
    }

    /** Splits `n` into requests the bucket never refuses and that add up to `n`, so the wait never
        fails and exactly `n` bytes enter the bucket's log. */
    method WaitN(n: int, now: real) returns (ok: bool)
      requires Valid()
      modifies limiter
      ensures Valid() && ok
      ensures limiter != null && n <= 0 ==> limiter.log == old(limiter.log)
      ensures limiter != null && n > 0 ==> old(limiter.log) <= limiter.log
      ensures limiter != null && n > 0 ==>
        var granted := limiter.log[|old(limiter.log)|..];
        && Total(granted) == n
        && forall k | 0 <= k < |granted| :: 1 <= granted[k].n <= bytesPerSec && granted[k].at >= now
    {
      ok := true;
      if n <= 0 || limiter == null || bytesPerSec <= 0 {
        return;
      }
      var burst, remaining := bytesPerSec, n;
      ghost var granted: seq<Grant> := [];
      while remaining > 0
        invariant 0 <= remaining <= n && Total(granted) == n - remaining && ok
        invariant limiter.Valid() && limiter.log == old(limiter.log) + granted
        invariant forall k | 0 <= k < |granted| :: 1 <= granted[k].n <= bytesPerSec && granted[k].at >= now
      {
        var chunk := if remaining > burst then burst else remaining;
        ok := limiter.WaitN(chunk, now);
        if !ok {
          return;
        }
        ghost var next := limiter.log[|limiter.log| - 1];
        assert (granted + [next])[..|granted|] == granted;
        granted := granted + [next];
        remaining := remaining - chunk;
      }
      assert limiter.log[|old(limiter.log)|..] == granted;
    }
  }

  // ---------- the registry ----------

  /** Two's complement wrap-around of a 64-bit product. */
  function Wrap64(x: int): int {
    var low := x % 0x1_0000_0000_0000_0000;
    if low < 0x8000_0000_0000_0000 then low else low - 0x1_0000_0000_0000_0000
  }

  /** Megabits to bytes per second: the product wraps and the division truncates toward zero. */
  function BytesPerSec(speedLimit: int): int {
    var bits := Wrap64(speedLimit * 1000000);
    if bits >= 0 then bits / 8 else -(-bits / 8)
  }

  const MAX_SPEED_LIMIT: int := 0x7fff_ffff_ffff_ffff / 1000000

  /** The conversion is exact exactly up to the overflow bound; the first limit past it converts to
      a negative rate, which leaves the user without any limiter. */
  lemma ConversionExactBelowOverflow(speedLimit: int)
    requires speedLimit > 0
    ensures BytesPerSec(speedLimit) == speedLimit * 125000 <==> speedLimit <= MAX_SPEED_LIMIT
    ensures BytesPerSec(MAX_SPEED_LIMIT + 1) < 0
  {
    if speedLimit <= MAX_SPEED_LIMIT {
      assert speedLimit * 1000000 == speedLimit * 125000 * 8;
    } else {
      assert Wrap64(speedLimit * 1000000) <= 0x7fff_ffff_ffff_ffff;
      assert BytesPerSec(speedLimit) <= 0x7fff_ffff_ffff_ffff / 8 < (MAX_SPEED_LIMIT + 1) * 125000;
    }
  }

  /** What a limiter holds: its bucket, if any, and the rate it was made for. */
  datatype Cell = Cell(bucket: Bucket?, bytesPerSec: int)

  /** The registry at one moment: who is registered, every limiter ever handed out, registered or
      not, and what every bucket let through. */
  datatype World = World(limiters: map<string, DynamicRateLimiter>, cells: map<DynamicRateLimiter, Cell>,
                         logs: map<Bucket, seq<Grant>>)

  /** Registered limiters are different and have buckets, no two limiters share a bucket, each bucket
      runs at its limiter's rate and keeps to it. */
  ghost predicate WellFormed(w: World) {
    && (forall u | u in w.limiters :: w.limiters[u] in w.cells && w.cells[w.limiters[u]].bucket != null)
    && (forall u, v | u in w.limiters && v in w.limiters && u != v :: w.limiters[u] != w.limiters[v])
    && (forall d | d in w.cells && w.cells[d].bucket != null ::
          w.cells[d].bucket in w.logs && w.cells[d].bytesPerSec == w.cells[d].bucket.rate)
    && (forall d, e | d in w.cells && e in w.cells && d != e && w.cells[d].bucket != null ::
          w.cells[d].bucket != w.cells[e].bucket)
    && (forall b | b in w.logs :: b.rate > 0 && Conforms(w.logs[b], b.rate as real, b.rate as real))
  }

  /** The limit is one that tunnels are held to. */
  predicate Limits(speedLimit: int) {
    speedLimit > 0 && BytesPerSec(speedLimit) > 0
  }

  /** A tunnel of `user` asks for its limiter. A registered limiter of the right rate is handed out
      as it is; one of another rate gets an empty bucket, and so does a new one. Lifting the limit
      frees the tunnels that hold the limiter; a limit that overflows only takes it off the registry. */
  ghost predicate GetStep(w: World, user: string, speedLimit: int, r: DynamicRateLimiter?, t: World) {
    if user == "" then r == null && t == w
    else if !Limits(speedLimit) then
      && r == null
      && t == w.(limiters := w.limiters - {user},
                 cells := if speedLimit <= 0 && user in w.limiters then w.cells[w.limiters[user] := Cell(null, 0)]
                          else w.cells)
    else
      && r != null
      && (if user in w.limiters then r == w.limiters[user] else r !in w.cells)
      && if r in w.cells && w.cells[r].bytesPerSec == BytesPerSec(speedLimit) then t == w
         else
           && r in t.cells && t.cells[r].bucket != null
           && t.cells[r].bucket !in w.logs && t.cells[r].bucket.rate == BytesPerSec(speedLimit)
           && t == World(w.limiters[user := r],
                         w.cells[r := Cell(t.cells[r].bucket, BytesPerSec(speedLimit))],
                         w.logs[t.cells[r].bucket := []])
  }

  /** A tunnel waits for `n` bytes. Without a limiter, or with one that lost its bucket, it does not
      wait at all; otherwise exactly `n` bytes enter the bucket's log, in parts it never refuses. */
  ghost predicate WaitStep(w: World, d: DynamicRateLimiter?, n: int, now: real, t: World) {
    if n <= 0 || d == null || d !in w.cells || w.cells[d].bucket == null || w.cells[d].bucket !in w.logs then t == w
    else
      var b := w.cells[d].bucket;
      && b in t.logs && t == w.(logs := w.logs[b := t.logs[b]])
      && w.logs[b] <= t.logs[b] && Conforms(t.logs[b], b.rate as real, b.rate as real)
      && var granted := t.logs[b][|w.logs[b]|..];
         && Total(granted) == n
         && forall k | 0 <= k < |granted| :: 1 <= granted[k].n <= b.rate && granted[k].at >= now
  }

  lemma LiftKeepsWellFormed(w: World, user: string, speedLimit: int, t: World)
    requires WellFormed(w) && !Limits(speedLimit) && GetStep(w, user, speedLimit, null, t)
    ensures WellFormed(t)
  {
    hide Conforms, BytesPerSec;
  }

  lemma FillKeepsWellFormed(w: World, user: string, d: DynamicRateLimiter, b: Bucket)
    requires WellFormed(w) && b.rate > 0 && b !in w.logs
    requires if user in w.limiters then d == w.limiters[user] else d !in w.cells
    ensures WellFormed(World(w.limiters[user := d], w.cells[d := Cell(b, b.rate)], w.logs[b := []]))
  {
    assert Conforms([], b.rate as real, b.rate as real);
    hide Conforms;
  }

  /** The world with a limiter of the user's on the registry, a new one if there was none. */
  function Stored(w: World, user: string, d: DynamicRateLimiter): World {
    if user in w.limiters then w else World(w.limiters[user := d], w.cells[d := Cell(null, 0)], w.logs)
  }

  lemma FillIsGetStep(w: World, user: string, speedLimit: int, d: DynamicRateLimiter, b: Bucket)
    requires WellFormed(w) && user != "" && Limits(speedLimit)
    requires if user in w.limiters then d == w.limiters[user] && w.cells[d].bytesPerSec != b.rate else d !in w.cells
    requires b !in w.logs && b.rate == BytesPerSec(speedLimit)
    ensures var s := Stored(w, user, d);
      GetStep(w, user, speedLimit, d, World(s.limiters, s.cells[d := Cell(b, b.rate)], s.logs[b := []]))
  {
    hide WellFormed, BytesPerSec;
    var s := Stored(w, user, d);
    assert s.limiters == w.limiters[user := d];
    assert s.cells[d := Cell(b, b.rate)] == w.cells[d := Cell(b, b.rate)];
  }

  lemma KeepIsGetStep(w: World, user: string, speedLimit: int, d: DynamicRateLimiter)
    requires WellFormed(w) && user != "" && Limits(speedLimit)
    requires user in w.limiters && d == w.limiters[user] && w.cells[d].bytesPerSec == BytesPerSec(speedLimit)
    ensures GetStep(w, user, speedLimit, d, w)
  {
    assert d in w.cells;
    hide WellFormed, BytesPerSec;
  }

  lemma GetKeepsWellFormed(w: World, user: string, speedLimit: int, r: DynamicRateLimiter?, t: World)
    requires WellFormed(w) && GetStep(w, user, speedLimit, r, t)
    ensures WellFormed(t)
  {
    hide WellFormed, BytesPerSec;
    if user != "" && !Limits(speedLimit) {
      LiftKeepsWellFormed(w, user, speedLimit, t);
    } else if t != w {
      FillKeepsWellFormed(w, user, r, t.cells[r].bucket);
    }
  }

  lemma WaitKeepsWellFormed(w: World, d: DynamicRateLimiter?, n: int, now: real, t: World)
    requires WellFormed(w) && WaitStep(w, d, n, now, t)
    ensures WellFormed(t)
  {
    hide Conforms, Total;
  }

  class Registry {
    var limiters: map<string, DynamicRateLimiter>
    ghost var cells: set<DynamicRateLimiter>
    ghost var buckets: set<Bucket>

    ghost function Now(): World
      reads this, cells, buckets
    {
      World(limiters, map d | d in cells :: Cell(d.limiter, d.bytesPerSec), map b | b in buckets :: b.log)
    }

    ghost predicate Valid()
      reads this, cells, buckets
    {
      WellFormed(Now())
    }

    constructor ()
      ensures Valid() && Now() == World(map[], map[], map[])
    {
      limiters, cells, buckets := map[], {}, {};
    }

    /** Takes the bucket away from a limiter. */
    method Free(d: DynamicRateLimiter)
      requires d in cells
      modifies d
      ensures Now() == old(Now()).(cells := old(Now()).cells[d := Cell(null, 0)])
    {
      d.limiter := null;
      d.bytesPerSec := 0;
    }

    /** The limiter on the registry, or a new one without a bucket. */
    method LoadOrStore(user: string) returns (d: DynamicRateLimiter)
      requires limiters.Values <= cells
      modifies this
      ensures d in cells && d in limiters.Values && buckets == old(buckets)
      ensures Now() == Stored(old(Now()), user, d)
      ensures if user in old(limiters) then d == old(limiters)[user] else fresh(d) && d.limiter == null
      ensures limiters == old(limiters)[user := d]
    {
      if user in limiters {
        d := limiters[user];
      } else {
        d := new DynamicRateLimiter();
        limiters := limiters[user := d];
        cells := cells + {d};
      }
      assert limiters[user] == d;
    }

    /** A new, empty bucket for a limiter. */
    method Fill(d: DynamicRateLimiter, bytesPerSec: nat)
      requires d in cells && bytesPerSec > 0
      modifies d, this`buckets
      ensures d.limiter != null && fresh(d.limiter) && d.limiter.rate == bytesPerSec
      ensures buckets == old(buckets) + {d.limiter}
      ensures Now() == World(limiters, old(Now()).cells[d := Cell(d.limiter, bytesPerSec)],
                             old(Now()).logs[d.limiter := []])
    {
      var bucket := new Bucket(bytesPerSec);
      buckets := buckets + {bucket};
      d.limiter := bucket;
      d.bytesPerSec := bytesPerSec;
    }

    method Remove(user: string)
      modifies this`limiters
      ensures Now() == old(Now()).(limiters := old(limiters) - {user})
    {
      limiters := limiters - {user};
    }

    /** What `Valid` says of the objects. */
    lemma ValidFacts()
      requires Valid()
      ensures limiters.Values <= cells
      ensures forall d | d in cells && d.limiter != null :: d.limiter in buckets && d.limiter.rate == d.bytesPerSec
      ensures forall u | u in limiters :: limiters[u].limiter != null
    {
      forall d | d in cells && d.limiter != null
        ensures d.limiter in buckets && d.limiter.rate == d.bytesPerSec
      {
        assert Now().cells[d] == Cell(d.limiter, d.bytesPerSec);
      }
    }

    /** The limiter of a limited user, filled when it has no bucket of the right rate. */
    method Limited(user: string, speedLimit: int) returns (r: DynamicRateLimiter)
      requires Valid() && user != "" && Limits(speedLimit)
      modifies this, limiters.Values
      ensures GetStep(old(Now()), user, speedLimit, r, Now())
      ensures fresh(limiters.Values - old(limiters.Values))
    {
      ghost var w := Now();
      var bytesPerSec := BytesPerSec(speedLimit);
      ValidFacts();
      assert user in limiters ==> w.cells[limiters[user]] == Cell(limiters[user].limiter, limiters[user].bytesPerSec);
      hide WellFormed, BytesPerSec, GetStep, Conforms;
      r := LoadOrStore(user);
      if r.limiter == null || r.bytesPerSec != bytesPerSec {
        Fill(r, bytesPerSec);
        FillIsGetStep(w, user, speedLimit, r, r.limiter);
      } else {
        KeepIsGetStep(w, user, speedLimit, r);
      }
    }

    method GetUserRateLimiter(user: string, speedLimit: int) returns (r: DynamicRateLimiter?)
      requires Valid()
      modifies this, limiters.Values
      ensures Valid() && fresh(limiters.Values - old(limiters.Values))
      ensures GetStep(old(Now()), user, speedLimit, r, Now())
    {
      ValidFacts();
      hide WellFormed, BytesPerSec;
      ghost var w := Now();
      r := null;
      if user == "" {
        return;
      }
      var bytesPerSec := BytesPerSec(speedLimit);
      if speedLimit <= 0 {
        if user in limiters {
          Free(limiters[user]);
        }
        Remove(user);
      } else if bytesPerSec <= 0 {
        Remove(user);
      } else {
        r := Limited(user, speedLimit);
      }
      GetKeepsWellFormed(w, user, speedLimit, r, Now());
    }

    /** The wait of one tunnel through the limiter it holds, or without any. */
    method TunnelWait(d: DynamicRateLimiter?, n: int, now: real) returns (ok: bool)
      requires Valid() && (d != null ==> d in cells)
      modifies if d == null || d.limiter == null then {} else {d.limiter}
      ensures Valid() && ok && cells == old(cells) && buckets == old(buckets)
      ensures WaitStep(old(Now()), d, n, now, Now())
    {
      ghost var w := Now();
      ok := true;
      if d == null {
        return;
      }
      assert w.cells[d] == Cell(d.limiter, d.bytesPerSec);
      assert d.limiter != null ==> d.limiter in buckets && w.logs[d.limiter] == d.limiter.log && d.Valid();
      hide WellFormed, Conforms, Total;
      ok := d.WaitN(n, now);
      if d.limiter != null && n > 0 {
        assert Now() == w.(logs := w.logs[d.limiter := d.limiter.log]);
      } else {
        assert Now() == w;
      }
      WaitKeepsWellFormed(w, d, n, now, Now());
    }
  }
}
