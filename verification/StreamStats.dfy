/** The byte counters of one tunnel, and the lock-free reading of what was not reported yet. */
module StreamStats {

  class Counters {
    var upload: int
    var download: int
    var reportedUpload: int
    var reportedDownload: int

    method AddUpload(n: int)
      modifies this`upload
      ensures upload == old(upload) + if n > 0 then n else 0
    {
      if n > 0 {
        upload := upload + n;
      }
    }

    method AddDownload(n: int)
      modifies this`download
      ensures download == old(download) + if n > 0 then n else 0
    {
      if n > 0 {
        download := download + n;
      }
    }

    /** Takes what was not reported yet of both directions. No other thread runs here; what holds
        with other threads is the matter of the rest of this module. */
    method Delta() returns (up: int, down: int)
      modifies this`reportedUpload, this`reportedDownload
      ensures up == Unreported(upload, old(reportedUpload)) && reportedUpload == old(reportedUpload) + up
      ensures down == Unreported(download, old(reportedDownload)) && reportedDownload == old(reportedDownload) + down
    {
      up, down := 0, 0;
      if upload > reportedUpload {
        up, reportedUpload := upload - reportedUpload, upload;
      }
      if download > reportedDownload {
        down, reportedDownload := download - reportedDownload, download;
      }
    }
  }

  function Unreported(total: int, reported: int): int {
    if total <= reported then 0 else total - reported
  }

  // ---------- any number of threads on one pair of counters ----------

  /** Where one call of `deltaSinceLast` stands. A call that has returned handed out the bytes
      numbered `from` up to, not including, `upTo`. */
  datatype Call =
    | Started
    | LoadedTotal(current: int)
    | LoadedBoth(current: int, previous: int)
    | Returned(from: int, upTo: int)

  datatype State = State(total: int, reported: int, calls: seq<Call>)

  /** One atomic step of some thread: count `n` more bytes, begin a call, or let call `i` do its
      next load or its compare-and-swap. */
  datatype Action =
    | Add(n: int)
    | Begin
    | LoadTotal(i: nat)
    | LoadReported(i: nat)
    | CompareAndSwap(i: nat)

  const INITIAL := State(0, 0, [])

  /** A step that does not fit where the call stands changes nothing. */
  function Step(s: State, a: Action): State {
    match a
    case Add(n) =>
      if n > 0 then s.(total := s.total + n) else s
    case Begin =>
      s.(calls := s.calls + [Started])
    case LoadTotal(i) =>
      if i < |s.calls| && s.calls[i].Started? then s.(calls := s.calls[i := LoadedTotal(s.total)]) else s
    case LoadReported(i) =>
      if i < |s.calls| && s.calls[i].LoadedTotal? then
        var current := s.calls[i].current;
        s.(calls := s.calls[i := if current <= s.reported then Returned(0, 0) else LoadedBoth(current, s.reported)])
      else s
    case CompareAndSwap(i) =>
      if i < |s.calls| && s.calls[i].LoadedBoth? then
        var LoadedBoth(current, previous) := s.calls[i];
        if s.reported == previous then
          s.(reported := current, calls := s.calls[i := Returned(previous, current)])
        else s.(calls := s.calls[i := Started])
      else s
  }

  function Run(s: State, actions: seq<Action>): State
    decreases |actions|
  {
    if actions == [] then s else Run(Step(s, actions[0]), actions[1..])
  }

  function Value(c: Call): int {
    if c.Returned? then c.upTo - c.from else 0
  }

  /** The sum of everything the calls returned. */
  function HandedOut(calls: seq<Call>): int {
    if calls == [] then 0 else HandedOut(calls[..|calls| - 1]) + Value(calls[|calls| - 1])
  }

  /** Call `c` handed out the byte numbered `b`. */
  predicate Hands(c: Call, b: int) {
    c.Returned? && c.from <= b < c.upTo
  }

  ghost predicate CallFits(c: Call, s: State) {
    match c
    case Started => true
    case LoadedTotal(current) => current <= s.total
    case LoadedBoth(current, previous) => previous <= s.reported && previous < current <= s.total
    case Returned(from, upTo) => 0 <= from <= upTo <= s.reported
  }

  ghost predicate Inv(s: State) {
    && 0 <= s.reported <= s.total
    && (forall i | 0 <= i < |s.calls| :: CallFits(s.calls[i], s))
    && HandedOut(s.calls) == s.reported
    && (forall i, j, b | 0 <= i < j < |s.calls| && Hands(s.calls[i], b) :: !Hands(s.calls[j], b))
    && (forall b | 0 <= b < s.reported :: HandedByOne(s.calls, b))
  }

  ghost predicate HandedByOne(calls: seq<Call>, b: int) {
    exists i :: 0 <= i < |calls| && Hands(calls[i], b)
  }

  lemma {:induction false} HandedOutUpdate(calls: seq<Call>, i: nat, c: Call)
    requires i < |calls|
    ensures HandedOut(calls[i := c]) == HandedOut(calls) - Value(calls[i]) + Value(c)
    decreases |calls|
  {
    var init := calls[..|calls| - 1];
    if i == |init| {
      assert calls[i := c][..|init|] == init;
    } else {
      HandedOutUpdate(init, i, c);
      assert calls[i := c][..|init|] == init[i := c];
    }
  }

  lemma HandedOutAppend(calls: seq<Call>, c: Call)
    ensures HandedOut(calls + [c]) == HandedOut(calls) + Value(c)
  {
    assert (calls + [c])[..|calls|] == calls;
  }

  /** A call that hands out nothing takes the place of one that handed out nothing. */
  lemma QuietUpdate(s: State, i: nat, c: Call)
    requires Inv(s) && i < |s.calls| && !s.calls[i].Returned?
    requires Value(c) == 0 && CallFits(c, s)
    ensures Inv(s.(calls := s.calls[i := c]))
  {
    var t := s.(calls := s.calls[i := c]);
    HandedOutUpdate(s.calls, i, c);
    forall b | 0 <= b < s.reported
      ensures HandedByOne(t.calls, b)
    {
      assert HandedByOne(s.calls, b);
      var j :| 0 <= j < |s.calls| && Hands(s.calls[j], b);
      assert t.calls[j] == s.calls[j];
    }
  }

  /** A compare-and-swap that succeeds hands out exactly the bytes it moves `reported` over. */
  lemma SwapKeepsInv(s: State, i: nat)
    requires Inv(s) && i < |s.calls| && s.calls[i].LoadedBoth? && s.reported == s.calls[i].previous
    ensures Inv(Step(s, CompareAndSwap(i)))
  {
    var t := Step(s, CompareAndSwap(i));
    HandedOutUpdate(s.calls, i, t.calls[i]);
    forall b | 0 <= b < t.reported
      ensures HandedByOne(t.calls, b)
    {
      if b < s.reported {
        assert HandedByOne(s.calls, b);
        var j :| 0 <= j < |s.calls| && Hands(s.calls[j], b);
        assert t.calls[j] == s.calls[j];
      } else {
        assert Hands(t.calls[i], b);
      }
    }
  }

  lemma StepKeepsInv(s: State, a: Action)
    requires Inv(s)
    ensures Inv(Step(s, a))
  {
    match a
    case Add(n) =>
    case Begin =>
      HandedOutAppend(s.calls, Started);
      var t := Step(s, a);
      forall b | 0 <= b < s.reported
        ensures HandedByOne(t.calls, b)
      {
        assert HandedByOne(s.calls, b);
        var j :| 0 <= j < |s.calls| && Hands(s.calls[j], b);
        assert t.calls[j] == s.calls[j];
      }
    case LoadTotal(i) =>
      if i < |s.calls| && s.calls[i].Started? {
        QuietUpdate(s, i, LoadedTotal(s.total));
      }
    case LoadReported(i) =>
      if i < |s.calls| && s.calls[i].LoadedTotal? {
        QuietUpdate(s, i, Step(s, a).calls[i]);
      }
    case CompareAndSwap(i) =>
      if i < |s.calls| && s.calls[i].LoadedBoth? {
        if s.reported == s.calls[i].previous {
          SwapKeepsInv(s, i);
        } else {
          QuietUpdate(s, i, Started);
        }
      }
  }

  lemma {:induction false} RunKeepsInv(s: State, actions: seq<Action>)
    requires Inv(s)
    ensures Inv(Run(s, actions))
    decreases |actions|
  {
    if actions != [] {
      StepKeepsInv(s, actions[0]);
      RunKeepsInv(Step(s, actions[0]), actions[1..]);
    }
  }

  /** However adds and calls interleave, `reported` never passes `total`, the values returned sum
      to `reported`, and each reported byte was handed out by exactly one call. */
  lemma NoByteTwice(actions: seq<Action>)
    ensures var s := Run(INITIAL, actions);
      && 0 <= s.reported <= s.total
      && HandedOut(s.calls) == s.reported
      && (forall b :: 0 <= b < s.reported <==> HandedByOne(s.calls, b))
      && (forall i, j, b | 0 <= i < |s.calls| && 0 <= j < |s.calls| && Hands(s.calls[i], b) && Hands(s.calls[j], b) ::
            i == j)
  {
    RunKeepsInv(INITIAL, actions);
  }

  /** Seen from outside, every step adds bytes, takes some of the unreported bytes, or does
      nothing: the lock-free calls refine an atomic take. */
  lemma StepAddsOrTakes(s: State, a: Action)
    requires Inv(s)
    ensures var t := Step(s, a); var taken := HandedOut(t.calls) - HandedOut(s.calls);
      && taken == t.reported - s.reported
      && 0 <= taken <= s.total - s.reported
      && (taken > 0 ==> t.total == s.total)
      && (!a.Add? ==> t.total == s.total)
  {
    StepKeepsInv(s, a);
  }

  /** A call that no other thread disturbs returns at once, with all that was unreported. */
  lemma UndisturbedCall(s: State)
    ensures var n := |s.calls|;
      var t := Run(s, [Begin, LoadTotal(n), LoadReported(n), CompareAndSwap(n)]);
      && |t.calls| == n + 1 && t.calls[n].Returned? && t.total == s.total
      && Value(t.calls[n]) == Unreported(s.total, s.reported) == t.reported - s.reported
  {
    var n := |s.calls|;
    var actions := [Begin, LoadTotal(n), LoadReported(n), CompareAndSwap(n)];
    var s1 := Step(s, Begin);
    var s2 := Step(s1, LoadTotal(n));
    var s3 := Step(s2, LoadReported(n));
    var s4 := Step(s3, CompareAndSwap(n));
    assert actions[1..][1..] == [LoadReported(n), CompareAndSwap(n)];
    assert [LoadReported(n), CompareAndSwap(n)][1..] == [CompareAndSwap(n)];
    assert Run(s, actions) == Run(s1, actions[1..]) == Run(s2, actions[1..][1..])
        == Run(s3, [CompareAndSwap(n)]) == Run(s4, [CompareAndSwap(n)][1..]) == s4;
  }

  // ---------- the last call ----------

  predicate NoAdds(actions: seq<Action>) {
    forall k | 0 <= k < |actions| :: !actions[k].Add?
  }

  /** Call `i` saw nothing but the final total. */
  ghost predicate SeesFinalTotal(s: State, i: nat) {
    i < |s.calls|
    && match s.calls[i]
       case Started => true
       case LoadedTotal(current) => current == s.total
       case LoadedBoth(current, _) => current == s.total
       case Returned(_, _) => s.reported == s.total
  }

  lemma {:induction false} FinalTotalStays(s: State, actions: seq<Action>, i: nat)
    requires Inv(s) && SeesFinalTotal(s, i) && NoAdds(actions)
    ensures SeesFinalTotal(Run(s, actions), i) && Run(s, actions).total == s.total
    decreases |actions|
  {
    if actions != [] {
      StepKeepsInv(s, actions[0]);
      assert !actions[0].Add?;
      FinalTotalStays(Step(s, actions[0]), actions[1..], i);
    }
  }

  /** A call begun after the last add leaves nothing unreported once it returns, whatever other
      calls race with it. */
  lemma LastCallDrains(before: seq<Action>, after: seq<Action>)
    requires NoAdds(after)
    ensures var s := Run(INITIAL, before); var t := Run(Step(s, Begin), after);
      && |s.calls| < |t.calls|
      && (t.calls[|s.calls|].Returned? ==> HandedOut(t.calls) == t.reported == t.total == s.total)
  {
    var s := Run(INITIAL, before);
    RunKeepsInv(INITIAL, before);
    StepKeepsInv(s, Begin);
    RunKeepsInv(Step(s, Begin), after);
    FinalTotalStays(Step(s, Begin), after, |s.calls|);
  }
}
