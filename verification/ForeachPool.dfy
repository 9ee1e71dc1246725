/**
 The job pool of foreach.c: one child per value, a bounded number of them at a
 time, against an operating system that decides which forks succeed, when
 children end and how.
 */
module ForeachPool {

  /** How a child ended: status zero, killed by a signal, or another exit code. */
  datatype Status = Clean | Signaled | Exited

  /** What the system has been asked to do and has answered; children are numbered from 0 and may be waited for. */
  datatype Event =
    | Forked(value: string)
    | ForkFailed(value: string)
    | Reaped(child: nat, status: Status, waited: bool)

  function Started(trace: seq<Event>): seq<string> {
    if trace == [] then []
    else Started(trace[..|trace| - 1]) + if trace[|trace| - 1].Forked? then [trace[|trace| - 1].value] else []
  }

  function Tried(trace: seq<Event>): seq<string> {
    if trace == [] then []
    else Tried(trace[..|trace| - 1]) + if trace[|trace| - 1].Reaped? then [] else [trace[|trace| - 1].value]
  }

  /** The children reaped, in order. */
  function Children(trace: seq<Event>): seq<nat> {
    if trace == [] then []
    else Children(trace[..|trace| - 1]) + if trace[|trace| - 1].Reaped? then [trace[|trace| - 1].child] else []
  }

  /** How many children run after `trace`. */
  function Running(trace: seq<Event>): int {
    |Started(trace)| - |Children(trace)|
  }

  predicate IsFailure(e: Event) {
    e.Reaped? && e.status != Clean
  }

  predicate Failed(trace: seq<Event>) {
    exists i | 0 <= i < |trace| :: IsFailure(trace[i])
  }

  /** The exit code: which kinds of failure occurred, in whatever order. */
  function ExitCode(trace: seq<Event>): bv8 {
    (if Saw(trace, Signaled) then 2 else 0) | (if Saw(trace, Exited) then 4 else 0)
  }

  predicate Saw(trace: seq<Event>, status: Status) {
    exists i | 0 <= i < |trace| :: trace[i].Reaped? && trace[i].status == status
  }

  /** At no moment do more than `jobs` children run. */
  predicate Bounded(trace: seq<Event>, jobs: nat) {
    forall k | 0 <= k <= |trace| :: Running(trace[..k]) <= jobs
  }

  /** No value is tried after a failed child has been reaped. */
  predicate StopsAtFailure(trace: seq<Event>) {
    forall j | 0 <= j < |trace| && !trace[j].Reaped? :: !Failed(trace[..j])
  }

  /** In the first `n` events, no child is waited for while fewer than `jobs` run. */
  predicate WaitsWhenFull(trace: seq<Event>, n: nat, jobs: nat) {
    n <= |trace| && forall i | 0 <= i < n && trace[i].Reaped? && trace[i].waited :: Running(trace[..i]) >= jobs
  }

  /** From event `n` on, no value is tried. */
  predicate OnlyReaps(trace: seq<Event>, n: nat) {
    forall i | n <= i < |trace| :: trace[i].Reaped?
  }

  /** What `n` events hold of a drain that started behind them. */
  predicate Drained(trace: seq<Event>, n: nat, jobs: nat, failed: bool) {
    WaitsWhenFull(trace, n, jobs) && OnlyReaps(trace, n) && (failed ==> Failed(trace))
  }

  lemma ExtendDrained(trace: seq<Event>, e: Event, n: nat, jobs: nat, failed: bool)
    requires Drained(trace, n, jobs, failed) && e.Reaped?
    ensures Drained(trace + [e], n, jobs, failed)
  {
    Extend(trace, e);
    ExtendWaits(trace, e, n, jobs);
  }

  lemma Extend(trace: seq<Event>, e: Event)
    ensures (trace + [e])[..|trace|] == trace
    ensures Failed(trace + [e]) <==> Failed(trace) || IsFailure(e)
    ensures forall s :: Saw(trace + [e], s) <==> Saw(trace, s) || (e.Reaped? && e.status == s)
  {
    var t := trace + [e];
    assert t[..|trace|] == trace;
    assert t[|trace|] == e;
    assert forall i | 0 <= i < |trace| :: t[i] == trace[i];
  }

  lemma ExtendBounded(trace: seq<Event>, e: Event, jobs: nat)
    requires Bounded(trace, jobs) && Running(trace + [e]) <= jobs
    ensures Bounded(trace + [e], jobs)
  {
    var t := trace + [e];
    forall k | 0 <= k <= |t|
      ensures Running(t[..k]) <= jobs
    {
      if k <= |trace| {
        assert t[..k] == trace[..k];
      } else {
        assert t[..k] == t;
      }
    }
  }

  lemma ExtendWaits(trace: seq<Event>, e: Event, n: nat, jobs: nat)
    requires WaitsWhenFull(trace, n, jobs)
    ensures WaitsWhenFull(trace + [e], n, jobs)
    ensures n == |trace| && (e.Reaped? && e.waited ==> Running(trace) >= jobs) ==>
              WaitsWhenFull(trace + [e], n + 1, jobs)
  {
    var t := trace + [e];
    assert t[..|trace|] == trace;
    forall i | 0 <= i < n
      ensures t[..i] == trace[..i] && t[i] == trace[i]
    {
    }
  }

  lemma ExtendStops(trace: seq<Event>, e: Event)
    requires StopsAtFailure(trace) && (e.Reaped? || !Failed(trace))
    ensures StopsAtFailure(trace + [e])
  {
    var t := trace + [e];
    forall j | 0 <= j < |t| && !t[j].Reaped?
      ensures !Failed(t[..j])
    {
      assert t[..j] == trace[..j];
      if j == |trace| {
        assert trace[..j] == trace;
      }
    }
  }

  /** ExitCode is the OR of the bits of all outcomes. */
  lemma ExitCodeExtends(trace: seq<Event>, e: Event)
    ensures ExitCode(trace + [e]) == ExitCode(trace) |
            (if e.Reaped? && e.status == Signaled then 2 else if e.Reaped? && e.status == Exited then 4 else 0)
    ensures ExitCode(trace) != 0 <==> Failed(trace)
  {
    Extend(trace, e);
    assert (0 as bv8) | 0 == 0 && (0 as bv8) | 4 != 0 && (2 as bv8) | 0 != 0 && (2 as bv8) | 4 != 0;
    if Failed(trace) {
      var i :| 0 <= i < |trace| && IsFailure(trace[i]);
      assert Saw(trace, trace[i].status);
    }
  }

  /** The numbers below `n` are those of the children that run and of those reaped. */
  ghost predicate Numbered(n: nat, live: set<nat>, reaped: seq<nat>) {
    && (forall c :: 0 <= c < n <==> c in live || c in reaped)
    && (forall c | c in live :: c !in reaped)
  }

  lemma NextNumber(n: nat, live: set<nat>, reaped: seq<nat>)
    requires Numbered(n, live, reaped)
    ensures Numbered(n + 1, live + {n}, reaped) && |live + {n}| == |live| + 1
  {
    assert n !in live && n !in reaped;
  }

  /** Every child started is running or has been reaped, and none twice. */
  ghost predicate Consistent(trace: seq<Event>, live: set<nat>) {
    var reaped := Children(trace);
    Numbered(|Started(trace)|, live, reaped) && NoRepeats(reaped) && |live| == Running(trace)
  }

  predicate NoRepeats(s: seq<nat>) {
    forall i, j | 0 <= i < j < |s| :: s[i] != s[j]
  }

  /** A new child gets a new number. */
  lemma ForkKeeps(trace: seq<Event>, live: set<nat>, e: Event)
    requires Consistent(trace, live) && !e.Reaped?
    ensures Consistent(trace + [e], if e.Forked? then live + {|Started(trace)|} else live)
  {
    Extend(trace, e);
    NextNumber(|Started(trace)|, live, Children(trace));
    assert Children(trace + [e]) == Children(trace);
  }

  lemma ReapKeeps(trace: seq<Event>, live: set<nat>, e: Event)
    requires Consistent(trace, live) && e.Reaped? && e.child in live
    ensures Consistent(trace + [e], live - {e.child})
  {
    Extend(trace, e);
    assert Children(trace + [e]) == Children(trace) + [e.child];
    assert Started(trace + [e]) == Started(trace);
  }

  /** The system: `live` children can be waited for. */
  class System {
    var trace: seq<Event>
    var live: set<nat>

    ghost predicate Valid()
      reads this
    {
      Consistent(trace, live)
    }

    constructor ()
      ensures Valid() && trace == [] && live == {}
    {
      trace, live := [], {};
    }

    method Fork(value: string) returns (ok: bool)
      requires Valid()
      modifies this
      ensures Valid() && trace == old(trace) + [if ok then Forked(value) else ForkFailed(value)]
    {
      ok := *;
      var e := if ok then Forked(value) else ForkFailed(value);
      ForkKeeps(trace, live, e);
      if ok {
        live := live + {|Started(trace)|};
      }
      trace := trace + [e];
    }

    /** waitpid for any child: a blocking call succeeds exactly when there is one. */
    method Wait(block: bool) returns (got: bool, status: Status)
      requires Valid()
      modifies this
      ensures Valid()
      ensures got ==> exists c :: trace == old(trace) + [Reaped(c, status, block)]
      ensures !got ==> trace == old(trace)
      ensures old(live) == {} ==> !got
      ensures block && old(live) != {} ==> got
    {
      got, status := *, *;
      got := live != {} && (block || got);
      if got {
        var child: nat :| child in live;
        ReapKeeps(trace, live, Reaped(child, status, block));
        live := live - {child};
        trace := trace + [Reaped(child, status, block)];
      }
    }
  }

  /** reap */
  method Reap(os: System, rc0: bv8, block: bool) returns (got: bool, rc: bv8)
    requires os.Valid() && rc0 == ExitCode(os.trace)
    modifies os
    ensures os.Valid() && rc == ExitCode(os.trace)
    ensures got ==> exists c, s :: os.trace == old(os.trace) + [Reaped(c, s, block)]
    ensures !got ==> os.trace == old(os.trace)
    ensures old(os.live) == {} ==> !got
    ensures block && old(os.live) != {} ==> got
  {
    rc := rc0;
    var status;
    got, status := os.Wait(block);
    if !got {
      return;
    }
    ghost var c :| os.trace == old(os.trace) + [Reaped(c, status, block)];
    ExitCodeExtends(old(os.trace), Reaped(c, status, block));
    match status
    case Clean =>
    case Signaled => rc := rc | 2;
    case Exited => rc := rc | 4;
  }

  /** What holds throughout a run that has tried the first `tried` values. */
  predicate InProgress(trace: seq<Event>, values: seq<string>, tried: nat, jobs: nat, keepGoing: bool) {
    && tried <= |values| && Tried(trace) == values[..tried]
    && Bounded(trace, jobs) && (keepGoing || StopsAtFailure(trace))
  }

  ghost predicate Progress(os: System, values: seq<string>, tried: nat, jobs: nat, keepGoing: bool)
    reads os
  {
    os.Valid() && InProgress(os.trace, values, tried, jobs, keepGoing)
  }

  /** And while there are values to try. */
  ghost predicate Driving(os: System, values: seq<string>, tried: nat, jobs: nat, keepGoing: bool)
    reads os
  {
    Progress(os, values, tried, jobs, keepGoing) && WaitsWhenFull(os.trace, |os.trace|, jobs)
  }

  lemma ReapedKeeps(trace: seq<Event>, e: Event, jobs: nat)
    requires e.Reaped? && Bounded(trace, jobs)
    ensures Tried(trace + [e]) == Tried(trace) && Started(trace + [e]) == Started(trace)
    ensures Running(trace + [e]) == Running(trace) - 1 && Bounded(trace + [e], jobs)
    ensures StopsAtFailure(trace) ==> StopsAtFailure(trace + [e])
  {
    Extend(trace, e);
    assert trace[..|trace|] == trace;
    ExtendBounded(trace, e, jobs);
    if StopsAtFailure(trace) {
      ExtendStops(trace, e);
    }
  }

  lemma TriedKeeps(trace: seq<Event>, e: Event, jobs: nat)
    requires !e.Reaped? && Bounded(trace, jobs) && Running(trace) < jobs
    ensures Tried(trace + [e]) == Tried(trace) + [e.value]
    ensures Running(trace + [e]) == Running(trace) + (if e.Forked? then 1 else 0) && Bounded(trace + [e], jobs)
    ensures StopsAtFailure(trace) && !Failed(trace) ==> StopsAtFailure(trace + [e])
    ensures ExitCode(trace + [e]) == ExitCode(trace)
  {
    Extend(trace, e);
    assert trace[..|trace|] == trace;
    ExtendBounded(trace, e, jobs);
    if StopsAtFailure(trace) && !Failed(trace) {
      ExtendStops(trace, e);
    }
  }

  /** A value is tried while there is room and, unless all are to be tried, nothing has failed. */
  lemma TryingKeeps(trace: seq<Event>, e: Event, values: seq<string>, value: nat, jobs: nat, keepGoing: bool)
    requires value < |values| && InProgress(trace, values, value, jobs, keepGoing)
    requires WaitsWhenFull(trace, |trace|, jobs) && Running(trace) < jobs && (keepGoing || !Failed(trace))
    requires !e.Reaped? && e.value == values[value]
    ensures InProgress(trace + [e], values, value + 1, jobs, keepGoing)
    ensures WaitsWhenFull(trace + [e], |trace + [e]|, jobs) && ExitCode(trace + [e]) == ExitCode(trace)
  {
    TriedKeeps(trace, e, jobs);
    ExtendWaits(trace, e, |trace|, jobs);
    assert values[..value + 1] == values[..value] + [values[value]];
  }

  /** runCommands */
  method RunCommands(os: System, values: seq<string>, maxJobs: nat, keepGoing: bool)
    returns (rc: bv8, ghost tried: nat, ghost driven: nat)
    requires 1 <= maxJobs && os.Valid() && os.trace == []
    modifies os
    ensures Progress(os, values, tried, maxJobs, keepGoing)
    ensures WaitsWhenFull(os.trace, driven, maxJobs) && OnlyReaps(os.trace, driven)
    ensures os.live == {} && rc == ExitCode(os.trace)
    ensures keepGoing ==> tried == |values|
    ensures tried < |values| ==> Failed(os.trace)
    ensures AllRanCleanly(os.trace, values) <==> rc == 0 && tried == |values| && !SawForkFail(os.trace)
  {
    var value, jobs := 0, 0;
    rc := 0;
    assert os.trace[..0] == [];
    while value < |values| && (keepGoing || rc == 0)
      invariant Driving(os, values, value, maxJobs, keepGoing)
      invariant jobs == |os.live| < maxJobs && rc == ExitCode(os.trace)
    {
      rc, jobs := RunOne(os, values, value, jobs, rc, maxJobs, keepGoing);
      value := value + 1;
    }
    tried, driven := value, |os.trace|;
    if value < |values| {
      ExitCodeExtends(os.trace, ForkFailed(""));
    }
    rc := Drain(os, values, tried, jobs, rc, maxJobs, keepGoing, driven, tried < |values|);
    CleanIff(os, values, tried);
  }

  /** The last loop: every child is waited for. */
  method Drain(os: System, ghost values: seq<string>, ghost tried: nat, jobs0: nat, rc0: bv8, ghost maxJobs: nat,
               ghost keepGoing: bool, ghost driven: nat, ghost failed: bool)
    returns (rc: bv8)
    requires Progress(os, values, tried, maxJobs, keepGoing) && Drained(os.trace, driven, maxJobs, failed)
    requires jobs0 == |os.live| && rc0 == ExitCode(os.trace)
    modifies os
    ensures Progress(os, values, tried, maxJobs, keepGoing) && Drained(os.trace, driven, maxJobs, failed)
    ensures os.live == {} && rc == ExitCode(os.trace)
  {
    var jobs := jobs0;
    rc := rc0;
    while jobs > 0
      invariant Progress(os, values, tried, maxJobs, keepGoing) && Drained(os.trace, driven, maxJobs, failed)
      invariant jobs == |os.live| && rc == ExitCode(os.trace)
    {
      ghost var before := os.trace;
      var got;
      got, rc := Reap(os, rc, true);
      ghost var c, s :| os.trace == before + [Reaped(c, s, true)];
      ReapedKeeps(before, Reaped(c, s, true), maxJobs);
      ExtendDrained(before, Reaped(c, s, true), driven, maxJobs, failed);
      jobs := jobs - 1;
    }
  }

  /** One turn of the loop over the values: a child is started, and finished ones are reaped. */
  method RunOne(os: System, values: seq<string>, value: nat, jobs0: nat, rc0: bv8, maxJobs: nat, keepGoing: bool)
    returns (rc: bv8, jobs: nat)
    requires value < |values| && Driving(os, values, value, maxJobs, keepGoing)
    requires jobs0 == |os.live| < maxJobs && rc0 == ExitCode(os.trace) && (keepGoing || rc0 == 0)
    modifies os
    ensures Driving(os, values, value + 1, maxJobs, keepGoing)
    ensures jobs == |os.live| < maxJobs && rc == ExitCode(os.trace)
  {
    rc, jobs := rc0, jobs0;
    ghost var before := os.trace;
    var ok := os.Fork(values[value]);
    ghost var e := os.trace[|before|];
    ExitCodeExtends(before, e);
    TryingKeeps(before, e, values, value, maxJobs, keepGoing);
    if !ok {
      return;
    }
    jobs := jobs + 1;
    rc, jobs := MakeRoom(os, values, value + 1, jobs, rc, maxJobs, keepGoing);
  }

  /** The inner loop: children are reaped, and one is waited for only while there is no room. */
  method MakeRoom(os: System, ghost values: seq<string>, ghost tried: nat, jobs0: nat, rc0: bv8, maxJobs: nat,
                  ghost keepGoing: bool)
    returns (rc: bv8, jobs: nat)
    requires 1 <= maxJobs && Driving(os, values, tried, maxJobs, keepGoing)
    requires jobs0 == |os.live| <= maxJobs && rc0 == ExitCode(os.trace)
    modifies os
    ensures Driving(os, values, tried, maxJobs, keepGoing)
    ensures jobs == |os.live| < maxJobs && rc == ExitCode(os.trace)
  {
    rc, jobs := rc0, jobs0;
    var more := true;
    while more
      invariant Driving(os, values, tried, maxJobs, keepGoing)
      invariant jobs == |os.live| <= maxJobs && rc == ExitCode(os.trace)
      invariant !more ==> jobs < maxJobs
      decreases more, jobs
    {
      ghost var was, full := os.trace, jobs >= maxJobs;
      more, rc := Reap(os, rc, jobs >= maxJobs);
      if more {
        ghost var c, s :| os.trace == was + [Reaped(c, s, full)];
        ReapedKeeps(was, Reaped(c, s, full), maxJobs);
        ExtendWaits(was, Reaped(c, s, full), |was|, maxJobs);
        jobs := jobs - 1;
      }
    }
  }

  /** What the end of a run means: each child that was started has been reaped exactly once. */
  lemma EveryChildReapedOnce(os: System)
    requires os.Valid() && os.live == {}
    ensures |Children(os.trace)| == |Started(os.trace)|
    ensures forall c :: 0 <= c < |Started(os.trace)| <==> c in Children(os.trace)
    ensures forall i, j | 0 <= i < j < |Children(os.trace)| :: Children(os.trace)[i] != Children(os.trace)[j]
  {
  }

  // ---------- what an exit code of zero means ----------

  predicate SawForkFail(trace: seq<Event>) {
    exists i | 0 <= i < |trace| :: trace[i].ForkFailed?
  }

  /** A child was started for each value, in order, and each child ended with status zero. */
  predicate AllRanCleanly(trace: seq<Event>, values: seq<string>) {
    Started(trace) == values && forall c: nat | c < |values| :: EndedCleanly(trace, c)
  }

  predicate EndedCleanly(trace: seq<Event>, c: nat) {
    exists i | 0 <= i < |trace| :: trace[i].Reaped? && trace[i].child == c && trace[i].status == Clean
  }

  /** The values for which no child was started. */
  lemma {:induction false} StartedIsTried(trace: seq<Event>)
    ensures |Started(trace)| <= |Tried(trace)|
    ensures |Started(trace)| == |Tried(trace)| <==> !SawForkFail(trace)
    ensures !SawForkFail(trace) ==> Started(trace) == Tried(trace)
    decreases |trace|
  {
    if trace != [] {
      var front := trace[..|trace| - 1];
      StartedIsTried(front);
      assert SawForkFail(trace) <==> SawForkFail(front) || trace[|trace| - 1].ForkFailed?;
    }
  }

  lemma {:induction false} ReapedIsChild(trace: seq<Event>, i: nat)
    requires i < |trace| && trace[i].Reaped?
    ensures trace[i].child in Children(trace)
    decreases |trace|
  {
    if i < |trace| - 1 {
      ReapedIsChild(trace[..|trace| - 1], i);
    }
  }

  lemma {:induction false} ChildIsReaped(trace: seq<Event>, c: nat) returns (i: nat)
    requires c in Children(trace)
    ensures i < |trace| && trace[i].Reaped? && trace[i].child == c
    decreases |trace|
  {
    if trace[|trace| - 1].Reaped? && trace[|trace| - 1].child == c {
      i := |trace| - 1;
    } else {
      i := ChildIsReaped(trace[..|trace| - 1], c);
    }
  }

  lemma LastIsNew(trace: seq<Event>)
    requires trace != [] && trace[|trace| - 1].Reaped? && NoRepeats(Children(trace))
    ensures trace[|trace| - 1].child !in Children(trace[..|trace| - 1])
  {
    var front, all := Children(trace[..|trace| - 1]), Children(trace);
    assert all == front + [trace[|trace| - 1].child];
    forall k | 0 <= k < |front|
      ensures front[k] != trace[|trace| - 1].child
    {
      assert all[k] == front[k] && all[|front|] == trace[|trace| - 1].child;
    }
  }

  lemma FrontHasNoRepeats(trace: seq<Event>)
    requires trace != [] && NoRepeats(Children(trace))
    ensures NoRepeats(Children(trace[..|trace| - 1]))
  {
    var front := Children(trace[..|trace| - 1]);
    assert forall k | 0 <= k < |front| :: Children(trace)[k] == front[k];
  }

  /** A child that is reaped only once is reaped by one event. */
  lemma {:induction false} OneReap(trace: seq<Event>, i: nat, j: nat)
    requires i <= j < |trace| && trace[i].Reaped? && trace[j].Reaped? && trace[i].child == trace[j].child
    requires NoRepeats(Children(trace))
    ensures i == j
    decreases |trace|
  {
    var front, n := trace[..|trace| - 1], |trace| - 1;
    if j < n {
      FrontHasNoRepeats(trace);
      OneReap(front, i, j);
    } else if i < n {
      LastIsNew(trace);
      ReapedIsChild(front, i);
      assert false;
    }
  }

  /** At the end of a run every value ran cleanly if and only if no fork and no child failed and none was left out. */
  lemma CleanIff(os: System, values: seq<string>, tried: nat)
    requires os.Valid() && os.live == {} && tried <= |values| && Tried(os.trace) == values[..tried]
    ensures AllRanCleanly(os.trace, values) <==>
            ExitCode(os.trace) == 0 && tried == |values| && !SawForkFail(os.trace)
  {
    var trace := os.trace;
    StartedIsTried(trace);
    ExitCodeExtends(trace, ForkFailed(""));
    if AllRanCleanly(trace, values) {
      forall i: nat | i < |trace|
        ensures !IsFailure(trace[i])
      {
        if trace[i].Reaped? {
          ReapedIsChild(trace, i);
          assert EndedCleanly(trace, trace[i].child);
          var j: nat :| j < |trace| && trace[j].Reaped? && trace[j].child == trace[i].child && trace[j].status == Clean;
          OneReap(trace, if i < j then i else j, if i < j then j else i);
        }
      }
    } else if !Failed(trace) && tried == |values| && !SawForkFail(trace) {
      assert values[..tried] == values;
      forall c: nat | c < |values|
        ensures EndedCleanly(trace, c)
      {
        var i := ChildIsReaped(trace, c);
        assert !IsFailure(trace[i]) && trace[i].status == Clean;
      }
    }
  }
}
