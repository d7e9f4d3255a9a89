/** What a run of the kernel tells about its past. */
module KernelHistory {
  import opened KernelKeeps
  import opened KernelRuns
  import opened KernelSteps
  import opened Loader
  import opened Paging
  import opened TaskLedger
  import opened TaskTable
  import SchedulerRuns

  /** What a request means to the scheduler. */
  function EventsOf(r: Request, o: Outcome): seq<SchedulerRuns.Event> {
    if o == Skipped then []
    else if r.Create? then [SchedulerRuns.OnSpawn(r.blank)]
    else if r.Call? then [r.event]
    else []
  }

  function Events(requests: seq<Request>, outcomes: seq<Outcome>): seq<SchedulerRuns.Event>
    requires |outcomes| <= |requests|
  {
    if outcomes == [] then []
    else EventsOf(requests[0], outcomes[0]) + Events(requests[1..], outcomes[1..])
  }

  lemma RunTail(frames: Frames, trace: seq<Snapshot>, requests: seq<Request>, outcomes: seq<Outcome>)
    requires IsRun(frames, trace, requests, outcomes) && outcomes != []
    ensures IsRun(frames, trace[1..], requests[1..], outcomes[1..]) && KernelSound(frames, trace[0])
    ensures Answered(frames, trace[0], requests[0], outcomes[0], trace[1])
  {
    hide KernelSound, Answered, Asked;
    forall k | 0 <= k < |outcomes[1..]|
      ensures Answered(frames, trace[1..][k], requests[1..][k], outcomes[1..][k], trace[1..][k + 1])
    {
      assert outcomes[1..][k] == outcomes[k + 1];
    }
  }

  lemma RunFacts(frames: Frames, trace: seq<Snapshot>, requests: seq<Request>, outcomes: seq<Outcome>, k: int)
    requires IsRun(frames, trace, requests, outcomes) && 0 <= k <= |outcomes|
    ensures |trace| == |outcomes| + 1 && |outcomes| <= |requests| && KernelSound(frames, trace[k])
    ensures k < |outcomes| ==> Asked(requests[k]) && Answered(frames, trace[k], requests[k], outcomes[k], trace[k + 1])
  {
    hide KernelSound, Answered, Asked;
    assert k < |outcomes| ==> outcomes[k] == outcomes[k] && requests[k] == requests[k];
  }

  /** A run with one more event in front. */
  lemma OneInFront(s: Table, e: SchedulerRuns.Event, rest: seq<SchedulerRuns.Event>)
    requires SchedulerRuns.Good(s) && SchedulerRuns.Legal(s, e) && SchedulerRuns.Good(SchedulerRuns.Step(s, e))
    requires SchedulerRuns.LegalRun(SchedulerRuns.Step(s, e), rest)
    ensures SchedulerRuns.LegalRun(s, [e] + rest)
    ensures SchedulerRuns.Trace(s, [e] + rest) == [s] + SchedulerRuns.Trace(SchedulerRuns.Step(s, e), rest)
  {
    hide SchedulerRuns.Good, SchedulerRuns.Legal, SchedulerRuns.Step;
    assert ([e] + rest)[0] == e && ([e] + rest)[1..] == rest;
    SchedulerRuns.StepGood(s, e);
  }

  lemma TableStep(frames: Frames, s: Snapshot, r: Request, o: Outcome, s': Snapshot)
    requires KernelSound(frames, s) && Answered(frames, s, r, o, s') && Asked(r)
    ensures SchedulerRuns.Good(s.table)
    ensures var es := EventsOf(r, o);
            if es == [] then s'.table == s.table
            else es == [es[0]] && SchedulerRuns.Legal(s.table, es[0]) && s'.table == SchedulerRuns.Step(s.table, es[0])
  {
    CurrentSpace(frames, s);
  }

  /** The task tables of a run are a run of the scheduler, so that what holds over every run of it holds here. */
  lemma {:induction false} TablesAreARun(frames: Frames, trace: seq<Snapshot>, requests: seq<Request>,
                                         outcomes: seq<Outcome>)
    requires IsRun(frames, trace, requests, outcomes)
    ensures SchedulerRuns.Good(trace[0].table)
    ensures var es := Events(requests, outcomes);
            && SchedulerRuns.LegalRun(trace[0].table, es)
            && SchedulerRuns.Trace(trace[0].table, es)[|es|] == trace[|outcomes|].table
    decreases |outcomes|
  {
    hide KernelSound, Answered, Asked, IsRun, SchedulerRuns.Good, SchedulerRuns.Legal, SchedulerRuns.Step, EventsOf;
    RunFacts(frames, trace, requests, outcomes, 0);
    SoundTable(frames, trace[0]);
    if outcomes != [] {
      RunTail(frames, trace, requests, outcomes);
      TableStep(frames, trace[0], requests[0], outcomes[0], trace[1]);
      TablesAreARun(frames, trace[1..], requests[1..], outcomes[1..]);
      var es, rest := EventsOf(requests[0], outcomes[0]), Events(requests[1..], outcomes[1..]);
      assert Events(requests, outcomes) == es + rest;
      if es == [] {
        assert es + rest == rest;
      } else {
        OneInFront(trace[0].table, es[0], rest);
      }
    }
  }

  lemma SoundTable(frames: Frames, s: Snapshot)
    requires KernelSound(frames, s)
    ensures SchedulerRuns.Good(s.table)
  {
  }

  /** From state `k` on the task reads this image. */
  ghost predicate ReadsSince(trace: seq<Snapshot>, u: int, k: int, loads: seq<Load>) {
    forall j {:trigger trace[j]} :: 0 <= k <= j < |trace| ==> u in trace[j].images && trace[j].images[u] == loads
  }

  /** Request `k` created task `u` with this image. */
  ghost predicate CreatedBy(requests: seq<Request>, outcomes: seq<Outcome>, k: int, u: int, loads: seq<Load>) {
    && 0 <= k < |outcomes| <= |requests| && requests[k].Create? && requests[k].loads == loads
    && outcomes[k].NewTask? && outcomes[k].pid == u
  }

  /** A request gives an image only to the task it creates, and changes none. */
  lemma ImagesStep(frames: Frames, s: Snapshot, r: Request, o: Outcome, s': Snapshot, u: int)
    requires KernelSound(frames, s) && Answered(frames, s, r, o, s') && u in s'.images
    ensures (u in s.images && s'.images[u] == s.images[u])
         || (r.Create? && o.NewTask? && o.pid == u && s'.images[u] == r.loads)
  {
    CurrentSpace(frames, s);
    hide KernelSound, Complete, Increased, Reserved;
  }

  /** The task has had this image since it was created, or all along. */
  ghost predicate HadSince(trace: seq<Snapshot>, requests: seq<Request>, outcomes: seq<Outcome>, u: int,
                           loads: seq<Load>) {
    || ReadsSince(trace, u, 0, loads)
    || exists k {:trigger CreatedBy(requests, outcomes, k, u, loads)} ::
         CreatedBy(requests, outcomes, k, u, loads) && ReadsSince(trace, u, k + 1, loads)
  }

  /** Each living user task reads the image it was created with, and has read it in every state since. */
  lemma {:induction false} ImagesHistory(frames: Frames, trace: seq<Snapshot>, requests: seq<Request>,
                                         outcomes: seq<Outcome>, u: int)
    requires IsRun(frames, trace, requests, outcomes) && u in trace[|outcomes|].images
    ensures HadSince(trace, requests, outcomes, u, trace[|outcomes|].images[u])
    decreases |outcomes|
  {
    hide KernelSound, Answered, Asked, IsRun, HadSince;
    var n := |outcomes|;
    RunFacts(frames, trace, requests, outcomes, n);
    var loads := trace[n].images[u];
    if n == 0 {
      AtFirst(trace, requests, outcomes, u, loads);
    } else {
      RunFacts(frames, trace, requests, outcomes, n - 1);
      ImagesStep(frames, trace[n - 1], requests[n - 1], outcomes[n - 1], trace[n], u);
      if u in trace[n - 1].images && trace[n - 1].images[u] == loads {
        RunHead(frames, trace, requests, outcomes);
        ImagesHistory(frames, trace[..n], requests, outcomes[..n - 1], u);
        StillSince(trace, requests, outcomes, u, loads);
      } else {
        JustCreated(trace, requests, outcomes, u, loads);
      }
    }
  }

  lemma AtFirst(trace: seq<Snapshot>, requests: seq<Request>, outcomes: seq<Outcome>, u: int, loads: seq<Load>)
    requires |trace| == 1 && u in trace[0].images && trace[0].images[u] == loads
    ensures HadSince(trace, requests, outcomes, u, loads)
  {
  }

  lemma JustCreated(trace: seq<Snapshot>, requests: seq<Request>, outcomes: seq<Outcome>, u: int, loads: seq<Load>)
    requires |trace| == |outcomes| + 1 && CreatedBy(requests, outcomes, |outcomes| - 1, u, loads)
    requires u in trace[|outcomes|].images && trace[|outcomes|].images[u] == loads
    ensures HadSince(trace, requests, outcomes, u, loads)
  {
    assert ReadsSince(trace, u, |outcomes| - 1 + 1, loads);
  }

  lemma RunHead(frames: Frames, trace: seq<Snapshot>, requests: seq<Request>, outcomes: seq<Outcome>)
    requires IsRun(frames, trace, requests, outcomes) && outcomes != []
    ensures IsRun(frames, trace[..|outcomes|], requests, outcomes[..|outcomes| - 1])
  {
    hide KernelSound, Answered, Asked;
    var n := |outcomes|;
    forall k | 0 <= k < n - 1
      ensures Answered(frames, trace[..n][k], requests[k], outcomes[..n - 1][k], trace[..n][k + 1])
    {
      assert outcomes[..n - 1][k] == outcomes[k];
    }
  }

  lemma StillSince(trace: seq<Snapshot>, requests: seq<Request>, outcomes: seq<Outcome>, u: int, loads: seq<Load>)
    requires |trace| == |outcomes| + 1 && outcomes != [] && |outcomes| <= |requests|
    requires u in trace[|outcomes|].images && trace[|outcomes|].images[u] == loads
    requires HadSince(trace[..|outcomes|], requests, outcomes[..|outcomes| - 1], u, loads)
    ensures HadSince(trace, requests, outcomes, u, loads)
  {
    var n := |outcomes|;
    assert forall j :: 0 <= j < n ==> trace[..n][j] == trace[j];
    if !ReadsSince(trace[..n], u, 0, loads) {
      var k :| CreatedBy(requests, outcomes[..n - 1], k, u, loads) && ReadsSince(trace[..n], u, k + 1, loads);
      assert CreatedBy(requests, outcomes, k, u, loads) && ReadsSince(trace, u, k + 1, loads);
    }
  }

  /** The task holds memory in every state of the run, and does not grow in the kernel's part. */
  ghost predicate StaysPut(trace: seq<Snapshot>, requests: seq<Request>, u: int) {
    && |trace| <= |requests| + 1
    && (forall k {:trigger trace[k]} :: 0 <= k < |trace| ==>
          0 <= u < |trace[k].world.tasks| && trace[k].world.tasks[u].live)
    && forall k {:trigger requests[k]} :: 0 <= k < |trace| - 1 && requests[k].Grow? && requests[k].pid == u ==>
         KERNEL_END <= trace[k].world.tasks[u].end
  }

  lemma DonorStep(frames: Frames, trace: seq<Snapshot>, requests: seq<Request>, outcomes: seq<Outcome>, u: int)
    requires IsRun(frames, trace, requests, outcomes) && outcomes != [] && StaysPut(trace, requests, u)
    requires Donor(trace[0].world.ram, trace[0].world.owner, trace[0].world.tasks[u].cr3)
    ensures Donor(trace[1].world.ram, trace[1].world.owner, trace[1].world.tasks[u].cr3)
    ensures StaysPut(trace[1..], requests[1..], u)
  {
    hide KernelSound, Answered, Asked, IsRun, Donor;
    RunFacts(frames, trace, requests, outcomes, 0);
    RunFacts(frames, trace, requests, outcomes, 1);
    HoldersSound(frames, trace[1]);
    assert requests[0] == requests[0] && trace[1] == trace[1];
    StepSharing(frames, trace[0], requests[0], outcomes[0], trace[1], u);
    forall k | 0 <= k < |trace| - 2 && requests[1..][k].Grow? && requests[1..][k].pid == u
      ensures KERNEL_END <= trace[1..][k].world.tasks[u].end
    {
      assert requests[1..][k] == requests[k + 1];
    }
  }

  /** Along a run a directory that may be copied stays so, as long as its task lives and does not grow in the
      kernel's part; the kernel's own does in any case. */
  lemma {:induction false} DonorHistory(frames: Frames, trace: seq<Snapshot>, requests: seq<Request>,
                                        outcomes: seq<Outcome>, u: int)
    requires IsRun(frames, trace, requests, outcomes) && StaysPut(trace, requests, u)
    requires |trace| > 0 && Donor(trace[0].world.ram, trace[0].world.owner, trace[0].world.tasks[u].cr3)
    ensures var w := trace[|outcomes|].world; Donor(w.ram, w.owner, w.tasks[u].cr3)
    decreases |outcomes|
  {
    hide KernelSound, Answered, Asked, Donor;
    if outcomes != [] {
      DonorStep(frames, trace, requests, outcomes, u);
      RunTail(frames, trace, requests, outcomes);
      DonorHistory(frames, trace[1..], requests[1..], outcomes[1..], u);
    }
  }
}
