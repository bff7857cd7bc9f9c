/** The queues of retired frames and detached chunks over whole runs: first come, first
    served, and within a bounded time. */
module RcQueues {
  import opened Wrappers
  import opened RcHeap
  import opened RcMachine
  import opened RcInvariant
  import opened RcMutator
  import opened RcDebt
  import opened RcFairness
  import opened RcProgress
  import R = RcRuns

  /** A queued frame or chunk: what stays the same while it is worked off, and the
      written indices or the values still to drop. */
  datatype Job = FrameJob(frame: Frame, left: seq<nat>) | ChunkJob(left: seq<nat>)

  function FrameJobs(frames: seq<Frame>): (jobs: seq<Job>)
    ensures |jobs| == |frames|
    ensures forall k :: 0 <= k < |jobs| ==> jobs[k] == FrameJob(frames[k].(written := []), frames[k].written)
  {
    if frames == [] then [] else [FrameJob(frames[0].(written := []), frames[0].written)] + FrameJobs(frames[1..])
  }

  function ChunkJobs(chunks: seq<seq<Ref>>): (jobs: seq<Job>)
    ensures |jobs| == |chunks| && forall k :: 0 <= k < |jobs| ==> jobs[k] == ChunkJob(chunks[k])
  {
    if chunks == [] then [] else [ChunkJob(chunks[0])] + ChunkJobs(chunks[1..])
  }

  /** Queue 1 holds retired frames and queue 2 detached chunks; the head is served. */
  function Queue(s: State, q: nat): seq<Job> { if q == 1 then FrameJobs(s.retired) else ChunkJobs(s.chunks) }

  /** A drop for everything left in each, and the retirement of each. */
  function Effort(jobs: seq<Job>): nat {
    if jobs == [] then 0 else |jobs[0].left| + 1 + Effort(jobs[1..])
  }

  /** That is their part of the debt. */
  lemma {:induction false} EffortIsDebt(frames: seq<Frame>, chunks: seq<seq<Ref>>)
    ensures Effort(FrameJobs(frames)) == FramesDebt(frames)
    ensures Effort(ChunkJobs(chunks)) == ChunksDebt(chunks)
    decreases |frames| + |chunks|
  {
    if frames != [] { EffortIsDebt(frames[1..], []); assert FrameJobs(frames)[1..] == FrameJobs(frames[1..]); }
    if chunks != [] { EffortIsDebt([], chunks[1..]); assert ChunkJobs(chunks)[1..] == ChunkJobs(chunks[1..]); }
  }

  /** What the head's turn does to a queue. */
  function Serve(jobs: seq<Job>): seq<Job>
    requires jobs != []
  {
    var job := jobs[0];
    if job.left == [] then jobs[1..] else [job.(left := job.left[..|job.left| - 1])] + jobs[1..]
  }

  lemma FrameServed(s: State)
    requires s.retired != []
    ensures Queue(FrameUnit(s), 1) == Serve(Queue(s, 1))
  {
    hide Drop;
    var f := s.retired[0];
    if f.written != [] {
      var n := |f.written| - 1;
      var t := s.(retired := [f.(written := f.written[..n])] + s.retired[1..]);
      DropKeepsQueue(t, LocalValue(f, f.written[n]));
      assert Queue(t, 1) == Serve(Queue(s, 1));
    } else {
      assert Queue(FrameUnit(s), 1) == Serve(Queue(s, 1));
    }
  }

  lemma ChunkServed(s: State)
    requires s.chunks != []
    ensures Queue(ChunkUnit(s), 2) == Serve(Queue(s, 2))
  {
    hide Drop;
    var c := s.chunks[0];
    if c != [] {
      var n := |c| - 1;
      var t := s.(chunks := [c[..n]] + s.chunks[1..]);
      DropKeepsQueue(t, Some(c[n]));
      assert Queue(t, 2) == Serve(Queue(s, 2));
    } else {
      assert Queue(ChunkUnit(s), 2) == Serve(Queue(s, 2));
    }
  }

  /** Units until queue `q` has its turn, if every queue is ready. */
  function TurnsTo(s: State, q: nat): nat { (q + 3 - s.nextQueue % 3) % 3 }

  /** A unit either serves a waiting queue or brings its turn nearer. */
  lemma UnitServes(s: State, q: nat)
    requires s.nextQueue < 3 && (q == 1 || q == 2) && Queue(s, q) != []
    ensures var t := Unit(s);
      if Pick(s) == q then Queue(t, q) == Serve(Queue(s, q))
      else Queue(t, q) == Queue(s, q) && TurnsTo(t, q) < TurnsTo(s, q)
  {
    hide ObjectUnit, FrameUnit, ChunkUnit, Serve;
    var t := s.(nextQueue := (Pick(s) + 1) % 3);
    UnitNextQueue(s);
    ObjectKeepsQueue(t);
    FrameKeepsQueue(t);
    assert Ready(s, q);
    if Pick(s) == 1 && q == 1 { FrameServed(t); }
    if Pick(s) == 2 && q == 2 { ChunkServed(t); }
  }

  /** The program itself only adds behind. */
  lemma ProgramAdds(w: R.World, e: R.Event, q: nat)
    requires R.Allowed(w, e) && !e.Tick?
    ensures Queue(w.s, q) <= Queue(R.Next(w, e).s, q) && R.Next(w, e).s.nextQueue == w.s.nextQueue
  {
    var s, t := w.s, R.Next(w, e).s;
    assert s.retired <= t.retired && s.chunks <= t.chunks && s.nextQueue == t.nextQueue by {
      hide Drop, StoreIn, MoveFrom, KeepIn, R.Owns, Kinded;
      if e.Release? { DropKeepsQueue(s, e.v); }
    }
  }

  /* ---- whole runs ---- */

  /** How many were retired from the queue between two points of a run. */
  function Retired(ws: seq<R.World>, q: nat, i: nat, j: nat): nat
    requires i <= j < |ws|
  {
    if i == j then 0
    else Retired(ws, q, i, j - 1) + (if |Queue(ws[j].s, q)| < |Queue(ws[j - 1].s, q)| then 1 else 0)
  }

  /** After `n` retirements the others of `jobs` lead the queue in their order, and only
      the first of them may have been begun. */
  predicate Leads(jobs: seq<Job>, n: nat, later: seq<Job>) {
    n < |jobs| ==>
      && |jobs| - n <= |later|
      && later[0] == jobs[n].(left := later[0].left) && later[0].left <= jobs[n].left
      && forall k :: n < k < |jobs| ==> later[k - n] == jobs[k]
  }

  lemma LeadsServed(jobs: seq<Job>, n: nat, later: seq<Job>)
    requires Leads(jobs, n, later) && later != []
    ensures Leads(jobs, if later[0].left == [] then n + 1 else n, Serve(later))
  {
    if later[0].left == [] && n + 1 < |jobs| { assert later[1] == jobs[n + 1]; }
  }

  /** A tick serves a waiting queue, or brings its turn nearer. */
  lemma TickServes(w: R.World, q: nat)
    requires Inv(w.s, w.held) && (q == 1 || q == 2) && Queue(w.s, q) != []
    ensures var t := R.Next(w, R.Tick).s;
      Queue(t, q) == Serve(Queue(w.s, q)) || (Queue(t, q) == Queue(w.s, q) && TurnsTo(t, q) < TurnsTo(w.s, q))
  {
    assert w.s.pending != 0 && w.s.nextQueue < 3;
    hide Inv, Unit, Queue, Serve;
    UnitServes(w.s, q);
  }

  lemma TickEmpty(w: R.World, q: nat)
    requires Queue(w.s, q) == []
    ensures |Queue(R.Next(w, R.Tick).s, q)| >= |Queue(w.s, q)|
  {
  }

  /** First come, first served, in any run: what was queued leaves in its order, and
      what comes later stays behind it. */
  lemma {:induction false} ServedInOrder(ws: seq<R.World>, es: seq<R.Event>, i: nat, j: nat, q: nat)
    requires R.Run(ws, es) && i <= j < |ws| && (q == 1 || q == 2)
    ensures Leads(Queue(ws[i].s, q), Retired(ws, q, i, j), Queue(ws[j].s, q))
    decreases j
  {
    hide Inv, R.Allowed, R.Next, Queue, Serve, Leads;
    if i == j {
      LeadsItself(Queue(ws[i].s, q));
    } else {
      ServedInOrder(ws, es, i, j - 1, q);
      R.RunInv(ws, es, j - 1);
      var w, e := ws[j - 1], es[j - 1];
      var jobs, n, before, after := Queue(ws[i].s, q), Retired(ws, q, i, j - 1), Queue(w.s, q), Queue(ws[j].s, q);
      if e.Tick? && before != [] {
        TickServes(w, q);
        LeadsServed(jobs, n, before);
        ServeLength(before);
      } else {
        if e.Tick? { TickEmpty(w, q); LeadsNothing(jobs, n, before, after); }
        else { ProgramAdds(w, e, q); LeadsLonger(jobs, n, before, after); }
      }
    }
  }

  lemma LeadsItself(jobs: seq<Job>)
    ensures Leads(jobs, 0, jobs)
  {
  }

  lemma LeadsLonger(jobs: seq<Job>, n: nat, before: seq<Job>, after: seq<Job>)
    requires Leads(jobs, n, before) && before <= after
    ensures Leads(jobs, n, after)
  {
    if n < |jobs| { assert after[0] == before[0]; }
    forall k | n < k < |jobs| ensures after[k - n] == jobs[k] { assert after[k - n] == before[k - n]; }
  }

  lemma LeadsNothing(jobs: seq<Job>, n: nat, before: seq<Job>, after: seq<Job>)
    requires Leads(jobs, n, before) && before == []
    ensures Leads(jobs, n, after)
  {
  }

  lemma ServeLength(jobs: seq<Job>)
    requires jobs != []
    ensures |Serve(jobs)| < |jobs| <==> jobs[0].left == []
  {
  }

  /* ---- bounded waiting ---- */

  /** Units of cleanup that are sure to retire the first `m` of a queue. */
  function Bound(s: State, q: nat, m: nat): int
    requires m <= |Queue(s, q)|
  {
    3 * (Effort(Queue(s, q)[..m]) - 1) + TurnsTo(s, q) + 1
  }

  lemma EffortServed(jobs: seq<Job>, m: nat)
    requires 0 < m <= |jobs|
    ensures var m' := if jobs[0].left == [] then m - 1 else m;
      m' <= |Serve(jobs)| && Effort(Serve(jobs)[..m']) == Effort(jobs[..m]) - 1 && (m' > 0 ==> Effort(jobs[..m]) > 1)
  {
    assert jobs[..m][1..] == jobs[1..][..m - 1];
    if jobs[0].left != [] {
      assert Serve(jobs)[..m][1..] == jobs[1..][..m - 1];
    } else {
      assert Serve(jobs)[..m - 1] == jobs[1..][..m - 1];
      if m > 1 { assert jobs[..m][1..] != []; }
    }
  }

  lemma SomeEffort(jobs: seq<Job>, m: nat)
    requires 0 < m <= |jobs|
    ensures Effort(jobs[..m]) > 0
  {
  }

  /** Each event leaves the first `m` no further from their end, and a tick brings them
      nearer. */
  lemma EventBound(w: R.World, e: R.Event, q: nat, m: nat)
    requires Inv(w.s, w.held) && R.Allowed(w, e) && (q == 1 || q == 2) && 0 < m <= |Queue(w.s, q)|
    ensures var t := R.Next(w, e).s;
      var m' := if |Queue(t, q)| < |Queue(w.s, q)| then m - 1 else m;
      m' <= |Queue(t, q)| && Bound(t, q, m') + (if e.Tick? then 1 else 0) <= Bound(w.s, q, m)
  {
    hide Inv, R.Allowed, R.Next, Queue, Serve, Effort;
    var jobs, t := Queue(w.s, q), R.Next(w, e).s;
    if e.Tick? {
      TickServes(w, q);
      ServeLength(jobs);
      EffortServed(jobs, m);
    } else {
      ProgramAdds(w, e, q);
      assert Queue(t, q)[..m] == jobs[..m];
    }
  }

  lemma {:induction false} StillQueued(ws: seq<R.World>, es: seq<R.Event>, i: nat, j: nat, q: nat, k: nat)
    requires R.Run(ws, es) && i <= j < |ws| && (q == 1 || q == 2) && k < |Queue(ws[i].s, q)|
    requires Retired(ws, q, i, j) <= k
    ensures var m := k + 1 - Retired(ws, q, i, j);
      m <= |Queue(ws[j].s, q)| && Bound(ws[j].s, q, m) + Ticks(es[i..j]) <= Bound(ws[i].s, q, k + 1)
    decreases j
  {
    hide Inv, R.Allowed, R.Next, Queue, Bound;
    if i < j {
      StillQueued(ws, es, i, j - 1, q, k);
      R.RunInv(ws, es, j - 1);
      EventBound(ws[j - 1], es[j - 1], q, k + 1 - Retired(ws, q, i, j - 1));
      assert es[i..j][..j - 1 - i] == es[i..j - 1];
    } else {
      assert es[i..j] == [];
    }
  }

  /** Bounded waiting in any run: three times the debt of a queued frame or chunk and of
      those before it, in units of cleanup, see it and them gone, whatever the program
      queues or releases between the units. */
  lemma {:induction false} GoneInRun(ws: seq<R.World>, es: seq<R.Event>, i: nat, j: nat, q: nat, k: nat)
    requires R.Run(ws, es) && i <= j < |ws| && (q == 1 || q == 2) && k < |Queue(ws[i].s, q)|
    requires Ticks(es[i..j]) >= 3 * Effort(Queue(ws[i].s, q)[..k + 1])
    ensures Retired(ws, q, i, j) > k
  {
    hide Queue, Ticks, Effort, Retired, R.Run;
    if Retired(ws, q, i, j) <= k {
      StillQueued(ws, es, i, j, q, k);
      SomeEffort(Queue(ws[j].s, q), k + 1 - Retired(ws, q, i, j));
    }
  }

  /** A frame left takes its place behind every frame already queued, and three times
      their debt and its own sees it gone. */
  lemma {:induction false} LeftInRun(ws: seq<R.World>, es: seq<R.Event>, i: nat, j: nat)
    requires R.Run(ws, es) && i < j < |ws| && es[i].LeaveFrame? && ws[i].s.frames != []
    ensures var f := ws[i].s.frames[0];
      ws[i + 1].s.retired == ws[i].s.retired + [f.(chunks := [], kept := if f.chunks == [] then f.kept else 0)]
    ensures Ticks(es[i + 1..j]) >= 3 * FramesDebt(ws[i + 1].s.retired)
        ==> Retired(ws, 1, i + 1, j) > |ws[i].s.retired|
  {
    assert R.Allowed(ws[i], es[i]) && ws[i + 1] == R.Next(ws[i], es[i]);
    var s, f := ws[i + 1].s, ws[i].s.frames[0];
    assert s.retired == ws[i].s.retired + [f.(chunks := [], kept := if f.chunks == [] then f.kept else 0)];
    hide Ticks, Retired, R.Run, R.Next, R.Allowed;
    assert Queue(s, 1)[..|s.retired|] == Queue(s, 1);
    EffortIsDebt(s.retired, []);
    if Ticks(es[i + 1..j]) >= 3 * FramesDebt(s.retired) { GoneInRun(ws, es, i + 1, j, 1, |s.retired| - 1); }
  }

  /** So do the temporaries of a step or of a frame left: behind all detached before, in
      their own order, and three times the debt up to the last of them sees them gone. */
  lemma {:induction false} DetachedInRun(ws: seq<R.World>, es: seq<R.Event>, i: nat, j: nat)
    requires R.Run(ws, es) && i < j < |ws| && (es[i].StepFrame? || es[i].LeaveFrame?) && ws[i].s.frames != []
    ensures ws[i + 1].s.chunks == ws[i].s.chunks + ws[i].s.frames[0].chunks
    ensures Ticks(es[i + 1..j]) >= 3 * ChunksDebt(ws[i + 1].s.chunks)
        ==> Retired(ws, 2, i + 1, j) >= |ws[i + 1].s.chunks|
  {
    assert R.Allowed(ws[i], es[i]) && ws[i + 1] == R.Next(ws[i], es[i]);
    var s := ws[i + 1].s;
    assert s.chunks == ws[i].s.chunks + ws[i].s.frames[0].chunks;
    hide Ticks, Retired, R.Run, R.Next, R.Allowed;
    assert Queue(s, 2)[..|s.chunks|] == Queue(s, 2);
    EffortIsDebt([], s.chunks);
    if s.chunks != [] && Ticks(es[i + 1..j]) >= 3 * ChunksDebt(s.chunks) {
      GoneInRun(ws, es, i + 1, j, 2, |s.chunks| - 1);
    }
  }
}
