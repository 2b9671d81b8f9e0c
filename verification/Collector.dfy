// The garbage collector's protocol, step by step. Uploaders and copiers obtain a
// digest and only later lock and retain it; sweepers lock, delete an
// unreferenced row, unlink the file and commit; anyone may crash at any point,
// which rolls its transaction back and drops its lock but not its file changes.
module Collector {
  type Digest = string
  type Pid = nat

  datatype Phase =
    | Idle
    | Obtained(d: Digest)  // the file is on disk or was seen there; no lock yet
    | Locked(d: Digest)    // holds the blob lock, about to retain
    | Retained(d: Digest)  // reference added, not committed
    | Claiming(d: Digest)  // the sweeper holds the blob lock
    | Claimed(d: Digest)   // row with refcount 0 deleted, not committed
    | Unlinked(d: Digest)  // file removed, not committed
  {
    predicate HoldsLock(x: Digest) {
      (Locked? || Retained? || Claiming? || Claimed? || Unlinked?) && d == x
    }
  }

  // rows: the committed refcounts. Uncommitted changes live in the phases.
  datatype State = State(files: set<Digest>, rows: map<Digest, nat>, procs: map<Pid, Phase>) {
    function PhaseOf(p: Pid): Phase { if p in procs then procs[p] else Idle }

    function Count(d: Digest): nat { if d in rows then rows[d] else 0 }

    predicate Free(d: Digest) { forall p | p in procs :: !procs[p].HoldsLock(d) }

    function Move(p: Pid, phase: Phase): State { this.(procs := procs[p := phase]) }
  }

  datatype Step =
    | PutFile(p: Pid, d: Digest)      // rename into place, or dedupe onto the file
    | ReadSource(p: Pid, d: Digest)   // a copy reads a digest some row refers to
    | LockBlob(p: Pid)
    | Retain(p: Pid)
    | CommitRetain(p: Pid)
    | Release(d: Digest)              // another transaction drops a reference
    | LockClaim(p: Pid, d: Digest)
    | DeleteRow(p: Pid)
    | Unlink(p: Pid)
    | CommitClaim(p: Pid)
    | Crash(p: Pid)

  predicate Can(s: State, step: Step) {
    match step
    case PutFile(p, _) => s.PhaseOf(p).Idle?
    case ReadSource(p, d) => s.PhaseOf(p).Idle? && s.Count(d) > 0
    case LockBlob(p) => s.PhaseOf(p).Obtained? && s.Free(s.PhaseOf(p).d)
    case Retain(p) => s.PhaseOf(p).Locked?
    case CommitRetain(p) => s.PhaseOf(p).Retained?
    case Release(d) => s.Count(d) > 0
    case LockClaim(p, d) => s.PhaseOf(p).Idle? && s.Free(d)
    case DeleteRow(p) => s.PhaseOf(p).Claiming?
    case Unlink(p) => s.PhaseOf(p).Claimed?
    case CommitClaim(p) => s.PhaseOf(p).Unlinked?
    case Crash(p) => true
  }

  function Next(s: State, step: Step): State
    requires Can(s, step)
  {
    match step
    case PutFile(p, d) => s.(files := s.files + {d}).Move(p, Obtained(d))
    case ReadSource(p, d) => s.Move(p, Obtained(d))
    case LockBlob(p) => s.Move(p, Locked(s.PhaseOf(p).d))
    case Retain(p) => s.Move(p, Retained(s.PhaseOf(p).d))
    case CommitRetain(p) =>
      var d := s.PhaseOf(p).d;
      s.(rows := s.rows[d := s.Count(d) + 1]).Move(p, Idle)
    case Release(d) => s.(rows := s.rows[d := s.Count(d) - 1])
    case LockClaim(p, d) => s.Move(p, Claiming(d))
    case DeleteRow(p) =>
      var d := s.PhaseOf(p).d;
      s.Move(p, if d in s.rows && s.rows[d] == 0 then Claimed(d) else Idle)
    case Unlink(p) =>
      var d := s.PhaseOf(p).d;
      s.(files := s.files - {d}).Move(p, Unlinked(d))
    case CommitClaim(p) =>
      s.(rows := s.rows - {s.PhaseOf(p).d}).Move(p, Idle)
    case Crash(p) => s.Move(p, Idle)
  }

  // No one sits between obtaining d and locking it.
  ghost predicate WindowClear(s: State, d: Digest) {
    forall p :: s.PhaseOf(p) != Obtained(d)
  }

  // The one assumption: a file is unlinked only while its window is clear.
  ghost predicate Guarded(s: State, step: Step) {
    Can(s, step) && (step.Unlink? ==> WindowClear(s, s.PhaseOf(step.p).d))
  }

  ghost predicate GuardedRun(s: State, steps: seq<Step>)
    decreases |steps|
  {
    steps == [] || (Guarded(s, steps[0]) && GuardedRun(Next(s, steps[0]), steps[1..]))
  }

  ghost function Final(s: State, steps: seq<Step>): State
    requires GuardedRun(s, steps)
    decreases |steps|
  {
    if steps == [] then s else Final(Next(s, steps[0]), steps[1..])
  }

  // Every digest a committed row refers to has its file.
  ghost predicate Safe(s: State) {
    forall d :: s.Count(d) > 0 ==> d in s.files
  }

  ghost predicate Inv(s: State) {
    && Safe(s)
    && (forall p :: s.PhaseOf(p).Obtained? || s.PhaseOf(p).Locked? || s.PhaseOf(p).Retained?
                    ==> s.PhaseOf(p).d in s.files)
    && (forall p :: s.PhaseOf(p).Claimed? || s.PhaseOf(p).Unlinked? ==> s.Count(s.PhaseOf(p).d) == 0)
    && (forall p, q, d :: s.PhaseOf(p).HoldsLock(d) && s.PhaseOf(q).HoldsLock(d) ==> p == q)
  }

  const EMPTY := State({}, map[], map[])

  lemma InitialInv()
    ensures Inv(EMPTY)
  {
  }

  // The lock of a digest has one holder.
  lemma SoleHolder(s: State, p: Pid, d: Digest)
    requires Inv(s) && s.PhaseOf(p).HoldsLock(d)
    ensures forall q :: q != p ==> !s.PhaseOf(q).HoldsLock(d)
  {
  }

  // Steps that change no file and no committed row.
  lemma PhaseStepKeepsInv(s: State, step: Step)
    requires Inv(s) && Guarded(s, step)
    requires !step.PutFile? && !step.CommitRetain? && !step.Release? && !step.Unlink? && !step.CommitClaim?
    ensures Inv(Next(s, step))
  {
    var s' := Next(s, step);
    assert forall q :: q != step.p ==> s'.PhaseOf(q) == s.PhaseOf(q);
    assert forall d :: s.Free(d) ==> forall q :: !s.PhaseOf(q).HoldsLock(d);
  }

  lemma GuardedStepKeepsInv(s: State, step: Step)
    requires Inv(s) && Guarded(s, step)
    ensures Inv(Next(s, step))
  {
    var s' := Next(s, step);
    match step
    case PutFile(p, d) =>
      assert forall q :: q != p ==> s'.PhaseOf(q) == s.PhaseOf(q);
    case CommitRetain(p) =>
      SoleHolder(s, p, s.PhaseOf(p).d);
      assert forall q :: q != p ==> s'.PhaseOf(q) == s.PhaseOf(q);
    case Release(d) =>
      assert forall q :: s'.PhaseOf(q) == s.PhaseOf(q);
    case Unlink(p) =>
      SoleHolder(s, p, s.PhaseOf(p).d);
      assert forall q :: q != p ==> s'.PhaseOf(q) == s.PhaseOf(q);
    case CommitClaim(p) =>
      SoleHolder(s, p, s.PhaseOf(p).d);
      assert forall q :: q != p ==> s'.PhaseOf(q) == s.PhaseOf(q);
    case _ =>
      PhaseStepKeepsInv(s, step);
  }

  // With any number of processes, in every interleaving, whoever crashes where.
  lemma {:induction false} GuardedRunsAreSafe(s: State, steps: seq<Step>)
    requires Inv(s) && GuardedRun(s, steps)
    ensures Inv(Final(s, steps)) && Safe(Final(s, steps))
    decreases |steps|
  {
    if steps != [] {
      GuardedStepKeepsInv(s, steps[0]);
      GuardedRunsAreSafe(Next(s, steps[0]), steps[1..]);
    }
  }

  // A crash undoes nothing that was committed or done to a file, and frees the lock.
  lemma CrashOnlyFrees(s: State, p: Pid, d: Digest)
    requires Inv(s) && s.PhaseOf(p).HoldsLock(d)
    ensures
      var s' := Next(s, Crash(p));
      && s'.files == s.files && s'.rows == s.rows && s'.Free(d)
      && Can(s', LockClaim(p, d)) && forall q :: q != p ==> s'.PhaseOf(q) == s.PhaseOf(q)
  {
    SoleHolder(s, p, d);
    var s' := Next(s, Crash(p));
    forall q | q in s'.procs ensures !s'.procs[q].HoldsLock(d) {
      assert q != p ==> s'.PhaseOf(q) == s.PhaseOf(q);
    }
  }

  // A copy needs a reference to read from, and no lock.
  lemma CopiesCanStart(s: State, p: Pid, d: Digest)
    requires Inv(s) && s.PhaseOf(p).Idle?
    ensures Can(s, ReadSource(p, d)) <==> s.Count(d) > 0
    ensures s.Count(d) > 0 ==> Next(s, ReadSource(p, d)).PhaseOf(p) == Obtained(d) && d in s.files
  {
  }

  // The references to d that are committed along a run, less those given up.
  ghost function Gained(s: State, steps: seq<Step>, d: Digest): int
    requires GuardedRun(s, steps)
    decreases |steps|
  {
    if steps == [] then 0
    else
      (match steps[0]
       case CommitRetain(p) => if s.PhaseOf(p).d == d then 1 else 0
       case Release(other) => if other == d then -1 else 0
       case _ => 0) + Gained(Next(s, steps[0]), steps[1..], d)
  }

  // Neither sweeps nor crashes nor races change a count: it is what commits and
  // releases make of it.
  lemma {:induction false} CountsAreConserved(s: State, steps: seq<Step>, d: Digest)
    requires Inv(s) && GuardedRun(s, steps)
    ensures Final(s, steps).Count(d) == s.Count(d) + Gained(s, steps, d)
    decreases |steps|
  {
    if steps != [] {
      GuardedStepKeepsInv(s, steps[0]);
      CountsAreConserved(Next(s, steps[0]), steps[1..], d);
      hide Guarded, Safe;
      StepGains(s, steps[0], d);
    }
  }

  lemma StepGains(s: State, step: Step, d: Digest)
    requires Inv(s) && Can(s, step)
    ensures Next(s, step).Count(d) == s.Count(d) +
      match step
      case CommitRetain(p) => if s.PhaseOf(p).d == d then 1 else 0
      case Release(other) => if other == d then -1 else 0
      case _ => 0
  {
  }

  // The locks alone do not give the guard, and nothing weaker than the guard
  // will do: unlinking d is followed by safe states only, whatever happens
  // next, exactly when its window was clear.
  lemma UnlinkSafeIffWindowClear(s: State, p: Pid)
    requires Inv(s) && s.PhaseOf(p).Claimed?
    ensures
      (forall steps :: GuardedRun(Next(s, Unlink(p)), steps) ==> Safe(Final(Next(s, Unlink(p)), steps)))
      <==> WindowClear(s, s.PhaseOf(p).d)
  {
    var d, s1 := s.PhaseOf(p).d, Next(s, Unlink(p));
    if WindowClear(s, d) {
      GuardedStepKeepsInv(s, Unlink(p));
      forall steps | GuardedRun(s1, steps) ensures Safe(Final(s1, steps)) {
        GuardedRunsAreSafe(s1, steps);
      }
    } else {
      var q :| s.PhaseOf(q) == Obtained(d);
      DanglingReference(s, p, q);
    }
  }

  // The race itself: q saw the file, p unlinks it and commits, q retains it.
  lemma DanglingReference(s: State, p: Pid, q: Pid)
    requires Inv(s) && s.PhaseOf(p).Claimed? && s.PhaseOf(q) == Obtained(s.PhaseOf(p).d)
    ensures exists steps :: GuardedRun(Next(s, Unlink(p)), steps) && !Safe(Final(Next(s, Unlink(p)), steps))
  {
    var d, s1 := s.PhaseOf(p).d, Next(s, Unlink(p));
    SoleHolder(s, p, d);
    var s2 := Next(s1, CommitClaim(p));
    forall r | r in s2.procs ensures !s2.procs[r].HoldsLock(d) {
      assert r != p ==> s2.PhaseOf(r) == s.PhaseOf(r);
    }
    assert s2.Free(d);
    var s3 := Next(s2, LockBlob(q));
    var s4 := Next(s3, Retain(q));
    var s5 := Next(s4, CommitRetain(q));
    assert s5.Count(d) > 0 && d !in s5.files;
    Prepend(s4, CommitRetain(q), []);
    Prepend(s3, Retain(q), [CommitRetain(q)]);
    Prepend(s2, LockBlob(q), [Retain(q), CommitRetain(q)]);
    Prepend(s1, CommitClaim(p), [LockBlob(q), Retain(q), CommitRetain(q)]);
  }

  // Store d, refer to it and drop the reference; start collecting it; and upload
  // the same bytes again.
  function RaceRun(d: Digest): seq<Step> {
    [PutFile(0, d)] + ([LockBlob(0)] + ([Retain(0)] + ([CommitRetain(0)] + ([Release(d)] + RaceEnd(d)))))
  }

  function RaceEnd(d: Digest): seq<Step> {
    [LockClaim(1, d)] + ([DeleteRow(1)] + ([PutFile(2, d)] + []))
  }

  // From nothing at all, by guarded steps only, to where the next unlink is the
  // one that loses bytes.
  lemma RaceIsReachable(d: Digest)
    ensures GuardedRun(EMPTY, RaceRun(d))
    ensures
      var s := Final(EMPTY, RaceRun(d));
      && Inv(s) && s.PhaseOf(1) == Claimed(d) && s.PhaseOf(2) == Obtained(d)
      && exists steps :: GuardedRun(Next(s, Unlink(1)), steps) && !Safe(Final(Next(s, Unlink(1)), steps))
  {
    UploadIsDropped(d);
    CollectorClaims(d);
    hide Guarded, Next, GuardedRun, Final;
    var end := RaceEnd(d);
    Prepend(Sweeping(d, Claimed(d)), PutFile(2, d), []);
    Prepend(Sweeping(d, Claiming(d)), DeleteRow(1), [PutFile(2, d)] + []);
    Prepend(State({d}, map[d := 0], map[0 := Idle]), LockClaim(1, d), [DeleteRow(1)] + ([PutFile(2, d)] + []));
    Prepend(Referred(d, Idle), Release(d), end);
    Prepend(Uploading(d, Retained(d)), CommitRetain(0), [Release(d)] + end);
    Prepend(Uploading(d, Locked(d)), Retain(0), [CommitRetain(0)] + ([Release(d)] + end));
    Prepend(Uploading(d, Obtained(d)), LockBlob(0), [Retain(0)] + ([CommitRetain(0)] + ([Release(d)] + end)));
    Prepend(EMPTY, PutFile(0, d), [LockBlob(0)] + ([Retain(0)] + ([CommitRetain(0)] + ([Release(d)] + end))));
    InitialInv();
    GuardedRunsAreSafe(EMPTY, RaceRun(d));
    DanglingReference(Final(EMPTY, RaceRun(d)), 1, 2);
  }

  // The race's states, from the first upload to the second.
  function Uploading(d: Digest, phase: Phase): State {
    State({d}, map[], map[0 := phase])
  }

  function Referred(d: Digest, phase: Phase): State {
    State({d}, map[d := 1], map[0 := phase])
  }

  function Sweeping(d: Digest, phase: Phase): State {
    State({d}, map[d := 0], map[0 := Idle, 1 := phase])
  }

  lemma UploadIsDropped(d: Digest)
    ensures Guarded(EMPTY, PutFile(0, d)) && Next(EMPTY, PutFile(0, d)) == Uploading(d, Obtained(d))
    ensures
      var s := Uploading(d, Obtained(d));
      Guarded(s, LockBlob(0)) && Next(s, LockBlob(0)) == Uploading(d, Locked(d))
    ensures
      var s := Uploading(d, Locked(d));
      Guarded(s, Retain(0)) && Next(s, Retain(0)) == Uploading(d, Retained(d))
    ensures
      var s := Uploading(d, Retained(d));
      Guarded(s, CommitRetain(0)) && Next(s, CommitRetain(0)) == Referred(d, Idle)
    ensures
      var s := Referred(d, Idle);
      Guarded(s, Release(d)) && Next(s, Release(d)) == State({d}, map[d := 0], map[0 := Idle])
  {
  }

  lemma CollectorClaims(d: Digest)
    ensures
      var s := State({d}, map[d := 0], map[0 := Idle]);
      Guarded(s, LockClaim(1, d)) && Next(s, LockClaim(1, d)) == Sweeping(d, Claiming(d))
    ensures
      var s := Sweeping(d, Claiming(d));
      Guarded(s, DeleteRow(1)) && Next(s, DeleteRow(1)) == Sweeping(d, Claimed(d))
    ensures
      var s := Sweeping(d, Claimed(d));
      && Guarded(s, PutFile(2, d))
      && GuardedRun(Next(s, PutFile(2, d)), []) && Final(Next(s, PutFile(2, d)), []) == Next(s, PutFile(2, d))
      && Next(s, PutFile(2, d)).PhaseOf(1) == Claimed(d) && Next(s, PutFile(2, d)).PhaseOf(2) == Obtained(d)
  {
  }

  lemma Prepend(s: State, step: Step, steps: seq<Step>)
    requires Guarded(s, step) && GuardedRun(Next(s, step), steps)
    ensures GuardedRun(s, [step] + steps) && Final(s, [step] + steps) == Final(Next(s, step), steps)
  {
    assert ([step] + steps)[1..] == steps;
  }
}
