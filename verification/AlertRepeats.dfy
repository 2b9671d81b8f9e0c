// When an announcement can be made again within its quiet period: exactly when
// nothing recorded it and the alert can still be picked.
module AlertRepeats {
  import opened Outcomes
  import opened AlertProtocol

  // ------------------------------------------------- what stays through a run

  lemma SendsGrow(w: World, s: Step)
    requires Possible(w, s)
    ensures Grown(w.sends, Next(w, s).sends)
  {
    hide PickedRows, Awaiting, Distinct, LiveFor;
  }

  lemma GrownTransitive(a: seq<Sent>, b: seq<Sent>, c: seq<Sent>)
    requires Grown(a, b) && Grown(b, c)
    ensures Grown(a, c)
  {
  }

  lemma {:induction false} RunGrows(w: World, steps: seq<Step>, end: World)
    requires Runs(w, steps, end)
    ensures Grown(w.sends, end.sends)
    decreases |steps|
  {
    hide Next, Possible, Grown;
    if steps == [] {
      GrownByNothing(w.sends);
    } else {
      SendsGrow(w, steps[0]);
      RunGrows(Next(w, steps[0]), steps[1..], end);
      GrownTransitive(w.sends, Next(w, steps[0]).sends, end.sends);
    }
  }

  lemma GrownByNothing(sends: seq<Sent>)
    ensures Grown(sends, sends)
  {
  }

  // Some engine has picked the alert and means to announce it.
  predicate Pending(w: World, id: nat) {
    exists e :: e in w.engines && Worthwhile(PendingOf(w.engines[e]), id)
  }

  predicate Worthwhile(pending: seq<Picked>, id: nat) {
    exists i :: 0 <= i < |pending| && pending[i].id == id && !pending[i].severity.Info?
  }

  // Neither firing nor about to be announced, and no more sent than that.
  predicate Dormant(w: World, id: nat) {
    id in w.rows && !w.rows[id].state.Firing? && !Pending(w, id)
  }

  predicate NoMoreOf(before: seq<Sent>, after: seq<Sent>, id: nat) {
    forall k :: |before| <= k < |after| ==> after[k].id != id
  }

  lemma TailWorthwhile(pending: seq<Picked>, id: nat)
    requires pending != []
    ensures Worthwhile(pending[1..], id) ==> Worthwhile(pending, id)
    ensures pending[0].id == id && !pending[0].severity.Info? ==> Worthwhile(pending, id)
  {
    if i :| 0 <= i < |pending[1..]| && pending[1..][i].id == id && !pending[1..][i].severity.Info? {
      assert pending[i + 1].id == id;
    }
  }

  lemma PickedAwait(w: World, e: nat, ids: seq<nat>, id: nat)
    requires Possible(w, Pick(e, ids)) && id in w.rows && !w.rows[id].state.Firing?
    ensures !Worthwhile(PickedRows(w, ids), id)
  {
    forall i | 0 <= i < |ids| ensures ids[i] != id {
      assert ids[i] in ids;
    }
  }

  lemma DormantStep(w: World, s: Step, id: nat)
    requires Inv(w) && Possible(w, s) && Dormant(w, id)
    ensures Dormant(Next(w, s), id) && NoMoreOf(w.sends, Next(w, s).sends, id)
  {
    hide Inv, PickedRows, Awaiting, Distinct, Worthwhile, LiveFor;
    StateAdvances(w, s, id);
    assert !Worthwhile([], id) by {
      NothingWorthwhile(id);
    }
    if s.Pick? {
      PickedAwait(w, s.e, s.ids, id);
    }
    if (s.SkipInfo? || s.Send?) {
      TailWorthwhile(w.PhaseOf(s.e).pending, id);
    }
  }

  lemma NothingWorthwhile(id: nat)
    ensures !Worthwhile([], id)
  {
  }

  lemma {:induction false} DormantRun(w: World, steps: seq<Step>, end: World, id: nat)
    requires Inv(w) && Runs(w, steps, end) && Dormant(w, id)
    ensures NoMoreOf(w.sends, end.sends, id)
    decreases |steps|
  {
    hide Next, Possible, Inv, Dormant, Grown;
    if steps != [] {
      var w1 := Next(w, steps[0]);
      DormantStep(w, steps[0], id);
      StepKeepsInv(w, steps[0]);
      DormantRun(w1, steps[1..], end, id);
      RunGrows(w1, steps[1..], end);
      SameIds(w1.sends, end.sends);
    }
  }

  lemma SameIds(before: seq<Sent>, after: seq<Sent>)
    requires Grown(before, after)
    ensures |before| <= |after| && forall i :: 0 <= i < |before| ==> after[i].id == before[i].id
  {
  }

  // ----------------------------------------------------- sending it once more

  lemma {:induction false} Enumerate(s: set<nat>) returns (ids: seq<nat>)
    ensures Distinct(ids) && forall k :: k in ids <==> k in s
    decreases |s|
  {
    if s == {} {
      ids := [];
    } else {
      var k :| k in s;
      var rest := Enumerate(s - {k});
      ids := [k] + rest;
    }
  }

  // A list for the pick that begins with this alert.
  lemma AwaitingFrom(w: World, id: nat) returns (ids: seq<nat>)
    requires Awaiting(w, id)
    ensures Distinct(ids) && ids != [] && ids[0] == id && forall k :: k in ids <==> Awaiting(w, k)
  {
    var others := set k | k in w.rows && k != id && Awaiting(w, k);
    var rest := Enumerate(others);
    ids := [id] + rest;
    assert forall i :: 0 <= i < |rest| ==> rest[i] in rest;
  }

  // From a cycle whose first alert is this one, it is announced.
  lemma AnnounceFirst(w: World, e: nat, id: nat) returns (s: Step, end: World)
    requires w.PhaseOf(e).Notifying? && w.PhaseOf(e).pending != []
    requires w.PhaseOf(e).pending[0].id == id && !w.PhaseOf(e).pending[0].severity.Info?
    ensures s == Send(e, true) && Possible(w, s) && end == Next(w, s)
    ensures end.sends == w.sends + [Sent(id, w.PhaseOf(e).pending[0].at, w.now, false)]
  {
    s := Send(e, true);
    end := Next(w, s);
  }

  lemma {:induction false} AnnouncePending(w: World, e: nat, id: nat) returns (steps: seq<Step>, end: World)
    requires w.PhaseOf(e).Notifying? && Worthwhile(w.PhaseOf(e).pending, id)
    ensures Runs(w, steps, end)
    ensures |end.sends| == |w.sends| + 1 && end.sends[|w.sends|].id == id && end.sends[|w.sends|].at == w.now
    decreases |w.PhaseOf(e).pending|
  {
    var pending := w.PhaseOf(e).pending;
    if pending[0].id == id && !pending[0].severity.Info? {
      var s, after := AnnounceFirst(w, e, id);
      steps, end := [s], after;
      assert [s][1..] == [];
    } else {
      var s := if pending[0].severity.Info? then SkipInfo(e) else Send(e, false);
      var w1 := Next(w, s);
      assert w1 == w.With(e, Notifying(pending[1..]));
      var i :| 0 <= i < |pending| && pending[i].id == id && !pending[i].severity.Info?;
      assert pending[1..][i - 1] == pending[i];
      var rest, after := AnnouncePending(w1, e, id);
      steps, end := [s] + rest, after;
      assert steps[1..] == rest;
    }
  }

  // An engine that has it pending announces it, leaving unrecorded what it was
  // about to record.
  lemma PendingIsSent(w: World, id: nat) returns (steps: seq<Step>, end: World)
    requires Pending(w, id)
    ensures Runs(w, steps, end)
    ensures |end.sends| == |w.sends| + 1 && end.sends[|w.sends|].id == id && end.sends[|w.sends|].at == w.now
  {
    var e :| e in w.engines && Worthwhile(PendingOf(w.engines[e]), id);
    if w.engines[e].Notifying? {
      steps, end := AnnouncePending(w, e, id);
    } else {
      var w1 := Next(w, Mark(e, false));
      var rest, after := AnnouncePending(w1, e, id);
      steps, end := [Mark(e, false)] + rest, after;
      assert steps[1..] == rest;
    }
  }

  // The lock's holder, or any engine when it is free, starts afresh.
  lemma FreshCycle(w: World) returns (e: nat, steps: seq<Step>, end: World)
    requires Inv(w)
    ensures Runs(w, steps, end) && end == w.(lock := Some(e)).With(e, Evaluating)
  {
    e := if w.lock.Some? then w.lock.value else 0;
    var w1 := Next(w, Crash(e));
    end := Next(w1, TryLock(e));
    steps := [Crash(e), TryLock(e)];
    assert steps[1..] == [TryLock(e)] && [TryLock(e)][1..] == [];
    assert w1.engines[e := Evaluating] == w.engines[e := Evaluating];
  }

  // A firing alert not notified within the quiet period is announced at once, if
  // only because it is raised again with another severity.
  lemma FiringIsSent(w: World, id: nat) returns (steps: seq<Step>, end: World)
    requires Inv(w) && Awaiting(w, id)
    ensures Runs(w, steps, end)
    ensures |end.sends| == |w.sends| + 1 && end.sends[|w.sends|].id == id && end.sends[|w.sends|].at == w.now
  {
    var e, begun, w1 := FreshCycle(w);
    var rule := w.rows[id].rule;
    var w2 := Next(w1, Raise(e, rule, Warning));
    assert LiveFor(w1, id, rule);
    assert w2.rows[id] == w.rows[id].(severity := Warning) && Awaiting(w2, id);
    var ids := AwaitingFrom(w2, id);
    var w3 := Next(w2, Pick(e, ids));
    assert w3.PhaseOf(e).pending[0].id == id;
    var sent, w4 := AnnounceFirst(w3, e, id);
    hide Inv, Next, Possible, Awaiting;
    RunsOn(w, begun, w1, Raise(e, rule, Warning));
    RunsOn(w, begun + [Raise(e, rule, Warning)], w2, Pick(e, ids));
    RunsOn(w, begun + [Raise(e, rule, Warning)] + [Pick(e, ids)], w3, sent);
    steps, end := begun + [Raise(e, rule, Warning)] + [Pick(e, ids)] + [sent], w4;
  }

  // ------------------------------------------------------------ exactly when

  // The i-th announcement, made again within six hours of when it was made.
  predicate RepeatedWithin(w: World, i: nat, end: World)
    requires i < |w.sends|
  {
    exists k :: |w.sends| <= k < |end.sends| && end.sends[k].id == w.sends[i].id
                && end.sends[k].at <= w.sends[i].at + NOTIFY_QUIET
  }

  // Some way of going on makes it again.
  ghost predicate Repeatable(w: World, i: nat)
    requires i < |w.sends|
  {
    exists steps, end :: Runs(w, steps, end) && RepeatedWithin(w, i, end)
  }

  lemma QuietAfterRecorded(before: seq<Sent>, after: seq<Sent>, i: nat, k: nat)
    requires Grown(before, after) && Quiet(after) && InOrder(before)
    requires i < |before| <= k < |after| && after[k].id == before[i].id && Recorded(before, i)
    ensures before[i].at + NOTIFY_QUIET < after[k].at
  {
    var j :| i <= j < |before| && before[j].id == before[i].id && before[j].marked;
    assert after[j].marked && after[j].id == after[k].id && after[j].at == before[j].at;
  }

  lemma RecordedIsNotRepeated(w: World, i: nat)
    requires Inv(w) && i < |w.sends| && Recorded(w.sends, i)
    ensures !Repeatable(w, i)
  {
    hide Recorded, Grown, Quiet, InOrder, Runs;
    forall steps, end | Runs(w, steps, end) ensures !RepeatedWithin(w, i, end) {
      RunsAreQuiet(w, steps, end);
      RunGrows(w, steps, end);
      hide Inv;
      forall k | |w.sends| <= k < |end.sends| && end.sends[k].id == w.sends[i].id
        ensures w.sends[i].at + NOTIFY_QUIET < end.sends[k].at
      {
        QuietAfterRecorded(w.sends, end.sends, i, k);
      }
    }
  }

  lemma DormantIsNotRepeated(w: World, i: nat)
    requires Inv(w) && i < |w.sends| && Dormant(w, w.sends[i].id)
    ensures !Repeatable(w, i)
  {
    hide Inv, Runs, Dormant;
    forall steps, end | Runs(w, steps, end) ensures !RepeatedWithin(w, i, end) {
      DormantRun(w, steps, end, w.sends[i].id);
    }
  }

  lemma PendingIsRepeated(w: World, i: nat)
    requires i < |w.sends| && w.now <= w.sends[i].at + NOTIFY_QUIET && Pending(w, w.sends[i].id)
    ensures Repeatable(w, i)
  {
    hide Pending, Runs;
    var steps, end := PendingIsSent(w, w.sends[i].id);
    assert RepeatedWithin(w, i, end);
  }

  lemma FiringIsRepeated(w: World, i: nat)
    requires Inv(w) && i < |w.sends| && w.now <= w.sends[i].at + NOTIFY_QUIET && Awaiting(w, w.sends[i].id)
    ensures Repeatable(w, i)
  {
    hide Inv, Awaiting, Runs;
    var steps, end := FiringIsSent(w, w.sends[i].id);
    assert RepeatedWithin(w, i, end);
  }

  lemma FiringStillAwaits(w: World, i: nat)
    requires Inv(w) && i < |w.sends|
    ensures w.sends[i].id in w.rows
    ensures !Recorded(w.sends, i) && w.rows[w.sends[i].id].state.Firing? ==> Awaiting(w, w.sends[i].id)
  {
    hide Recorded, PhaseOk, OneLivePerRule, Quiet, InOrder, RowOk;
    assert SendOk(w, w.sends[i]);
    assert UnrecordedOk(w);
  }

  // Once an announcement has been made, another of the same alert can follow
  // inside the quiet period exactly when neither it nor a later one has been
  // recorded and the alert is still firing or already picked. Any number of
  // other alerts may await, and any number of engines be at work.
  lemma RepeatsIff(w: World, i: nat)
    requires Inv(w) && i < |w.sends| && w.now <= w.sends[i].at + NOTIFY_QUIET
    ensures
      var id := w.sends[i].id;
      && id in w.rows
      && (Repeatable(w, i) <==> !Recorded(w.sends, i) && (w.rows[id].state.Firing? || Pending(w, id)))
  {
    hide Inv, Repeatable, Recorded, Pending, Awaiting;
    FiringStillAwaits(w, i);
    if Recorded(w.sends, i) {
      RecordedIsNotRepeated(w, i);
    } else if Pending(w, w.sends[i].id) {
      PendingIsRepeated(w, i);
    } else if w.rows[w.sends[i].id].state.Firing? {
      FiringIsRepeated(w, i);
    } else {
      DormantIsNotRepeated(w, i);
    }
  }

  // --------------------------------------------- whole cycles, none recorded

  predicate SentTwice(w: World, id: nat, end: World) {
    && |end.sends| == |w.sends| + 2
    && end.sends[|w.sends|].id == id == end.sends[|w.sends| + 1].id
    && end.sends[|w.sends|].at == w.now == end.sends[|w.sends| + 1].at
  }

  // Where recording fails, the next cycle sends again at once, with no engine
  // crashing and whatever else awaits: the quiet period is only as good as the
  // mark.
  lemma UnmarkedSendsRepeat(w: World, e: nat, id: nat)
    requires w.PhaseOf(e).Idle? && w.lock.None? && Awaiting(w, id) && !w.rows[id].severity.Info?
    ensures exists steps, end :: Runs(w, steps, end) && SentTwice(w, id, end)
  {
    var s1, m1 := UnmarkedCycle(w, e, id);
    var s2, m2 := UnmarkedCycle(m1, e, id);
    RunsJoin(w, s1, m1, s2, m2);
  }

  // The rest of a list is passed over, or fails to be delivered.
  lemma {:induction false} Drain(w: World, e: nat) returns (steps: seq<Step>, end: World)
    requires w.PhaseOf(e).Notifying?
    ensures Runs(w, steps, end) && end == w.With(e, Notifying([]))
    decreases |w.PhaseOf(e).pending|
  {
    var pending := w.PhaseOf(e).pending;
    if pending == [] {
      steps, end := [], w;
      assert w.engines[e := Notifying([])] == w.engines;
    } else {
      var s := if pending[0].severity.Info? then SkipInfo(e) else Send(e, false);
      var w1 := Next(w, s);
      assert w1 == w.With(e, Notifying(pending[1..]));
      var rest, after := Drain(w1, e);
      steps, end := [s] + rest, after;
      assert steps[1..] == rest;
      assert w1.engines[e := Notifying([])] == w.engines[e := Notifying([])];
    }
  }

  // The lock is taken, the alert announced first, and nothing recorded.
  lemma UnmarkedSend(w: World, e: nat, id: nat) returns (steps: seq<Step>, end: World)
    requires w.PhaseOf(e).Idle? && w.lock.None? && Awaiting(w, id) && !w.rows[id].severity.Info?
    ensures Runs(w, steps, end) && end.PhaseOf(e).Notifying?
    ensures end == w.(lock := Some(e), engines := w.engines[e := end.PhaseOf(e)],
                      sends := w.sends + [Sent(id, w.now, w.now, false)])
  {
    var w1 := Next(w, TryLock(e));
    assert forall k :: Awaiting(w1, k) <==> Awaiting(w, k);
    var ids := AwaitingFrom(w, id);
    var w2 := Next(w1, Pick(e, ids));
    assert w2.PhaseOf(e).pending[0] == Picked(id, w.rows[id].severity, w.now);
    var sent, w3 := AnnounceFirst(w2, e, id);
    end := Next(w3, Mark(e, false));
    hide Next, Possible, Awaiting;
    RunsOn(w, [], w, TryLock(e));
    RunsOn(w, [] + [TryLock(e)], w1, Pick(e, ids));
    RunsOn(w, [] + [TryLock(e)] + [Pick(e, ids)], w2, sent);
    steps := [] + [TryLock(e)] + [Pick(e, ids)] + [sent];
    RunsOn(w, steps, w3, Mark(e, false));
    steps := steps + [Mark(e, false)];
  }

  lemma UnmarkedCycle(w: World, e: nat, id: nat) returns (steps: seq<Step>, end: World)
    requires w.PhaseOf(e).Idle? && w.lock.None? && Awaiting(w, id) && !w.rows[id].severity.Info?
    ensures Runs(w, steps, end)
    ensures end == w.(engines := w.engines[e := Idle], sends := w.sends + [Sent(id, w.now, w.now, false)])
    ensures forall k :: Awaiting(end, k) <==> Awaiting(w, k)
  {
    hide Runs;
    var half, w1 := UnmarkedSend(w, e, id);
    var drained, w2 := Drain(w1, e);
    end := Next(w2, Unlock(e));
    assert w2.engines[e := Idle] == w.engines[e := Idle];
    RunsJoin(w, half, w1, drained, w2);
    RunsOn(w, half + drained, w2, Unlock(e));
    steps := half + drained + [Unlock(e)];
  }
}
