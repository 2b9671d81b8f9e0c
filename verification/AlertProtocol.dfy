// Alert rows, the engines that raise and announce them, and the lock they try
// for, interleaved one database statement at a time.
module AlertProtocol {
  import opened Outcomes

  // NotifyQuiet: six hours, in the database's microseconds.
  const NOTIFY_QUIET := 6 * 60 * 60 * 1_000_000

  datatype AlertState = Firing | AckState | Resolved

  datatype Severity = Info | Warning | Critical

  datatype Row = Row(rule: string, state: AlertState, severity: Severity, acknowledgedAt: Option<int>,
      resolvedAt: Option<int>, notifiedAt: Option<int>) {
    predicate Live() {
      !state.Resolved?
    }
  }

  // An alert picked for announcement, as it was when picked.
  datatype Picked = Picked(id: nat, severity: Severity, at: int)

  // An engine outside its cycle, evaluating rules, announcing, or about to
  // record the announcement it has just made.
  datatype Phase =
    | Idle
    | Evaluating
    | Notifying(pending: seq<Picked>)
    | Marking(sent: nat, pending: seq<Picked>)

  // A message that went out, and whether recording it succeeded.
  datatype Sent = Sent(id: nat, pickedAt: int, at: int, marked: bool)

  datatype World = World(
    rows: map<nat, Row>, nextId: nat, now: int, lock: Option<nat>, engines: map<nat, Phase>, sends: seq<Sent>)
  {
    function PhaseOf(e: nat): Phase {
      if e in engines then engines[e] else Idle
    }

    function With(e: nat, p: Phase): World {
      this.(engines := engines[e := p])
    }
  }

  datatype Step =
    | Pass(time: nat)
    | TryLock(e: nat)
    | Raise(e: nat, rule: string, severity: Severity)
    | Resolve(rule: string)
    | Acknowledge(id: nat)
    | Pick(e: nat, ids: seq<nat>)
    | SkipInfo(e: nat)
    | Send(e: nat, delivered: bool)
    | Mark(e: nat, recorded: bool)
    | Unlock(e: nat)
    | Crash(e: nat)

  predicate LiveFor(w: World, id: nat, rule: string) {
    id in w.rows && w.rows[id].rule == rule && w.rows[id].Live()
  }

  // Firing, and not announced within the quiet period.
  predicate Awaiting(w: World, id: nat) {
    && id in w.rows && w.rows[id].state.Firing?
    && match w.rows[id].notifiedAt
       case None => true
       case Some(t) => t < w.now - NOTIFY_QUIET
  }

  predicate Distinct(ids: seq<nat>) {
    forall i, j :: 0 <= i < j < |ids| ==> ids[i] != ids[j]
  }

  ghost predicate Possible(w: World, s: Step) {
    match s
    case TryLock(e) => w.PhaseOf(e).Idle?
    case Raise(e, _, _) => w.PhaseOf(e).Evaluating?
    case Pick(e, ids) => w.PhaseOf(e).Evaluating? && Distinct(ids) && forall id :: id in ids <==> Awaiting(w, id)
    case SkipInfo(e) => w.PhaseOf(e).Notifying? && w.PhaseOf(e).pending != [] && w.PhaseOf(e).pending[0].severity.Info?
    case Send(e, _) => w.PhaseOf(e).Notifying? && w.PhaseOf(e).pending != [] && !w.PhaseOf(e).pending[0].severity.Info?
    case Mark(e, _) => w.PhaseOf(e).Marking?
    case Unlock(e) => w.PhaseOf(e).Evaluating? || (w.PhaseOf(e).Notifying? && w.PhaseOf(e).pending == [])
    case _ => true
  }

  function PickedRows(w: World, ids: seq<nat>): seq<Picked>
    requires forall id :: id in ids ==> id in w.rows
  {
    seq(|ids|, i requires 0 <= i < |ids| => Picked(ids[i], w.rows[ids[i]].severity, w.now))
  }

  function Raised(w: World, rule: string, severity: Severity): World {
    if exists id :: id in w.rows && LiveFor(w, id, rule) then
      w.(rows := map id | id in w.rows ::
           if LiveFor(w, id, rule) then w.rows[id].(severity := severity) else w.rows[id])
    else
      w.(rows := w.rows[w.nextId := Row(rule, Firing, severity, None, None, None)], nextId := w.nextId + 1)
  }

  function Closed(w: World, rule: string): World {
    w.(rows := map id | id in w.rows ::
         if LiveFor(w, id, rule) then w.rows[id].(state := Resolved, resolvedAt := Some(w.now)) else w.rows[id])
  }

  function Next(w: World, s: Step): World
    requires Possible(w, s)
  {
    match s
    case Pass(time) => w.(now := w.now + time)
    // The loser of the lock skips the whole cycle.
    case TryLock(e) => if w.lock.None? then w.(lock := Some(e)).With(e, Evaluating) else w
    case Raise(_, rule, severity) => Raised(w, rule, severity)
    // By an engine, or by hand from the console, which takes no lock.
    case Resolve(rule) => Closed(w, rule)
    case Acknowledge(id) =>
      if id in w.rows && w.rows[id].state.Firing? then
        w.(rows := w.rows[id := w.rows[id].(state := AckState, acknowledgedAt := Some(w.now))])
      else w
    case Pick(e, ids) => w.With(e, Notifying(PickedRows(w, ids)))
    case SkipInfo(e) => w.With(e, Notifying(w.PhaseOf(e).pending[1..]))
    case Send(e, delivered) =>
      var p := w.PhaseOf(e).pending;
      if delivered then
        w.(sends := w.sends + [Sent(p[0].id, p[0].at, w.now, false)]).With(e, Marking(p[0].id, p[1..]))
      else w.With(e, Notifying(p[1..]))
    case Mark(e, recorded) =>
      var p := w.PhaseOf(e);
      if recorded && p.sent in w.rows && w.sends != [] then
        w.(rows := w.rows[p.sent := w.rows[p.sent].(notifiedAt := Some(w.now))],
           sends := w.sends[|w.sends| - 1 := w.sends[|w.sends| - 1].(marked := true)]).With(e, Notifying(p.pending))
      else w.With(e, Notifying(p.pending))
    case Unlock(e) => Left(w, e)
    // The database gives up a dead session's lock.
    case Crash(e) => Left(w, e)
  }

  function Left(w: World, e: nat): World {
    w.(lock := if w.lock == Some(e) then None else w.lock).With(e, Idle)
  }

  // ------------------------------------------------------------- invariant

  function PendingOf(p: Phase): seq<Picked> {
    match p
    case Notifying(pending) => pending
    case Marking(_, pending) => pending
    case _ => []
  }

  // Only the holder of the lock is in a cycle.
  predicate Exclusive(w: World) {
    forall e :: e in w.engines && !w.engines[e].Idle? ==> w.lock == Some(e)
  }

  ghost predicate OneLivePerRule(w: World) {
    forall i, j :: i in w.rows && j in w.rows && i != j && w.rows[i].Live() && w.rows[j].Live() ==>
      w.rows[i].rule != w.rows[j].rule
  }

  // What the row remembers of a recorded announcement; and the row had been
  // neither acknowledged nor resolved when it was picked.
  predicate SendOk(w: World, s: Sent) {
    && s.id in w.rows && s.pickedAt <= s.at <= w.now
    && (s.marked ==> w.rows[s.id].notifiedAt.Some? && s.at <= w.rows[s.id].notifiedAt.value)
    && (w.rows[s.id].acknowledgedAt.Some? ==> s.pickedAt <= w.rows[s.id].acknowledgedAt.value)
    && (w.rows[s.id].resolvedAt.Some? ==> s.pickedAt <= w.rows[s.id].resolvedAt.value)
  }

  // The state says what has happened to the row, all of it in the past.
  predicate RowOk(w: World, id: nat)
    requires id in w.rows
  {
    && id < w.nextId
    && (w.rows[id].state.Firing? <==> w.rows[id].acknowledgedAt.None? && w.rows[id].resolvedAt.None?)
    && (w.rows[id].state.Resolved? <==> w.rows[id].resolvedAt.Some?)
    && (w.rows[id].acknowledgedAt.Some? ==> w.rows[id].acknowledgedAt.value <= w.now)
    && (w.rows[id].resolvedAt.Some? ==> w.rows[id].resolvedAt.value <= w.now)
    && (w.rows[id].notifiedAt.Some? ==> w.rows[id].notifiedAt.value <= w.now)
  }

  // The row of a picked alert was last notified long before the pick.
  predicate PickOk(w: World, p: Picked) {
    && p.id in w.rows && p.at <= w.now && LongBefore(w.rows[p.id].notifiedAt, p.at)
    && (w.rows[p.id].acknowledgedAt.Some? ==> p.at <= w.rows[p.id].acknowledgedAt.value)
    && (w.rows[p.id].resolvedAt.Some? ==> p.at <= w.rows[p.id].resolvedAt.value)
  }

  predicate LongBefore(notifiedAt: Option<int>, t: int) {
    notifiedAt.Some? ==> notifiedAt.value + NOTIFY_QUIET < t
  }

  predicate PendingOk(w: World, pending: seq<Picked>) {
    && (forall i :: 0 <= i < |pending| ==> PickOk(w, pending[i]))
    && (forall i, j :: 0 <= i < j < |pending| ==> pending[i].id != pending[j].id)
  }

  predicate PhaseOk(w: World, p: Phase) {
    && PendingOk(w, PendingOf(p))
    && (p.Marking? ==>
          && w.sends != [] && w.sends[|w.sends| - 1].id == p.sent && !w.sends[|w.sends| - 1].marked
          && forall i :: 0 <= i < |p.pending| ==> p.pending[i].id != p.sent)
  }

  // A recorded announcement is followed by quiet.
  predicate Quiet(sends: seq<Sent>) {
    forall i, j :: 0 <= i < j < |sends| && sends[i].id == sends[j].id && sends[i].marked ==>
      sends[i].at + NOTIFY_QUIET < sends[j].at
  }

  predicate InOrder(sends: seq<Sent>) {
    forall i, j :: 0 <= i < j < |sends| ==> sends[i].at <= sends[j].at
  }

  // Some announcement of that alert, this one or a later one, was recorded.
  predicate Recorded(sends: seq<Sent>, i: nat)
    requires i < |sends|
  {
    exists j :: i <= j < |sends| && sends[j].id == sends[i].id && sends[j].marked
  }

  // Where none was, the row still says what it said at the pick.
  predicate UnrecordedOk(w: World) {
    forall i :: 0 <= i < |w.sends| && w.sends[i].id in w.rows && !Recorded(w.sends, i) ==>
      LongBefore(w.rows[w.sends[i].id].notifiedAt, w.sends[i].pickedAt)
  }

  ghost predicate Inv(w: World) {
    && Exclusive(w)
    && OneLivePerRule(w)
    && (forall id :: id in w.rows ==> RowOk(w, id))
    && (forall i :: 0 <= i < |w.sends| ==> SendOk(w, w.sends[i]))
    && (forall e :: e in w.engines ==> PhaseOk(w, w.engines[e]))
    && Quiet(w.sends) && InOrder(w.sends) && UnrecordedOk(w)
  }

  lemma EmptyInv(now: int)
    ensures Inv(World(map[], 0, now, None, map[], []))
  {
  }

  // ---------------------------------------------------------- one statement

  lemma NextIsNew(w: World)
    requires Inv(w)
    ensures w.nextId !in w.rows
  {
    assert w.nextId in w.rows ==> RowOk(w, w.nextId);
  }

  lemma TailIsOk(w: World, pending: seq<Picked>)
    requires PendingOk(w, pending) && pending != []
    ensures PickOk(w, pending[0]) && PendingOk(w, pending[1..])
    ensures forall i :: 0 <= i < |pending[1..]| ==> pending[1..][i].id != pending[0].id
  {
  }

  lemma RaiseAgainKeepsRows(w: World, rule: string, severity: Severity)
    requires Inv(w) && exists id :: id in w.rows && LiveFor(w, id, rule)
    ensures var w' := Raised(w, rule, severity); OneLivePerRule(w') && forall id :: id in w'.rows ==> RowOk(w', id)
    ensures forall id :: LiveFor(w, id, rule) ==>
      Raised(w, rule, severity).rows == w.rows[id := w.rows[id].(severity := severity)]
  {
    hide PhaseOk, SendOk, Quiet, InOrder, UnrecordedOk;
    var w' := Raised(w, rule, severity);
    forall id | id in w'.rows ensures RowOk(w', id) {
      assert RowOk(w, id);
    }
    forall id | LiveFor(w, id, rule) ensures w'.rows == w.rows[id := w.rows[id].(severity := severity)] {
      assert forall k :: LiveFor(w, k, rule) ==> k == id;
    }
  }

  lemma RaiseNewKeepsRows(w: World, rule: string, severity: Severity)
    requires Inv(w) && !exists id :: id in w.rows && LiveFor(w, id, rule)
    ensures var w' := Raised(w, rule, severity); OneLivePerRule(w') && forall id :: id in w'.rows ==> RowOk(w', id)
  {
    hide PhaseOk, SendOk, Quiet, InOrder, UnrecordedOk;
    var w' := Raised(w, rule, severity);
    forall id | id in w'.rows ensures RowOk(w', id) {
      assert id in w.rows ==> RowOk(w, id);
    }
    NextIsNew(w);
    forall i | i in w.rows && w.rows[i].Live() ensures w.rows[i].rule != rule {
      assert !LiveFor(w, i, rule);
    }
  }

  // The one live row of a rule takes on the severity; where there is none, a new
  // row fires. No other row changes.
  lemma RaiseKeepsInv(w: World, rule: string, severity: Severity)
    requires Inv(w)
    ensures Inv(Raised(w, rule, severity))
    ensures
      var w' := Raised(w, rule, severity);
      && (forall id :: LiveFor(w, id, rule) ==>
            w'.rows == w.rows[id := w.rows[id].(severity := severity)] && w'.nextId == w.nextId)
      && ((forall id :: !LiveFor(w, id, rule)) ==>
            w.nextId !in w.rows && w'.rows == w.rows[w.nextId := Row(rule, Firing, severity, None, None, None)])
  {
    hide PhaseOk, SendOk, RowOk, UnrecordedOk, Quiet, InOrder, OneLivePerRule, Exclusive;
    NextIsNew(w);
    if exists id :: id in w.rows && LiveFor(w, id, rule) {
      RaiseAgainKeepsRows(w, rule, severity);
    } else {
      RaiseNewKeepsRows(w, rule, severity);
    }
    SameNotes(w, Raised(w, rule, severity));
    SameLock(w, Raised(w, rule, severity));
  }

  lemma SameLock(w: World, w': World)
    requires Exclusive(w) && w'.engines == w.engines && w'.lock == w.lock
    ensures Exclusive(w')
  {
  }

  // Sends and picks look only at the notes on their rows, and may see them
  // acknowledged or resolved now.
  lemma SameNotes(w: World, w': World)
    requires Inv(w) && w'.sends == w.sends && w'.engines == w.engines && w'.now == w.now
    requires forall id :: id in w.rows ==>
      && id in w'.rows && w'.rows[id].notifiedAt == w.rows[id].notifiedAt
      && (w'.rows[id].acknowledgedAt == w.rows[id].acknowledgedAt || w'.rows[id].acknowledgedAt == Some(w.now))
      && (w'.rows[id].resolvedAt == w.rows[id].resolvedAt || w'.rows[id].resolvedAt == Some(w.now))
    ensures forall i :: 0 <= i < |w'.sends| ==> SendOk(w', w'.sends[i])
    ensures forall e :: e in w'.engines ==> PhaseOk(w', w'.engines[e])
    ensures UnrecordedOk(w')
  {
    forall i | 0 <= i < |w'.sends| ensures SendOk(w', w'.sends[i]) {
      assert SendOk(w, w.sends[i]);
    }
    forall e | e in w'.engines ensures PhaseOk(w', w'.engines[e]) {
      assert PhaseOk(w, w.engines[e]);
    }
    forall i | 0 <= i < |w'.sends| && !Recorded(w'.sends, i)
      ensures LongBefore(w'.rows[w'.sends[i].id].notifiedAt, w'.sends[i].pickedAt)
    {
      assert SendOk(w, w.sends[i]);
    }
  }

  // Afterwards the rule has no live alert, and every other row is as it was.
  lemma CloseKeepsInv(w: World, rule: string)
    requires Inv(w)
    ensures Inv(Closed(w, rule))
    ensures forall id :: !LiveFor(Closed(w, rule), id, rule)
    ensures forall id :: id in w.rows && !LiveFor(w, id, rule) ==>
      id in Closed(w, rule).rows && Closed(w, rule).rows[id] == w.rows[id]
  {
    var w' := Closed(w, rule);
    forall id | id in w'.rows ensures RowOk(w', id) {
      assert RowOk(w, id);
    }
    SameNotes(w, w');
  }

  // Afterwards the row is not selected, now or however much later.
  lemma AcknowledgeKeepsInv(w: World, id: nat)
    requires Inv(w) && id in w.rows && w.rows[id].state.Firing?
    ensures Inv(Next(w, Acknowledge(id)))
    ensures forall time: nat :: !Awaiting(Next(Next(w, Acknowledge(id)), Pass(time)), id)
  {
    var w' := Next(w, Acknowledge(id));
    forall k | k in w'.rows ensures RowOk(w', k) {
      assert RowOk(w, k);
    }
    hide PhaseOk, SendOk, UnrecordedOk, Quiet, InOrder;
    SameNotes(w, w');
  }

  lemma PassKeepsInv(w: World, time: nat)
    requires Inv(w)
    ensures Inv(w.(now := w.now + time))
  {
    var w' := w.(now := w.now + time);
    forall k | k in w'.rows ensures RowOk(w', k) {
      assert RowOk(w, k);
    }
    forall i | 0 <= i < |w'.sends| ensures SendOk(w', w'.sends[i]) {
      assert SendOk(w, w.sends[i]);
    }
    forall e | e in w'.engines ensures PhaseOk(w', w'.engines[e]) {
      assert PhaseOk(w, w.engines[e]);
    }
  }

  // Only this engine's phase changes, to one that is fit.
  lemma PhaseKeepsInv(w: World, e: nat, p: Phase, lock: Option<nat>)
    requires Inv(w) && PhaseOk(w, p)
    requires forall k :: k in w.engines && k != e && !w.engines[k].Idle? ==> lock == Some(k)
    requires !p.Idle? ==> lock == Some(e)
    ensures Inv(w.(lock := lock).With(e, p))
  {
    var w' := w.(lock := lock).With(e, p);
    SameRows(w, w', p);
    forall k | k in w'.engines ensures PhaseOk(w', w'.engines[k]) {
      if k != e {
        SameRows(w, w', w.engines[k]);
      }
    }
    hide PhaseOk, PickOk, PendingOk, SendOk, RowOk;
  }

  // Fitness is about rows, sends and the clock alone.
  lemma SameRows(w: World, w': World, p: Phase)
    requires w'.rows == w.rows && w'.sends == w.sends && w'.now == w.now && w'.nextId == w.nextId
    ensures PhaseOk(w, p) ==> PhaseOk(w', p)
    ensures forall s :: SendOk(w, s) ==> SendOk(w', s)
    ensures forall k :: k in w.rows && RowOk(w, k) ==> RowOk(w', k)
  {
    forall i | 0 <= i < |PendingOf(p)| && PickOk(w, PendingOf(p)[i]) ensures PickOk(w', PendingOf(p)[i]) {
    }
  }

  // What is picked is what is firing and was not notified within the quiet
  // period, all of it.
  lemma PickedAreFit(w: World, e: nat, ids: seq<nat>)
    requires Inv(w) && Possible(w, Pick(e, ids))
    ensures PhaseOk(w, Notifying(PickedRows(w, ids)))
    ensures forall id :: id in w.rows ==>
      ((exists i :: 0 <= i < |PickedRows(w, ids)| && PickedRows(w, ids)[i].id == id)
       <==> w.rows[id].state.Firing? && LongBefore(w.rows[id].notifiedAt, w.now))
  {
    var picked := PickedRows(w, ids);
    forall i | 0 <= i < |picked| ensures PickOk(w, picked[i]) {
      assert ids[i] in ids && Awaiting(w, ids[i]) && RowOk(w, ids[i]);
    }
    forall id | id in w.rows && Awaiting(w, id) ensures exists i :: 0 <= i < |picked| && picked[i].id == id {
      var i :| 0 <= i < |ids| && ids[i] == id;
      assert picked[i].id == id;
    }
    forall i | 0 <= i < |picked| ensures Awaiting(w, picked[i].id) {
      assert ids[i] in ids;
    }
  }

  lemma SendKeepsInv(w: World, e: nat)
    requires Inv(w) && Possible(w, Send(e, true))
    ensures Inv(Next(w, Send(e, true)))
  {
    var w' := Next(w, Send(e, true));
    var p := w.PhaseOf(e).pending;
    assert PhaseOk(w, w.engines[e]) && PendingOk(w, p);
    TailIsOk(w, p);
    SendsStayOk(w, w', Sent(p[0].id, p[0].at, w.now, false));
    PendingAfterSend(w, w', p[1..]);
    UnrecordedAfterSend(w, w');
    assert PendingOf(Marking(p[0].id, p[1..])) == p[1..];
    assert PhaseOk(w', w'.engines[e]);
    OthersIdle(w, w', e);
    hide PhaseOk, PickOk, PendingOk, SendOk;
    forall k | k in w'.rows ensures RowOk(w', k) {
      assert RowOk(w, k);
    }
  }

  lemma SendsStayOk(w: World, w': World, s: Sent)
    requires Inv(w) && w'.rows == w.rows && w'.now == w.now && w'.sends == w.sends + [s]
    requires PickOk(w, Picked(s.id, Warning, s.pickedAt)) && s.at == w.now && !s.marked
    ensures forall i :: 0 <= i < |w'.sends| ==> SendOk(w', w'.sends[i])
    ensures Quiet(w'.sends) && InOrder(w'.sends)
  {
    forall i | 0 <= i < |w'.sends| ensures SendOk(w', w'.sends[i]) {
      if i < |w.sends| {
        assert SendOk(w, w.sends[i]);
      }
    }
  }

  // What has been sent stays sent, and what has been recorded recorded.
  predicate Grown(before: seq<Sent>, after: seq<Sent>) {
    && |before| <= |after|
    && forall i :: 0 <= i < |before| ==>
         after[i] == before[i] || after[i] == before[i].(marked := true)
  }

  lemma RecordedStays(before: seq<Sent>, after: seq<Sent>, i: nat)
    requires Grown(before, after) && i < |before|
    ensures Recorded(before, i) ==> Recorded(after, i)
  {
    if Recorded(before, i) {
      var j :| i <= j < |before| && before[j].id == before[i].id && before[j].marked;
      assert after[j].id == after[i].id && after[j].marked;
    }
  }

  lemma UnrecordedAfterSend(w: World, w': World)
    requires Inv(w) && w'.rows == w.rows && |w'.sends| == |w.sends| + 1 && w'.sends[..|w.sends|] == w.sends
    requires var s := w'.sends[|w.sends|]; s.id in w.rows && LongBefore(w.rows[s.id].notifiedAt, s.pickedAt)
    ensures UnrecordedOk(w')
  {
    hide Recorded, SendOk, RowOk, PhaseOk, LongBefore, OneLivePerRule, Exclusive, Quiet, InOrder;
    forall i | 0 <= i < |w.sends| ensures w'.sends[i] == w.sends[i] {
      assert w'.sends[..|w.sends|][i] == w.sends[i];
    }
    forall i | 0 <= i < |w.sends| ensures Recorded(w.sends, i) ==> Recorded(w'.sends, i) {
      RecordedStays(w.sends, w'.sends, i);
    }
  }

  lemma PendingAfterSend(w: World, w': World, pending: seq<Picked>)
    requires PendingOk(w, pending) && w'.rows == w.rows && w'.now == w.now
    ensures PendingOk(w', pending)
  {
    forall i | 0 <= i < |pending| ensures PickOk(w', pending[i]) {
      assert PickOk(w, pending[i]);
    }
  }

  // Engines other than the lock's holder are idle, and fit whatever happens.
  lemma OthersIdle(w: World, w': World, e: nat)
    requires Exclusive(w) && e in w.engines && !w.engines[e].Idle?
    requires e in w'.engines && w'.engines == w.engines[e := w'.engines[e]] && PhaseOk(w', w'.engines[e])
    ensures forall k :: k in w'.engines ==> PhaseOk(w', w'.engines[k])
  {
    forall k | k in w'.engines ensures PhaseOk(w', w'.engines[k]) {
      if k != e {
        assert w.engines[k].Idle?;
      }
    }
  }

  lemma MarkKeepsInv(w: World, e: nat)
    requires Inv(w) && Possible(w, Mark(e, true)) && w.PhaseOf(e).sent in w.rows && w.sends != []
    ensures Inv(Next(w, Mark(e, true)))
  {
    var w' := Next(w, Mark(e, true));
    var p := w.PhaseOf(e);
    assert PhaseOk(w, w.engines[e]);
    MarkedSendsOk(w, w', p.sent);
    UnrecordedAfterMark(w, w', p.sent);
    PendingAfterMark(w, w', p.sent, p.pending);
    assert PhaseOk(w', w'.engines[e]);
    OthersIdle(w, w', e);
    hide PhaseOk, PickOk, PendingOk, SendOk;
    forall k | k in w'.rows ensures RowOk(w', k) {
      assert RowOk(w, k);
    }
  }

  ghost predicate LastMarked(w: World, w': World, id: nat) {
    && id in w.rows && w.sends != [] && w.sends[|w.sends| - 1].id == id
    && w'.now == w.now
    && w'.rows == w.rows[id := w.rows[id].(notifiedAt := Some(w.now))]
    && w'.sends == w.sends[|w.sends| - 1 := w.sends[|w.sends| - 1].(marked := true)]
  }

  lemma MarkedSendsOk(w: World, w': World, id: nat)
    requires Inv(w) && LastMarked(w, w', id)
    ensures forall i :: 0 <= i < |w'.sends| ==> SendOk(w', w'.sends[i])
    ensures Quiet(w'.sends) && InOrder(w'.sends)
  {
    forall i | 0 <= i < |w'.sends| ensures SendOk(w', w'.sends[i]) {
      assert SendOk(w, w.sends[i]);
    }
  }

  lemma UnrecordedAfterMark(w: World, w': World, id: nat)
    requires Inv(w) && LastMarked(w, w', id)
    ensures UnrecordedOk(w')
  {
    hide Recorded, SendOk, RowOk, PhaseOk, LongBefore, OneLivePerRule, Exclusive, Quiet, InOrder;
    forall i | 0 <= i < |w.sends|
      ensures Recorded(w.sends, i) ==> Recorded(w'.sends, i)
      ensures w.sends[i].id == id ==> Recorded(w'.sends, i)
    {
      RecordedStays(w.sends, w'.sends, i);
      if w.sends[i].id == id {
        LastIsRecorded(w'.sends, i);
      }
    }
  }

  lemma LastIsRecorded(sends: seq<Sent>, i: nat)
    requires i < |sends| && sends[|sends| - 1].marked && sends[|sends| - 1].id == sends[i].id
    ensures Recorded(sends, i)
  {
    assert i <= |sends| - 1;
  }

  lemma PendingAfterMark(w: World, w': World, id: nat, pending: seq<Picked>)
    requires PendingOk(w, pending) && LastMarked(w, w', id)
    requires forall i :: 0 <= i < |pending| ==> pending[i].id != id
    ensures PendingOk(w', pending)
  {
    forall i | 0 <= i < |pending| ensures PickOk(w', pending[i]) {
      assert PickOk(w, pending[i]);
    }
  }

  lemma StepKeepsInv(w: World, s: Step)
    requires Inv(w) && Possible(w, s)
    ensures Inv(Next(w, s))
  {
    hide Inv, Closed, Raised, PhaseOk, Distinct, Left;
    match s
    case Pass(time) => PassKeepsInv(w, time);
    case TryLock(e) => LockKeepsInv(w, e);
    case Raise(_, rule, severity) => RaiseKeepsInv(w, rule, severity);
    case Resolve(rule) => CloseKeepsInv(w, rule);
    case Acknowledge(id) =>
      if id in w.rows && w.rows[id].state.Firing? {
        AcknowledgeKeepsInv(w, id);
      }
    case Pick(e, ids) =>
      PickedAreFit(w, e, ids);
      CycleKeepsInv(w, e, Notifying(PickedRows(w, ids)));
    case SkipInfo(e) => DropKeepsInv(w, e);
    case Send(e, delivered) =>
      if delivered {
        SendKeepsInv(w, e);
      } else {
        DropKeepsInv(w, e);
      }
    case Mark(e, recorded) =>
      if recorded && w.PhaseOf(e).sent in w.rows && w.sends != [] {
        MarkKeepsInv(w, e);
      } else {
        UnmarkedKeepsInv(w, e);
      }
    case Unlock(e) => LeaveKeepsInv(w, e);
    case Crash(e) => LeaveKeepsInv(w, e);
  }

  lemma LockKeepsInv(w: World, e: nat)
    requires Inv(w) && w.PhaseOf(e).Idle?
    ensures Inv(Next(w, TryLock(e)))
  {
    if w.lock.None? {
      PhaseKeepsInv(w, e, Evaluating, Some(e));
    }
  }

  lemma CycleKeepsInv(w: World, e: nat, p: Phase)
    requires Inv(w) && !w.PhaseOf(e).Idle? && PhaseOk(w, p)
    ensures Inv(w.With(e, p))
  {
    assert w.lock == Some(e);
    PhaseKeepsInv(w, e, p, w.lock);
  }

  lemma DropKeepsInv(w: World, e: nat)
    requires Inv(w) && w.PhaseOf(e).Notifying? && w.PhaseOf(e).pending != []
    ensures Inv(w.With(e, Notifying(w.PhaseOf(e).pending[1..])))
  {
    assert PhaseOk(w, w.engines[e]);
    TailIsOk(w, w.PhaseOf(e).pending);
    CycleKeepsInv(w, e, Notifying(w.PhaseOf(e).pending[1..]));
  }

  lemma UnmarkedKeepsInv(w: World, e: nat)
    requires Inv(w) && w.PhaseOf(e).Marking?
    ensures Inv(w.With(e, Notifying(w.PhaseOf(e).pending)))
  {
    assert PhaseOk(w, w.engines[e]);
    CycleKeepsInv(w, e, Notifying(w.PhaseOf(e).pending));
  }

  lemma LeaveKeepsInv(w: World, e: nat)
    requires Inv(w)
    ensures Inv(Left(w, e))
  {
    PhaseKeepsInv(w, e, Idle, if w.lock == Some(e) then None else w.lock);
  }

  // ------------------------------------------------------------- whole runs

  ghost predicate Runs(w: World, steps: seq<Step>, end: World)
    decreases |steps|
  {
    if steps == [] then w == end else Possible(w, steps[0]) && Runs(Next(w, steps[0]), steps[1..], end)
  }

  // However many engines there are and however they interleave and crash: a
  // recorded announcement is followed by six hours of quiet, a rule has at most
  // one live alert, and an alert is announced only if it was firing, neither
  // acknowledged nor resolved, when it was picked.
  lemma {:induction false} RunsAreQuiet(w: World, steps: seq<Step>, end: World)
    requires Inv(w) && Runs(w, steps, end)
    ensures Inv(end) && Quiet(end.sends) && OneLivePerRule(end)
    ensures forall i :: 0 <= i < |end.sends| ==>
      var s := end.sends[i];
      && s.id in end.rows
      && (end.rows[s.id].acknowledgedAt.Some? ==> s.pickedAt <= end.rows[s.id].acknowledgedAt.value)
      && (end.rows[s.id].resolvedAt.Some? ==> s.pickedAt <= end.rows[s.id].resolvedAt.value)
    decreases |steps|
  {
    if steps != [] {
      StepKeepsInv(w, steps[0]);
      RunsAreQuiet(Next(w, steps[0]), steps[1..], end);
    } else {
      forall i | 0 <= i < |end.sends| ensures SendOk(end, end.sends[i]) {
      }
    }
  }

  function Rank(s: AlertState): nat {
    match s case Firing => 0 case AckState => 1 case Resolved => 2
  }

  lemma StateAdvances(w: World, s: Step, id: nat)
    requires Inv(w) && Possible(w, s) && id in w.rows
    ensures id in Next(w, s).rows && Rank(w.rows[id].state) <= Rank(Next(w, s).rows[id].state)
    ensures Next(w, s).rows[id].rule == w.rows[id].rule
  {
    assert RowOk(w, id);
  }

  // An alert only ever moves on: acknowledged never returns to firing, and
  // resolved is final.
  lemma {:induction false} AlertsOnlyAdvance(w: World, steps: seq<Step>, end: World, id: nat)
    requires Inv(w) && Runs(w, steps, end) && id in w.rows
    ensures id in end.rows && Rank(w.rows[id].state) <= Rank(end.rows[id].state)
    ensures !w.rows[id].state.Firing? ==> !Awaiting(end, id)
    decreases |steps|
  {
    if steps != [] {
      StateAdvances(w, steps[0], id);
      StepKeepsInv(w, steps[0]);
      AlertsOnlyAdvance(Next(w, steps[0]), steps[1..], end, id);
    }
  }

  lemma {:induction false} RunsOn(w: World, steps: seq<Step>, mid: World, s: Step)
    requires Runs(w, steps, mid) && Possible(mid, s)
    ensures Runs(w, steps + [s], Next(mid, s))
    decreases |steps|
  {
    hide Possible, Next;
    if steps == [] {
      assert [] + [s] == [s] && [s][1..] == [];
    } else {
      assert (steps + [s])[1..] == steps[1..] + [s];
      RunsOn(Next(w, steps[0]), steps[1..], mid, s);
    }
  }

  lemma {:induction false} RunsJoin(w: World, s1: seq<Step>, mid: World, s2: seq<Step>, end: World)
    requires Runs(w, s1, mid) && Runs(mid, s2, end)
    ensures Runs(w, s1 + s2, end)
    decreases |s1|
  {
    hide Possible, Next;
    if s1 == [] {
      assert [] + s2 == s2;
    } else {
      assert (s1 + s2)[1..] == s1[1..] + s2;
      RunsJoin(Next(w, s1[0]), s1[1..], mid, s2, end);
    }
  }
}
