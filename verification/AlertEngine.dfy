// One engine's cycle, statement by statement: every statement is a step of the
// protocol, so whatever holds of its runs holds here.
module AlertEngine {
  import opened Outcomes
  import opened AlertProtocol

  datatype Rule = Rule(id: string, enabled: bool)

  // What checking a rule found.
  datatype Check = CheckFailed | Clear | Bad(severity: Severity)

  class Database {
    var world: World
    // The statements executed so far.
    ghost var done: seq<Step>

    constructor (w: World)
      ensures world == w && done == []
    {
      world, done := w, [];
    }

    method Execute(s: Step)
      requires Possible(world, s)
      modifies this
      ensures world == Next(old(world), s) && done == old(done) + [s]
    {
      world, done := Next(world, s), done + [s];
    }

    // The rows to announce, in the order the query returned them.
    method AlertsAwaitingNotification() returns (ids: seq<nat>)
      ensures Distinct(ids) && forall id :: id in ids <==> Awaiting(world, id)
    {
      var left := set id | id in world.rows && Awaiting(world, id);
      ids := [];
      while left != {}
        invariant Distinct(ids) && forall id :: id in ids || id in left <==> Awaiting(world, id)
        invariant forall id :: id in ids ==> id !in left
        decreases |left|
      {
        var id :| id in left;
        left, ids := left - {id}, ids + [id];
      }
    }
  }

  // What a rule's check calls for: no live alert of a rule that is disabled or
  // found nothing, and of one that found something a live alert that says how bad
  // it is.
  predicate Settled(w: World, rule: Rule, checks: map<string, Check>) {
    if !rule.enabled then forall k :: k in w.rows ==> !LiveFor(w, k, rule.id)
    else if rule.id !in checks then true
    else match checks[rule.id]
      case CheckFailed => true
      case Clear => forall k :: k in w.rows ==> !LiveFor(w, k, rule.id)
      case Bad(severity) =>
        && (exists k :: k in w.rows && LiveFor(w, k, rule.id))
        && forall k :: k in w.rows && LiveFor(w, k, rule.id) ==> w.rows[k].severity == severity
  }

  predicate DistinctRules(rules: seq<Rule>) {
    forall i, j :: 0 <= i < j < |rules| ==> rules[i].id != rules[j].id
  }

  // Row ids are drawn in order.
  predicate Numbered(w: World) {
    forall k :: k in w.rows ==> k < w.nextId
  }

  // The rows of every other rule are as they were.
  predicate OthersKept(w: World, w': World, rule: string) {
    && (forall k :: k in w.rows && w.rows[k].rule != rule ==> k in w'.rows && w'.rows[k] == w.rows[k])
    && (forall k :: k in w'.rows && w'.rows[k].rule != rule ==> k in w.rows && w.rows[k] == w'.rows[k])
  }

  // Nothing but what is noted of announcements has changed.
  predicate OnlyNotes(w: World, w': World) {
    && w'.rows.Keys == w.rows.Keys && w'.nextId == w.nextId
    && forall k :: k in w.rows ==> w'.rows[k].(notifiedAt := None) == w.rows[k].(notifiedAt := None)
  }

  lemma NotesDoNotUnsettle(w: World, w': World, rule: Rule, checks: map<string, Check>)
    requires Settled(w, rule, checks) && OnlyNotes(w, w')
    ensures Settled(w', rule, checks)
  {
    assert forall k :: k in w.rows ==> (LiveFor(w', k, rule.id) <==> LiveFor(w, k, rule.id));
  }

  lemma OthersStaySettled(w: World, w': World, rule: string, other: Rule, checks: map<string, Check>)
    requires Settled(w, other, checks) && OthersKept(w, w', rule) && other.id != rule
    ensures Settled(w', other, checks)
  {
    forall k ensures LiveFor(w', k, other.id) <==> LiveFor(w, k, other.id) {
      if LiveFor(w', k, other.id) {
        assert k in w.rows && w.rows[k].rule != rule;
      }
    }
    if other.enabled && other.id in checks && checks[other.id].Bad? {
      var k :| k in w.rows && LiveFor(w, k, other.id);
      assert LiveFor(w', k, other.id);
    }
  }

  lemma ClosingSettles(w: World, rule: string)
    ensures OthersKept(w, Closed(w, rule), rule) && (Numbered(w) ==> Numbered(Closed(w, rule)))
    ensures forall k :: k in Closed(w, rule).rows ==> !LiveFor(Closed(w, rule), k, rule)
  {
  }

  lemma RaisingSettles(w: World, rule: string, severity: Severity)
    requires Numbered(w)
    ensures
      var w' := Raised(w, rule, severity);
      && OthersKept(w, w', rule) && Numbered(w')
      && (exists k :: k in w'.rows && LiveFor(w', k, rule))
      && forall k :: k in w'.rows && LiveFor(w', k, rule) ==> w'.rows[k].severity == severity
  {
    var w' := Raised(w, rule, severity);
    if exists id :: id in w.rows && LiveFor(w, id, rule) {
      var id :| id in w.rows && LiveFor(w, id, rule);
      assert LiveFor(w', id, rule);
    } else {
      assert LiveFor(w', w.nextId, rule);
    }
  }

  // Statements executed since before, as a run of the protocol.
  ghost predicate Ran(before: World, began: seq<Step>, db: Database)
    reads db
  {
    began <= db.done && Runs(before, db.done[|began|..], db.world)
  }

  lemma RanOn(before: World, began: seq<Step>, done: seq<Step>, w: World, s: Step)
    requires began <= done && Runs(before, done[|began|..], w) && Possible(w, s)
    ensures began <= done + [s] && Runs(before, (done + [s])[|began|..], Next(w, s))
  {
    assert (done + [s])[|began|..] == done[|began|..] + [s];
    RunsOn(before, done[|began|..], w, s);
  }

  class Engine {
    const db: Database
    const id: nat
    // Whether anyone is to be told.
    const notifier: bool

    constructor (db: Database, id: nat, notifier: bool)
      ensures this.db == db && this.id == id && this.notifier == notifier
    {
      this.db, this.id, this.notifier := db, id, notifier;
    }

    method Step(s: Step, ghost before: World, ghost began: seq<Step>)
      requires Ran(before, began, db) && Possible(db.world, s)
      modifies db
      ensures Ran(before, began, db) && db.world == Next(old(db.world), s)
    {
      RanOn(before, began, db.done, db.world, s);
      db.Execute(s);
    }

    // Runs every rule and then delivers notifications, if no other engine is at
    // it. A statement may fail unless the database and mail are reliable.
    method EvaluateOnce(rules: seq<Rule>, checks: map<string, Check>, reliable: bool) returns (ran: bool)
      requires db.world.PhaseOf(id).Idle?
      modifies db
      ensures Ran(old(db.world), old(db.done), db)
      ensures db.world.PhaseOf(id).Idle?
      ensures ran <==> old(db.world).lock.None?
      ensures ran ==> db.world.lock.None?
      // Nothing worth a message is left unannounced, for six hours at least.
      ensures ran && reliable && notifier ==>
        forall k :: Awaiting(db.world, k) ==> db.world.rows[k].severity.Info?
      // And each rule's alert is what its check calls for.
      ensures ran && reliable && DistinctRules(rules) && Numbered(old(db.world)) ==>
        forall i :: 0 <= i < |rules| ==> Settled(db.world, rules[i], checks)
    {
      hide Settled, OthersKept, Ran;
      ghost var before, began := db.world, db.done;
      ran := db.world.lock.None?;
      assert Ran(before, began, db) by {
        NothingRanYet(db);
      }
      Step(TryLock(id), before, began);
      if !ran {
        return;
      }
      var listed: bool := *;
      if !listed && !reliable {
        Step(Unlock(id), before, began);
        return;
      }
      for i := 0 to |rules|
        invariant Ran(before, began, db) && db.world.PhaseOf(id).Evaluating? && db.world.lock == Some(id)
        invariant Numbered(before) ==> Numbered(db.world)
        invariant reliable && DistinctRules(rules) && Numbered(before) ==>
          forall j :: 0 <= j < i ==> Settled(db.world, rules[j], checks)
      {
        ghost var w := db.world;
        Evaluate(rules[i], checks, reliable, before, began);
        if reliable && DistinctRules(rules) && Numbered(before) {
          forall j | 0 <= j < i ensures Settled(db.world, rules[j], checks) {
            OthersStaySettled(w, db.world, rules[i].id, rules[j], checks);
          }
        }
      }
      ghost var w := db.world;
      if notifier {
        Notify(reliable, before, began);
      }
      ghost var w' := db.world;
      Step(Unlock(id), before, began);
      if reliable && DistinctRules(rules) && Numbered(before) {
        forall i | 0 <= i < |rules| ensures Settled(db.world, rules[i], checks) {
          NotesDoNotUnsettle(w, w', rules[i], checks);
          NotesDoNotUnsettle(w', db.world, rules[i], checks);
        }
      }
    }

    method Evaluate(rule: Rule, checks: map<string, Check>, reliable: bool, ghost before: World, ghost began: seq<Step>)
      requires Ran(before, began, db) && db.world.PhaseOf(id).Evaluating? && db.world.lock == Some(id)
      modifies db
      ensures Ran(before, began, db) && db.world.PhaseOf(id).Evaluating? && db.world.lock == Some(id)
      ensures Numbered(old(db.world)) ==> Numbered(db.world) && OthersKept(old(db.world), db.world, rule.id)
      ensures reliable && Numbered(old(db.world)) ==> Settled(db.world, rule, checks)
    {
      hide Ran;
      ghost var w := db.world;
      ClosingSettles(w, rule.id);
      if Numbered(w) && rule.id in checks && checks[rule.id].Bad? {
        RaisingSettles(w, rule.id, checks[rule.id].severity);
      }
      hide Closed, Raised, LiveFor;
      var failed: bool := *;
      if failed && !reliable {
        return;
      }
      if !rule.enabled {
        Step(Resolve(rule.id), before, began);
      } else if rule.id in checks {
        match checks[rule.id]
        case CheckFailed =>
        case Clear =>
          Step(Resolve(rule.id), before, began);
        case Bad(severity) =>
          Step(Raise(id, rule.id, severity), before, began);
      }
    }

    method Notify(reliable: bool, ghost before: World, ghost began: seq<Step>)
      requires Ran(before, began, db) && db.world.PhaseOf(id).Evaluating? && db.world.lock == Some(id)
      modifies db
      ensures Ran(before, began, db) && db.world.lock == Some(id)
      ensures db.world.PhaseOf(id).Evaluating? || db.world.PhaseOf(id) == Notifying([])
      ensures reliable ==> forall k :: Awaiting(db.world, k) ==> db.world.rows[k].severity.Info?
      ensures OnlyNotes(old(db.world), db.world)
    {
      var failed: bool := *;
      if failed && !reliable {
        return;
      }
      hide LeftToSend, Awaiting, Ran, Distinct, PickedRows;
      var ids := db.AlertsAwaitingNotification();
      PickLeaves(db.world, id, ids);
      Step(Pick(id, ids), before, began);
      while db.world.PhaseOf(id).pending != []
        invariant Ran(before, began, db) && db.world.PhaseOf(id).Notifying? && db.world.lock == Some(id)
        invariant reliable ==> LeftToSend(db.world, db.world.PhaseOf(id).pending)
        invariant OnlyNotes(old(db.world), db.world)
        decreases |db.world.PhaseOf(id).pending|
      {
        AnnounceFirst(reliable, before, began);
      }
    }

    // Sends the first message and records it, or passes it over.
    method AnnounceFirst(reliable: bool, ghost before: World, ghost began: seq<Step>)
      requires Ran(before, began, db) && db.world.PhaseOf(id).Notifying? && db.world.PhaseOf(id).pending != []
      requires db.world.lock == Some(id)
      requires reliable ==> LeftToSend(db.world, db.world.PhaseOf(id).pending)
      modifies db
      ensures Ran(before, began, db) && db.world.lock == Some(id)
      ensures db.world.PhaseOf(id) == Notifying(old(db.world).PhaseOf(id).pending[1..])
      ensures OnlyNotes(old(db.world), db.world)
      ensures reliable ==> LeftToSend(db.world, db.world.PhaseOf(id).pending)
    {
      hide Ran, Awaiting;
      ghost var w, pending := db.world, db.world.PhaseOf(id).pending;
      var first := db.world.PhaseOf(id).pending[0];
      if first.severity.Info? {
        Step(SkipInfo(id), before, began);
        if reliable {
          SkippedNoLongerCounts(w, id);
          FirstDone(w, db.world, pending);
        }
        return;
      }
      if reliable {
        MarkedNoLongerAwaits(w, id);
      }
      hide LeftToSend;
      var delivered: bool := *;
      delivered := delivered || reliable;
      Step(Send(id, delivered), before, began);
      if !delivered {
        return;
      }
      var recorded: bool := *;
      Step(Mark(id, recorded || reliable), before, began);
      if reliable {
        FirstDone(w, db.world, pending);
      }
    }
  }

  lemma NothingRanYet(db: Database)
    ensures Ran(db.world, db.done, db)
  {
    assert db.done[|db.done|..] == [];
  }

  lemma SkippedNoLongerCounts(w: World, e: nat)
    requires Possible(w, SkipInfo(e)) && LeftToSend(w, w.PhaseOf(e).pending)
    ensures forall k :: Awaiting(Next(w, SkipInfo(e)), k) ==>
      Awaiting(w, k) && (k != w.PhaseOf(e).pending[0].id || w.rows[k].severity.Info?)
  {
  }

  predicate Listed(pending: seq<Picked>, k: nat) {
    exists i :: 0 <= i < |pending| && pending[i].id == k
  }

  // Each alert still awaiting is either on the list or not worth a message.
  ghost predicate LeftToSend(w: World, pending: seq<Picked>) {
    && (forall i :: 0 <= i < |pending| ==>
          pending[i].id in w.rows && pending[i].severity == w.rows[pending[i].id].severity)
    && (forall k :: Awaiting(w, k) ==> w.rows[k].severity.Info? || Listed(pending, k))
  }

  lemma PickLeaves(w: World, e: nat, ids: seq<nat>)
    requires Possible(w, Pick(e, ids))
    ensures LeftToSend(Next(w, Pick(e, ids)), PickedRows(w, ids))
  {
    var w', pending := Next(w, Pick(e, ids)), PickedRows(w, ids);
    forall k | Awaiting(w', k) ensures Listed(pending, k) {
      assert Awaiting(w, k) && k in ids;
      var i :| 0 <= i < |ids| && ids[i] == k;
      assert pending[i].id == k;
    }
  }

  // Done with the first: it no longer awaits, or never merited a message.
  lemma FirstDone(w: World, w': World, pending: seq<Picked>)
    requires pending != [] && LeftToSend(w, pending)
    requires w'.rows.Keys == w.rows.Keys && forall k :: k in w.rows ==> w'.rows[k].severity == w.rows[k].severity
    requires forall k :: Awaiting(w', k) ==> Awaiting(w, k) && (k != pending[0].id || w.rows[k].severity.Info?)
    ensures LeftToSend(w', pending[1..])
  {
    forall k | Awaiting(w', k) && !w'.rows[k].severity.Info? ensures Listed(pending[1..], k) {
      assert Listed(pending, k);
      var i :| 0 <= i < |pending| && pending[i].id == k;
      assert pending[1..][i - 1].id == k;
    }
  }

  lemma MarkedNoLongerAwaits(w: World, e: nat)
    requires Possible(w, Send(e, true)) && w.PhaseOf(e).pending[0].id in w.rows
    ensures
      var w' := Next(w, Send(e, true));
      && Possible(w', Mark(e, true))
      && var w'' := Next(w', Mark(e, true));
         && w''.rows.Keys == w.rows.Keys && (forall k :: k in w.rows ==> w''.rows[k].severity == w.rows[k].severity)
         && w''.PhaseOf(e) == Notifying(w.PhaseOf(e).pending[1..])
         && (forall k :: Awaiting(w'', k) ==> Awaiting(w, k) && k != w.PhaseOf(e).pending[0].id)
  {
  }
}
