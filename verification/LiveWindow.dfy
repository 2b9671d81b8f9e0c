// The last sixty seconds of traffic, in a ring of one slot per second that is
// cleared only when it is next written.
module LiveWindow {
  const WINDOW_SECONDS := 60

  // Which second a slot holds, and that second's counts.
  datatype SecondBucket = SecondBucket(second: nat, requests: nat, bytesIn: nat, bytesOut: nat)

  // A completed request.
  datatype Event = Event(second: nat, bytesIn: nat, bytesOut: nat)

  datatype Point = Point(second: nat, requests: nat, bytesIn: nat, bytesOut: nat)

  // ---------------------------------------- what the history says of a second

  function Requests(history: seq<Event>, second: nat): nat {
    if history == [] then 0 else
    Requests(history[..|history| - 1], second) + (if history[|history| - 1].second == second then 1 else 0)
  }

  function BytesIn(history: seq<Event>, second: nat): nat {
    if history == [] then 0 else
    BytesIn(history[..|history| - 1], second)
      + (if history[|history| - 1].second == second then history[|history| - 1].bytesIn else 0)
  }

  function BytesOut(history: seq<Event>, second: nat): nat {
    if history == [] then 0 else
    BytesOut(history[..|history| - 1], second)
      + (if history[|history| - 1].second == second then history[|history| - 1].bytesOut else 0)
  }

  function Exactly(history: seq<Event>, second: nat): Point {
    Point(second, Requests(history, second), BytesIn(history, second), BytesOut(history, second))
  }

  predicate Seen(history: seq<Event>, second: nat) {
    exists i :: 0 <= i < |history| && history[i].second == second
  }

  lemma SeenEarlier(history: seq<Event>, second: nat)
    requires history != []
    ensures history[|history| - 1].second == second ==> Seen(history, second)
    ensures Seen(history[..|history| - 1], second) ==> Seen(history, second)
  {
    if Seen(history[..|history| - 1], second) {
      var i :| 0 <= i < |history| - 1 && history[..|history| - 1][i].second == second;
      assert history[i].second == second;
    }
  }

  lemma {:induction false} UnseenIsZero(history: seq<Event>, second: nat)
    requires !Seen(history, second)
    ensures Exactly(history, second) == Point(second, 0, 0, 0)
  {
    if history != [] {
      SeenEarlier(history, second);
      UnseenIsZero(history[..|history| - 1], second);
    }
  }

  lemma AppendCounts(history: seq<Event>, e: Event, second: nat)
    ensures
      var was, after := Exactly(history, second), Exactly(history + [e], second);
      after == if e.second == second then Point(second, was.requests + 1, was.bytesIn + e.bytesIn, was.bytesOut
          + e.bytesOut)
            else was
  {
    assert (history + [e])[..|history|] == history;
  }

  // ------------------------------------------------------------------ slots

  // A slot holds the latest of its seconds recorded, counted in full; an unused
  // one holds nothing.
  predicate SlotOk(history: seq<Event>, slot: nat, b: SecondBucket) {
    && (forall i :: 0 <= i < |history| && history[i].second % WINDOW_SECONDS == slot ==> history[i].second <= b.second)
    && (b.second == 0 || Seen(history, b.second))
    && (if b.second % WINDOW_SECONDS == slot then
          Exactly(history, b.second) == Point(b.second, b.requests, b.bytesIn, b.bytesOut)
        else b == SecondBucket(0, 0, 0, 0))
  }

  // No record is a whole window behind one already made. A clock that never goes
  // back gives this, and so does one request overtaking another by less.
  predicate InStep(history: seq<Event>, second: nat) {
    forall i :: 0 <= i < |history| ==> history[i].second < second + WINDOW_SECONDS
  }

  function Recorded(b: SecondBucket, e: Event): SecondBucket {
    var fresh_ := if b.second != e.second then SecondBucket(e.second, 0, 0, 0) else b;
    fresh_.(requests := fresh_.requests + 1, bytesIn := fresh_.bytesIn + e.bytesIn, bytesOut := fresh_.bytesOut
        + e.bytesOut)
  }

  lemma SlotBelow(b: nat, s: nat)
    requires b % WINDOW_SECONDS == s % WINDOW_SECONDS && b < s + WINDOW_SECONDS
    ensures b <= s
  {
  }

  lemma RecordInSlot(history: seq<Event>, e: Event, b: SecondBucket)
    requires SlotOk(history, e.second % WINDOW_SECONDS, b) && InStep(history, e.second)
    ensures SlotOk(history + [e], e.second % WINDOW_SECONDS, Recorded(b, e))
  {
    var slot := e.second % WINDOW_SECONDS;
    var history' := history + [e];
    assert history'[|history|] == e;
    AppendCounts(history, e, e.second);
    if b.second != e.second {
      if Seen(history, e.second) {
        var i :| 0 <= i < |history| && history[i].second == e.second;
        assert e.second <= b.second;
        if Seen(history, b.second) {
          SlotBelow(b.second, e.second);
        }
      }
      UnseenIsZero(history, e.second);
    }
    forall i | 0 <= i < |history'|
        && history'[i].second % WINDOW_SECONDS == slot ensures history'[i].second <= e.second {
      if i < |history| {
        SlotBelow(history[i].second, e.second);
      }
    }
  }

  lemma RecordElsewhere(history: seq<Event>, e: Event, slot: nat, b: SecondBucket)
    requires SlotOk(history, slot, b) && e.second % WINDOW_SECONDS != slot
    ensures SlotOk(history + [e], slot, b)
  {
    var history' := history + [e];
    AppendCounts(history, e, b.second);
    if Seen(history, b.second) {
      var i :| 0 <= i < |history| && history[i].second == b.second;
      assert history'[i].second == b.second;
    }
  }

  // What a slot says of a second inside the window is the truth.
  lemma SlotAnswers(history: seq<Event>, now: nat, second: nat, b: SecondBucket)
    requires SlotOk(history, second % WINDOW_SECONDS, b)
    requires now < second + WINDOW_SECONDS && forall i :: 0 <= i < |history| ==> history[i].second <= now
    ensures Exactly(history, second) ==
      if b.second == second then Point(second, b.requests, b.bytesIn, b.bytesOut) else Point(second, 0, 0, 0)
  {
    if b.second != second {
      if Seen(history, second) {
        var i :| 0 <= i < |history| && history[i].second == second;
        assert second <= b.second;
        SlotBelow(b.second, second);
      }
      UnseenIsZero(history, second);
    }
  }

  class LiveWindow {
    const buckets: array<SecondBucket>
    // Every request ever recorded.
    ghost var history: seq<Event>

    ghost predicate Valid()
      reads this, buckets
    {
      buckets.Length == WINDOW_SECONDS && forall i :: 0 <= i < WINDOW_SECONDS ==> SlotOk(history, i, buckets[i])
    }

    constructor ()
      ensures Valid() && history == [] && fresh(buckets)
    {
      history := [];
      buckets := new SecondBucket[WINDOW_SECONDS](_ => SecondBucket(0, 0, 0, 0));
    }

    method Record(now: nat, bytesIn: nat, bytesOut: nat)
      requires Valid() && InStep(history, now)
      modifies this, buckets
      ensures Valid() && history == old(history) + [Event(now, bytesIn, bytesOut)]
    {
      var index := now % WINDOW_SECONDS;
      ghost var e := Event(now, bytesIn, bytesOut);
      ghost var before := history;
      RecordInSlot(before, e, buckets[index]);
      forall i | 0 <= i < WINDOW_SECONDS && i != index ensures SlotOk(before + [e], i, buckets[i]) {
        RecordElsewhere(before, e, i, buckets[i]);
      }
      if buckets[index].second != now {
        buckets[index] := SecondBucket(now, 0, 0, 0);
      }
      var b := buckets[index];
      buckets[index] := b.(requests := b.requests + 1, bytesIn := b.bytesIn + bytesIn, bytesOut := b.bytesOut
          + bytesOut);
      history := history + [e];
    }

    // The last sixty seconds, oldest first, each counted exactly over everything
    // ever recorded.
    method Snapshot(now: nat) returns (points: seq<Point>)
      requires Valid() && now >= WINDOW_SECONDS - 1
      requires forall i :: 0 <= i < |history| ==> history[i].second <= now
      ensures |points| == WINDOW_SECONDS
      ensures forall i :: 0 <= i < WINDOW_SECONDS ==> points[i] == Exactly(history, now - (WINDOW_SECONDS - 1 - i))
    {
      points := [];
      for i := 0 to WINDOW_SECONDS
        invariant |points| == i
        invariant forall j :: 0 <= j < i ==> points[j] == Exactly(history, now - (WINDOW_SECONDS - 1 - j))
      {
        var second := now - (WINDOW_SECONDS - 1 - i);
        var bucket := buckets[second % WINDOW_SECONDS];
        SlotAnswers(history, now, second, bucket);
        var point := Point(second, 0, 0, 0);
        if bucket.second == second {
          point := Point(second, bucket.requests, bucket.bytesIn, bucket.bytesOut);
        }
        points := points + [point];
      }
    }
  }
}
