/** Properties of every run of the client: nothing is lost, nothing waits in vain. */
module TcpClientLaws {
  import opened Machine
  import opened Text
  import opened TcpClient

  function Run(s: State, events: seq<Event>): State
    decreases |events|
  {
    if events == [] then s else Run(Step(s, events[0]), events[1..])
  }

  predicate NoEmptyRecord(queue: seq<string>) {
    forall k :: 0 <= k < |queue| ==> queue[k] != ""
  }

  predicate IsPrefix(s: string, t: string) {
    |s| <= |t| && t[..|s|] == s
  }

  /** What every reachable state satisfies. */
  predicate Invariant(s: State) {
    && NoEmptyRecord(s.queue)
    && (s.status != Failed ==> s.submitted == s.sent + Concat(s.queue))
    && IsPrefix(s.sent, s.submitted)
    && (s.status == Running && s.queue != [] ==> s.armed)
  }

  lemma SubmittedKeeps(s: State, data: string)
    requires Invariant(s) && s.status == Running
    ensures Invariant(Submitted(s, data))
  {
    ConcatSnoc(s.queue, data);
    hide Concat;
    assert s.queue + [] == s.queue;
    assert s.sent + Concat(s.queue) + data == s.sent + (Concat(s.queue) + data);
  }

  lemma {:induction false} SubmittedAllKeeps(s: State, reaction: seq<string>)
    requires Invariant(s) && s.status == Running
    ensures Invariant(SubmittedAll(s, reaction))
    decreases |reaction|
  {
    hide Invariant;
    if reaction == [] {
    } else {
      SubmittedAllKeeps(s, reaction[..|reaction| - 1]);
      SubmittedKeeps(SubmittedAll(s, reaction[..|reaction| - 1]), reaction[|reaction| - 1]);
    }
  }

  /** A write moves bytes from the head of the queue to what has been sent; a failed one drops the head record. */
  lemma PushedMoves(s: State, w: Write)
    requires s.queue != []
    ensures var t := Pushed(s, w);
            t.sent + (if w == WriteError then s.queue[0] else "") + Concat(t.queue) == s.sent + Concat(s.queue)
    ensures NoEmptyRecord(s.queue) ==> NoEmptyRecord(Pushed(s, w).queue)
  {
    var head, tail := s.queue[0], s.queue[1..];
    if w.Wrote? {
      var k := Accepted(head, w.n);
      ConcatCons(head[k..], tail);
      assert head == head[..k] + head[k..];
      assert head[k..] == "" ==> [] + tail == tail && Concat(tail) == head[k..] + Concat(tail);
      hide Concat;
      assert s.sent + (head[..k] + head[k..] + Concat(tail)) == s.sent + head[..k] + "" + (head[k..] + Concat(tail));
    } else if w == WriteError {
      assert s.sent + head + Concat(tail) == s.sent + (head + Concat(tail));
    } else {
      assert s.sent + "" == s.sent;
    }
  }

  lemma PrefixOfSum(s: string, t: string, u: string)
    requires s + t == u
    ensures IsPrefix(s, u)
  {
  }

  lemma PushedKeeps(s: State, w: Write)
    requires Invariant(s) && s.status == Running
    ensures Invariant(Pushed(s, w))
  {
    if s.queue != [] {
      PushedMoves(s, w);
      var t := Pushed(s, w);
      var lost := if w == WriteError then s.queue[0] else "";
      hide Concat, NoEmptyRecord, IsPrefix;
      assert t.sent + lost + Concat(t.queue) == t.sent + (lost + Concat(t.queue));
      PrefixOfSum(t.sent, lost + Concat(t.queue), t.submitted);
      assert w != WriteError ==> t.sent + "" == t.sent;
    }
  }

  /** Every step of the client keeps the invariant, whatever the system calls return. */
  lemma StepKeeps(s: State, e: Event)
    requires Invariant(s)
    ensures Invariant(Step(s, e))
  {
    hide Submitted, SubmittedAll, Pushed, Concat, NoEmptyRecord, IsPrefix;
    if s.status == Running {
      match e
      case Submit(data) => SubmittedKeeps(s, data);
      case Io(error, read, write) =>
        if !error {
          match read {
            case Some(Received(chunk, reaction)) =>
              SubmittedAllKeeps(s.(received := s.received + [chunk]), reaction);
            case _ =>
          }
          var t := AfterRead(s, read);
          if t.status == Running && write.Some? {
            PushedKeeps(t, write.value);
          }
        }
    }
  }

  /** What has been sent is never taken back. */
  lemma SentGrows(s: State, e: Event)
    ensures IsPrefix(s.sent, Step(s, e).sent)
  {
    if e.Io? && e.read.Some? && e.read.value.Received? {
      SentStays(s.(received := s.received + [e.read.value.chunk]), e.read.value.reaction);
    }
    hide SubmittedAll;
  }

  lemma {:induction false} SentStays(s: State, reaction: seq<string>)
    ensures SubmittedAll(s, reaction).sent == s.sent
    decreases |reaction|
  {
    if reaction == [] {
    } else {
      SentStays(s, reaction[..|reaction| - 1]);
    }
  }

  lemma StartHolds()
    ensures Invariant(START)
  {
    assert "" == "" + Concat([]);
  }

  /**
   In every reachable state that has not failed, what was submitted is what was sent and what is queued, in order;
   what was sent is a prefix of it even after a failure; no queued record is empty; and whenever data is queued on
   a running client, write interest is armed.
   */
  lemma {:induction false} EveryRunKeeps(s: State, events: seq<Event>)
    requires Invariant(s)
    ensures Invariant(Run(s, events))
    decreases |events|
  {
    hide Invariant, Step;
    if events == [] {
    } else {
      StepKeeps(s, events[0]);
      EveryRunKeeps(Step(s, events[0]), events[1..]);
    }
  }

  /** A failing write loses the record that it was to write, and nothing else. */
  lemma FailedWriteLosesOneRecord(s: State, read: Option<Read>)
    requires Invariant(s) && s.status == Running
    requires Step(s, Io(false, read, Some(WriteError))).status == Failed && read != Some(ReadError)
    ensures var t, u := Step(s, Io(false, read, Some(WriteError))), AfterRead(s, read);
            && u.queue != [] && u.queue[0] != ""
            && t.submitted == t.sent + u.queue[0] + Concat(t.queue)
  {
    hide SubmittedAll, Concat;
    var u := AfterRead(s, read);
    if read.Some? && read.value.Received? {
      SubmittedAllKeeps(s.(received := s.received + [read.value.chunk]), read.value.reaction);
    }
    assert u.status == Running && Invariant(u);
    PushedMoves(u, WriteError);
  }

  // ----- What a run has seen -----

  /** All that the events pass to write_data, from outside and from the callback, in order. */
  function DataOf(events: seq<Event>): string {
    if events == [] then "" else DataOfOne(events[0]) + DataOf(events[1..])
  }

  function DataOfOne(e: Event): string {
    match e
    case Submit(data) => data
    case Io(error, read, _) =>
      if !error && read.Some? && read.value.Received? then Concat(read.value.reaction) else ""
  }

  function ChunksOf(events: seq<Event>): seq<string> {
    if events == [] then [] else ChunksOfOne(events[0]) + ChunksOf(events[1..])
  }

  function ChunksOfOne(e: Event): seq<string> {
    if e.Io? && !e.error && e.read.Some? && e.read.value.Received? then [e.read.value.chunk] else []
  }

  lemma {:induction false} ReactionIsSubmitted(s: State, reaction: seq<string>)
    ensures var t := SubmittedAll(s, reaction);
            t.submitted == s.submitted + Concat(reaction) && t.received == s.received
    decreases |reaction|
  {
    if reaction == [] {
      assert s.submitted + "" == s.submitted;
    } else {
      var front, last := reaction[..|reaction| - 1], reaction[|reaction| - 1];
      ReactionIsSubmitted(s, front);
      ConcatSnoc(front, last);
      hide Concat;
      assert front + [last] == reaction;
      assert s.submitted + Concat(front) + last == s.submitted + (Concat(front) + last);
    }
  }

  /** A step, failing or not, records what it passes to write_data and what it receives. */
  lemma StepRecords(s: State, e: Event)
    requires s.status == Running
    ensures Step(s, e).submitted == s.submitted + DataOfOne(e)
    ensures Step(s, e).received == s.received + ChunksOfOne(e)
  {
    hide SubmittedAll, Concat;
    assert s.submitted + "" == s.submitted && s.received + [] == s.received;
    if e.Io? && !e.error && e.read.Some? && e.read.value.Received? {
      ReactionIsSubmitted(s.(received := s.received + [e.read.value.chunk]), e.read.value.reaction);
    }
  }

  lemma OnlyRunningSteps(s: State, e: Event)
    ensures Step(s, e).status == Running ==> s.status == Running
  {
  }

  /** While the client runs, no data that was passed to it is missing or out of order, and neither is a chunk. */
  lemma {:induction false} RunRecords(s: State, events: seq<Event>)
    requires Run(s, events).status == Running
    ensures s.status == Running
    ensures Run(s, events).submitted == s.submitted + DataOf(events)
    ensures Run(s, events).received == s.received + ChunksOf(events)
    decreases |events|
  {
    hide Step, DataOfOne, ChunksOfOne;
    if events == [] {
      assert s.submitted + "" == s.submitted && s.received + [] == s.received;
    } else {
      RunRecords(Step(s, events[0]), events[1..]);
      OnlyRunningSteps(s, events[0]);
      StepRecords(s, events[0]);
      assert s.submitted + DataOfOne(events[0]) + DataOf(events[1..])
          == s.submitted + (DataOfOne(events[0]) + DataOf(events[1..]));
      assert s.received + ChunksOfOne(events[0]) + ChunksOf(events[1..])
          == s.received + (ChunksOfOne(events[0]) + ChunksOf(events[1..]));
    }
  }

  // ----- Write interest -----

  lemma {:induction false} RunSnoc(s: State, events: seq<Event>, last: Event)
    ensures Run(s, events + [last]) == Step(Run(s, events), last)
    decreases |events|
  {
    hide Step;
    if events == [] {
      assert [] + [last] == [last] && [last][1..] == [];
    } else {
      RunSnoc(Step(s, events[0]), events[1..], last);
      assert (events + [last])[1..] == events[1..] + [last];
    }
  }

  /** Whether something has been submitted since the last event that was handled. */
  predicate SubmittedSince(events: seq<Event>)
    decreases |events|
  {
    if events == [] then false
    else match events[|events| - 1]
      case Submit(_) => true
      case Io(error, _, _) => error && SubmittedSince(events[..|events| - 1])
  }

  /**
   At every point of every run: a running client has write interest armed exactly if data is queued, or something, be it
   empty, has been submitted since the last handled event. So no data waits in vain, and an event that finds nothing to
   write ends the interest.
   */
  lemma {:induction false} InterestIsExact(events: seq<Event>)
    ensures var t := Run(START, events);
            t.status == Running ==> (t.armed <==> t.queue != [] || SubmittedSince(events))
    decreases |events|
  {
    hide Run, Pushed, SubmittedAll;
    if events == [] {
      NoEvents();
    } else {
      var front, last := events[..|events| - 1], events[|events| - 1];
      InterestIsExact(front);
      RunSnoc(START, front, last);
      assert events == front + [last];
      OnlyRunningSteps(Run(START, front), last);
    }
  }

  lemma NoEvents()
    ensures Run(START, []) == START
  {
  }

  // ----- Draining -----

  /** Write events only, each of which takes at least one byte. */
  predicate Writing(events: seq<Event>) {
    forall k :: 0 <= k < |events| ==>
      && events[k].Io? && !events[k].error && events[k].read == None
      && events[k].write.Some? && events[k].write.value.Wrote? && events[k].write.value.n > 0
  }

  lemma WriteEventShrinks(s: State, e: Event)
    requires Invariant(s) && s.status == Running && Writing([e])
    ensures var t := Step(s, e);
            && t.status == Running && t.submitted == s.submitted
            && (s.queue != [] ==> |Concat(t.queue)| < |Concat(s.queue)|)
            && (s.queue == [] ==> t.queue == [])
  {
    assert [e][0] == e;
    if s.queue != [] {
      PushedMoves(s, e.write.value);
      hide Concat;
      var t := Pushed(s, e.write.value);
      assert |t.sent| > |s.sent|;
    }
  }

  /**
   Pending bytes are a measure: that many write events empty the queue, and everything submitted has been sent.
   Until then each of them can happen, because write interest stays armed.
   */
  lemma {:induction false} WritingDrains(s: State, events: seq<Event>)
    requires Invariant(s) && s.status == Running && Writing(events)
    ensures var t := Run(s, events);
            && t.status == Running && t.submitted == s.submitted
            && (t.queue != [] ==> t.armed)
            && (|events| >= |Concat(s.queue)| ==> t.queue == [] && t.sent == s.submitted)
    decreases |events|
  {
    hide Step, Concat, NoEmptyRecord, IsPrefix;
    if events != [] {
      assert Writing([events[0]]) && Writing(events[1..]);
      WriteEventShrinks(s, events[0]);
      StepKeeps(s, events[0]);
      WritingDrains(Step(s, events[0]), events[1..]);
      NothingPending(s.queue);
    } else {
      NothingPending(s.queue);
      NothingQueued();
      assert s.sent + "" == s.sent;
    }
  }

  lemma NothingQueued()
    ensures Concat([]) == ""
  {
  }

  lemma NothingPending(queue: seq<string>)
    requires NoEmptyRecord(queue)
    ensures |Concat(queue)| == 0 <==> queue == []
  {
  }
}
