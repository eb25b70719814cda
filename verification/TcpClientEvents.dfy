/** What each event does to the queue, to what is sent and to the status: the amounts are those that `write` returns. */
module TcpClientEvents {
  import opened Machine
  import opened TcpClient
  import opened TcpClientLaws

  /** The records that these calls of write_data queue: empty data gives none. */
  function Records(data: seq<string>): seq<string>
    decreases |data|
  {
    if data == [] then []
    else Records(data[..|data| - 1]) + if data[|data| - 1] == "" then [] else [data[|data| - 1]]
  }

  lemma {:induction false} ReactionQueues(s: State, reaction: seq<string>)
    ensures var t := SubmittedAll(s, reaction);
            && t.queue == s.queue + Records(reaction) && t.sent == s.sent
            && t.received == s.received && t.status == s.status
    decreases |reaction|
  {
    if reaction == [] {
      assert s.queue + [] == s.queue;
    } else {
      var front, last := reaction[..|reaction| - 1], reaction[|reaction| - 1];
      ReactionQueues(s, front);
      var more := if last == "" then [] else [last];
      assert s.queue + (Records(front) + more) == s.queue + Records(front) + more;
    }
  }

  // ----- One write -----

  /** A write takes the bytes it returns off the head of the queue, and no others. */
  lemma WriteTakes(s: State, n: nat)
    requires s.queue != []
    ensures var t, head, rest := Pushed(s, Wrote(n)), s.queue[0], s.queue[1..];
            && t.status == s.status
            && (n < |head| ==> t.sent == s.sent + head[..n] && t.queue == [head[n..]] + rest)
            && (n >= |head| ==> t.sent == s.sent + head && t.queue == rest)
    ensures var t := Pushed(s, Eagain); t.sent == s.sent && t.queue == s.queue && t.status == s.status
    ensures var t := Pushed(s, WriteError); t.sent == s.sent && t.queue == s.queue[1..] && t.status == Failed
  {
    var head, rest := s.queue[0], s.queue[1..];
    assert head[|head|..] == "" && head[..|head|] == head && [] + rest == rest;
  }

  // ----- One event -----

  /** No read, or one that returns data: the client goes on to the write. */
  predicate GoesOn(read: Option<Read>) {
    read.None? || read.value.Received?
  }

  /** The queue when the write of an event begins: the reaction of the callback is in it already. */
  function QueueAtWrite(s: State, read: Option<Read>): seq<string>
    requires GoesOn(read)
  {
    s.queue + if read.Some? then Records(read.value.reaction) else []
  }

  /** After the read of an event, if there is one, its write works on what is queued by then. */
  lemma EventWrites(s: State, read: Option<Read>, write: Option<Write>)
    requires s.status == Running && GoesOn(read)
    ensures var t, q := Step(s, Io(false, read, write)), QueueAtWrite(s, read);
            && (t.status == Running ==> (t.armed <==> t.queue != []))
            && if q == [] || write.None? then t.status == Running && t.sent == s.sent && t.queue == q
               else match write.value
                    case Wrote(n) =>
                      && t.status == Running
                      && (n < |q[0]| ==> t.sent == s.sent + q[0][..n] && t.queue == [q[0][n..]] + q[1..])
                      && (n >= |q[0]| ==> t.sent == s.sent + q[0] && t.queue == q[1..])
                    case Eagain => t.status == Running && t.sent == s.sent && t.queue == q
                    case WriteError => t.status == Failed && t.sent == s.sent && t.queue == q[1..]
  {
    hide SubmittedAll, Records;
    assert s.queue + [] == s.queue;
    if read.Some? {
      ReactionQueues(s.(received := s.received + [read.value.chunk]), read.value.reaction);
    }
    var u := AfterRead(s, read);
    assert u.queue == QueueAtWrite(s, read) && u.sent == s.sent && u.status == Running;
    if u.queue != [] && write.Some? {
      hide AfterRead, QueueAtWrite;
      WriteTakes(u, if write.value.Wrote? then write.value.n else 0);
      hide Pushed;
    }
  }

  /** The events that end before a write, and data from outside. */
  lemma OtherEvents(s: State, read: Option<Read>, write: Option<Write>, data: string)
    ensures Step(s, Io(true, read, write)) == s
    ensures s.status == Running ==> Step(s, Io(false, Some(ReadError), write)) == s.(status := Failed)
    ensures s.status == Running ==> Step(s, Io(false, Some(PeerClosed), write)) == s.(status := Closed)
    ensures s.status == Running ==>
              Step(s, Submit(data))
              == s.(submitted := s.submitted + data, queue := s.queue + Records([data]), armed := true)
  {
    assert [data][..0] == [] && Records([]) == [];
  }

  // ----- The bytes of a run -----

  /** Whether `write` is called in this event. */
  predicate CallsWrite(s: State, e: Event) {
    && s.status == Running && e.Io? && !e.error && GoesOn(e.read)
    && e.write.Some? && QueueAtWrite(s, e.read) != []
  }

  /** `write` never returns more than it was given. */
  predicate Sensible(s: State, e: Event) {
    CallsWrite(s, e) && e.write.value.Wrote? ==> e.write.value.n <= |QueueAtWrite(s, e.read)[0]|
  }

  function Returned(s: State, e: Event): nat {
    if CallsWrite(s, e) && e.write.value.Wrote? then e.write.value.n else 0
  }

  /** The sum of what the calls of `write` in a run return. */
  function ReturnedBy(s: State, events: seq<Event>): nat
    decreases |events|
  {
    if events == [] then 0 else Returned(s, events[0]) + ReturnedBy(Step(s, events[0]), events[1..])
  }

  predicate AllSensible(s: State, events: seq<Event>)
    decreases |events|
  {
    events == [] || (Sensible(s, events[0]) && AllSensible(Step(s, events[0]), events[1..]))
  }

  lemma StepSends(s: State, e: Event)
    requires Sensible(s, e)
    ensures |Step(s, e).sent| == |s.sent| + Returned(s, e)
  {
    hide QueueAtWrite, SubmittedAll, Records;
    if s.status == Running && e.Io? && !e.error && GoesOn(e.read) {
      EventWrites(s, e.read, e.write);
      hide Step;
    }
  }

  /** Over every run, as many bytes are sent as the calls of `write` have returned. */
  lemma {:induction false} SentIsReturned(s: State, events: seq<Event>)
    requires AllSensible(s, events)
    ensures |Run(s, events).sent| == |s.sent| + ReturnedBy(s, events)
    decreases |events|
  {
    hide Step, Sensible, Returned;
    if events == [] {
    } else {
      StepSends(s, events[0]);
      SentIsReturned(Step(s, events[0]), events[1..]);
    }
  }
}
