/** Two clients, two byte streams that keep their order, and a line buffer at either end. */
module EndToEnd {
  import opened Machine
  import opened Text
  import opened LineBuffer
  import opened LineBufferLaws
  import opened TcpClient
  import opened TcpClientLaws

  /** A client, what its line callback has seen, and its line buffer. */
  datatype End = End(client: State, calls: seq<Call>, data: string)

  /** `toRight` has been sent by the left end and not yet received by the right one; `toLeft` the other way round. */
  datatype System = System(left: End, right: End, toRight: string, toLeft: string)

  /**
   An event that receives nothing, or one whose `recv` returns n bytes, with what the callback writes and what the
   write behind it returns. That the peer has closed may be reported at any time.
   */
  datatype Turn = Local(event: Event) | Receive(n: nat, reaction: seq<string>, write: Option<Write>)

  datatype Action = At(left: bool, turn: Turn)

  const RECV_SIZE: nat := 1024

  function Initial(): System {
    System(End(START, [], ""), End(START, [], ""), "", "")
  }

  function Flip(s: System): System {
    System(s.right, s.left, s.toLeft, s.toRight)
  }

  /** What the callback of this end has got so far. */
  function Arrived(end: End): string {
    Concat(end.client.received)
  }

  predicate Possible(s: System, turn: Turn) {
    && s.left.client.status == Running
    && match turn
       case Local(e) => ChunksOfOne(e) == []
       case Receive(n, _, _) => 0 < n <= RECV_SIZE && n <= |s.toLeft|
  }

  function EventOf(s: System, turn: Turn): Event
    requires Possible(s, turn)
  {
    match turn
    case Local(e) => e
    case Receive(n, reaction, write) => Io(false, Some(Received(s.toLeft[..n], reaction)), write)
  }

  function NewlySent(before: State, after: State): string {
    if |after.sent| >= |before.sent| then after.sent[|before.sent|..] else ""
  }

  /** What the left end sends in a turn enters the one channel; what it receives leaves the other. */
  function LeftTurn(max: nat, s: System, turn: Turn): System
    requires Possible(s, turn)
  {
    var c := Step(s.left.client, EventOf(s, turn));
    var toRight := s.toRight + NewlySent(s.left.client, c);
    match turn
    case Local(_) => System(s.left.(client := c), s.right, toRight, s.toLeft)
    case Receive(n, _, _) => System(Fed(max, s.left, s.toLeft[..n], c), s.right, toRight, s.toLeft[n..])
  }

  function Fed(max: nat, end: End, chunk: string, c: State): End {
    var r := Feed(DefaultSearch, max, end.data, chunk);
    End(c, end.calls + Calls(r.pieces), r.rest)
  }

  /** What cannot happen changes nothing. */
  function Next(max: nat, s: System, a: Action): System {
    var t := if a.left then s else Flip(s);
    if !Possible(t, a.turn) then s
    else if a.left then LeftTurn(max, t, a.turn)
    else Flip(LeftTurn(max, t, a.turn))
  }

  function RunSystem(max: nat, s: System, actions: seq<Action>): System
    decreases |actions|
  {
    if actions == [] then s else RunSystem(max, Next(max, s, actions[0]), actions[1..])
  }

  // ----- The invariant -----

  /** One of the two ways through the system. */
  datatype Way = Way(from: State, channel: string, to: End)

  function WayOf(s: System, rightwards: bool): Way {
    if rightwards then Way(s.left.client, s.toRight, s.right) else Way(s.right.client, s.toLeft, s.left)
  }

  ghost predicate Carries(max: nat, w: Way) {
    var r := FeedAll(DefaultSearch, max, "", w.to.client.received);
    && Invariant(w.from)
    && w.from.sent == Arrived(w.to) + w.channel
    && w.to.calls == Calls(r.pieces) && w.to.data == r.rest
  }

  ghost predicate SystemInvariant(max: nat, s: System) {
    Carries(max, WayOf(s, true)) && Carries(max, WayOf(s, false))
  }

  lemma {:induction false} FeedAllSnoc(max: nat, data: string, chunks: seq<string>, last: string)
    ensures var r := FeedAll(DefaultSearch, max, data, chunks);
            FeedAll(DefaultSearch, max, data, chunks + [last]) == Append(r, Feed(DefaultSearch, max, r.rest, last))
    decreases |chunks|
  {
    hide Feed;
    if chunks == [] {
      var f := Feed(DefaultSearch, max, data, last);
      assert [] + [last] == [last] && [last][1..] == [];
      assert FeedAll(DefaultSearch, max, f.rest, []) == Outcome([], f.rest);
      assert f.pieces + [] == f.pieces == [] + f.pieces;
    } else {
      var f := Feed(DefaultSearch, max, data, chunks[0]);
      FeedAllSnoc(max, f.rest, chunks[1..], last);
      assert (chunks + [last])[1..] == chunks[1..] + [last] && (chunks + [last])[0] == chunks[0];
      var r := FeedAll(DefaultSearch, max, f.rest, chunks[1..]);
      var g := Feed(DefaultSearch, max, r.rest, last);
      assert f.pieces + (r.pieces + g.pieces) == f.pieces + r.pieces + g.pieces;
    }
  }

  lemma SenderKeeps(max: nat, w: Way, e: Event)
    requires Carries(max, w)
    ensures var c := Step(w.from, e); Carries(max, Way(c, w.channel + NewlySent(w.from, c), w.to))
  {
    hide Invariant, Step, Feed, FeedAll, Calls, Concat;
    StepKeeps(w.from, e);
    SentGrows(w.from, e);
    Associate(Arrived(w.to), w.channel, NewlySent(w.from, Step(w.from, e)));
  }

  lemma ReceiverKeeps(max: nat, w: Way, n: nat, c: State)
    requires Carries(max, w) && n <= |w.channel| && c.received == w.to.client.received + [w.channel[..n]]
    ensures Carries(max, Way(w.from, w.channel[n..], Fed(max, w.to, w.channel[..n], c)))
  {
    hide Invariant, Feed, FeedAll, Calls, Concat;
    var chunk, chunks := w.channel[..n], w.to.client.received;
    ConcatSnoc(chunks, chunk);
    FeedAllSnoc(max, "", chunks, chunk);
    CallsOfBoth(FeedAll(DefaultSearch, max, "", chunks).pieces, Feed(DefaultSearch, max, w.to.data, chunk).pieces);
    assert w.channel == chunk + w.channel[n..];
    Associate(Concat(chunks), chunk, w.channel[n..]);
  }

  /** What a turn adds to the chunks that the left end has received. */
  lemma TurnReceives(s: System, turn: Turn)
    requires Possible(s, turn)
    ensures Step(s.left.client, EventOf(s, turn)).received
            == s.left.client.received + match turn case Local(_) => [] case Receive(n, _, _) => [s.toLeft[..n]]
  {
    hide Step;
    StepRecords(s.left.client, EventOf(s, turn));
  }

  lemma LeftKeeps(max: nat, s: System, turn: Turn)
    requires SystemInvariant(max, s) && Possible(s, turn)
    ensures SystemInvariant(max, LeftTurn(max, s, turn))
  {
    var c := Step(s.left.client, EventOf(s, turn));
    SenderKeeps(max, WayOf(s, true), EventOf(s, turn));
    TurnReceives(s, turn);
    hide Carries, Step, Fed, EventOf, NewlySent;
    match turn
    case Local(_) =>
      assert c.received == s.left.client.received;
      SameChunks(max, WayOf(s, false), c);
    case Receive(n, _, _) =>
      ReceiverKeeps(max, WayOf(s, false), n, c);
  }

  lemma SameChunks(max: nat, w: Way, c: State)
    requires Carries(max, w) && c.received == w.to.client.received
    ensures Carries(max, w.(to := w.to.(client := c)))
  {
    hide Invariant, FeedAll, Calls, Concat;
  }

  /** Every turn of either end keeps what has been sent, received and reported in order, on both ways. */
  lemma NextKeeps(max: nat, s: System, a: Action)
    requires SystemInvariant(max, s)
    ensures SystemInvariant(max, Next(max, s, a))
  {
    hide Carries, Possible, LeftTurn;
    var t := if a.left then s else Flip(s);
    if Possible(t, a.turn) {
      LeftKeeps(max, t, a.turn);
    }
  }

  lemma {:induction false} RunKeeps(max: nat, s: System, actions: seq<Action>)
    requires SystemInvariant(max, s)
    ensures SystemInvariant(max, RunSystem(max, s, actions))
    decreases |actions|
  {
    hide SystemInvariant, Next;
    if actions == [] {
    } else {
      NextKeeps(max, s, actions[0]);
      RunKeeps(max, Next(max, s, actions[0]), actions[1..]);
    }
  }

  lemma InitialHolds(max: nat)
    ensures SystemInvariant(max, Initial()) && BothRun(Initial())
  {
    StartHolds();
    NoCalls();
    assert Concat([]) + "" == "";
  }

  lemma Reachable(max: nat, actions: seq<Action>, rightwards: bool)
    ensures Carries(max, WayOf(RunSystem(max, Initial(), actions), rightwards))
  {
    hide Carries, RunSystem;
    InitialHolds(max);
    RunKeeps(max, Initial(), actions);
  }

  // ----- Lines -----

  /** The calls that report each line of a text once, as complete. */
  function LineCalls(lines: seq<string>): seq<Call> {
    seq(|lines|, k requires 0 <= k < |lines| => Call(lines[k], true))
  }

  function Lines(s: string): seq<string> {
    var parts := Split(s, '\n');
    parts[..|parts| - 1]
  }

  function Unfinished(s: string): string {
    var parts := Split(s, '\n');
    parts[|parts| - 1]
  }

  lemma {:induction false} OnlyLines(pending: string, d: string)
    ensures forall k :: 0 <= k < |OnePass(pending, d).pieces| ==> OnePass(pending, d).pieces[k].Line?
    decreases |d|
  {
    if d == "" {
    } else {
      OnlyLines(if EndsAt(d, 0) then "" else pending + [d[0]], d[1..]);
    }
  }

  lemma CallsAreLines(d: string)
    requires '\r' !in d
    ensures Calls(OnePass("", d).pieces) == LineCalls(Lines(d)) && OnePass("", d).rest == Unfinished(d)
  {
    hide OnePass, Split;
    LinesAreSplit("", d);
    OnlyLines("", d);
    assert "" + d == d;
    var r := OnePass("", d);
    assert Lines(d) == TextsOf(r.pieces);
  }

  /** A text without carriage returns and without overlong lines keeps both properties when it is cut. */
  lemma PrefixIsHarmless(max: nat, s: string, t: string)
    requires '\r' !in t && FitsInto(max, t) && IsPrefix(s, t)
    ensures '\r' !in s && FitsInto(max, s)
  {
    assert t == s + t[|s|..];
    FitsPrefix(max, s, t[|s|..]);
  }

  lemma {:induction false} ChunksAreHarmless(chunks: seq<string>)
    requires '\r' !in Concat(chunks)
    ensures forall s :: s in chunks ==> '\r' !in s
  {
    if chunks == [] {
    } else {
      var rest := Concat(chunks[1..]);
      assert forall c :: c in chunks[0] ==> c in chunks[0] + rest;
      assert forall c :: c in rest ==> c in chunks[0] + rest;
      ChunksAreHarmless(chunks[1..]);
    }
  }

  /** What the callback has seen are the lines of what has arrived, and that is a prefix of what was submitted. */
  ghost predicate SeenInOrder(max: nat, w: Way) {
    && IsPrefix(Arrived(w.to), w.from.submitted)
    && ('\r' !in w.from.submitted && FitsInto(max, w.from.submitted) ==>
          w.to.calls == LineCalls(Lines(Arrived(w.to))) && w.to.data == Unfinished(Arrived(w.to)))
  }

  lemma SeenLines(max: nat, w: Way)
    requires Carries(max, w)
    ensures SeenInOrder(max, w)
  {
    hide FitsInto, Concat, Lines, LineCalls, Unfinished, OnePass, FeedAll, Calls;
    var arrived, submitted := Arrived(w.to), w.from.submitted;
    Transitive(arrived, w.channel, w.from.sent, submitted);
    if '\r' !in submitted && FitsInto(max, submitted) {
      PrefixIsHarmless(max, arrived, submitted);
      ChunksAreHarmless(w.to.client.received);
      assert "" + arrived == arrived;
      ChunksAreOneStream(max, "", w.to.client.received);
      CallsAreLines(arrived);
    }
  }

  lemma Transitive(a: string, b: string, c: string, d: string)
    requires c == a + b && IsPrefix(c, d)
    ensures IsPrefix(a, d)
  {
    assert d[..|c|][..|a|] == d[..|a|];
  }

  /**
   Full duplex: however writes are split or put off, whatever the callbacks write in reaction, and however the streams
   are cut into chunks, on either way: if the submitted data has no carriage return and every line fits, the callback at
   the other end has seen exactly the lines of what has arrived, in order and once each; what has arrived is a prefix of
   what was submitted; and the unfinished line is in the buffer.
   */
  lemma LinesArriveInOrder(max: nat, actions: seq<Action>)
    ensures var s := RunSystem(max, Initial(), actions);
            SeenInOrder(max, WayOf(s, true)) && SeenInOrder(max, WayOf(s, false))
  {
    hide *;
    var s := RunSystem(max, Initial(), actions);
    Reachable(max, actions, true);
    Reachable(max, actions, false);
    SeenLines(max, WayOf(s, true));
    SeenLines(max, WayOf(s, false));
  }

  /** Nothing is under way any more. */
  predicate Idle(w: Way) {
    w.from.queue == [] && w.channel == ""
  }

  lemma IdleHasArrived(max: nat, w: Way)
    requires Carries(max, w) && Idle(w) && w.from.status != Failed
    ensures Arrived(w.to) == w.from.submitted
  {
    hide FeedAll, Calls, IsPrefix, NoEmptyRecord;
    assert Arrived(w.to) + "" == Arrived(w.to) && w.from.sent + "" == w.from.sent;
  }

  /** All that was submitted has arrived, and if its lines are harmless, they have been seen. */
  ghost predicate AllSeen(max: nat, w: Way) {
    var submitted := w.from.submitted;
    && Arrived(w.to) == submitted
    && ('\r' !in submitted && FitsInto(max, submitted) ==>
          w.to.calls == LineCalls(Lines(submitted)) && w.to.data == Unfinished(submitted))
  }

  lemma IdleHasSeen(max: nat, w: Way)
    requires Carries(max, w) && Idle(w) && w.from.status != Failed
    ensures AllSeen(max, w)
  {
    hide Carries, FitsInto, Lines, LineCalls, Unfinished, Idle, Arrived;
    SeenLines(max, w);
    IdleHasArrived(max, w);
  }

  /** Once the queue and the channel are empty and nothing has failed, all lines that were submitted have been seen. */
  lemma AllLinesArrive(max: nat, actions: seq<Action>, rightwards: bool)
    ensures var w := WayOf(RunSystem(max, Initial(), actions), rightwards);
            Idle(w) && w.from.status != Failed ==> AllSeen(max, w)
  {
    hide *;
    var w := WayOf(RunSystem(max, Initial(), actions), rightwards);
    Reachable(max, actions, rightwards);
    if Idle(w) && w.from.status != Failed {
      IdleHasSeen(max, w);
    }
  }

  /**
   For every stream, carriage returns or not: as long as no line overflows, the calls report the lines of what has
   arrived, except that a CRLF whose halves arrived in different chunks has ended two lines.
   */
  lemma ArrivedLinesMerge(max: nat, actions: seq<Action>, rightwards: bool)
    ensures var to := WayOf(RunSystem(max, Initial(), actions), rightwards).to;
            var pieces := FeedAll(DefaultSearch, max, "", to.client.received).pieces;
            && to.calls == Calls(pieces)
            && ((forall k :: 0 <= k < |to.calls| ==> to.calls[k].complete) ==>
                  OnePass("", Arrived(to)) == Outcome(Merge(pieces), to.data))
  {
    Reachable(max, actions, rightwards);
    hide OnePass, FeedAll, RunSystem, Merge, Concat, Invariant, WayOf;
    var to := WayOf(RunSystem(max, Initial(), actions), rightwards).to;
    AnyChunking(max, to.client.received);
    var pieces := FeedAll(DefaultSearch, max, "", to.client.received).pieces;
    assert forall k :: 0 <= k < |pieces| ==> to.calls[k].complete == pieces[k].Line?;
  }

  /**
   For every stream, overlong lines or not: what was submitted is, in this order, what the calls have reported, each
   with its terminator, what the line buffer holds, what the channel holds, and what the client still queues.
   */
  lemma NothingIsLostOnTheWay(max: nat, actions: seq<Action>, rightwards: bool)
    ensures var w := WayOf(RunSystem(max, Initial(), actions), rightwards);
            var pieces := FeedAll(DefaultSearch, max, "", w.to.client.received).pieces;
            && w.to.calls == Calls(pieces)
            && Input(pieces) + w.to.data == Arrived(w.to)
            && (w.from.status != Failed ==>
                  Input(pieces) + w.to.data + w.channel + Concat(w.from.queue) == w.from.submitted)
  {
    Reachable(max, actions, rightwards);
    DefaultIsLegal();
    hide Input, FeedAll, RunSystem, Concat, Calls, NoEmptyRecord, IsPrefix, WayOf;
    var w := WayOf(RunSystem(max, Initial(), actions), rightwards);
    NothingIsLost(DefaultSearch, max, "", w.to.client.received);
    assert "" + Arrived(w.to) == Arrived(w.to);
  }

  // ----- Progress -----

  /** How often a byte has yet to be sent or received. */
  function Outstanding(w: Way): nat {
    2 * |Concat(w.from.queue)| + |w.channel|
  }

  /** On this way a byte is sent, or one is received. */
  predicate Moves(max: nat, s: System, a: Action, rightwards: bool) {
    var v, w := WayOf(s, rightwards), WayOf(Next(max, s, a), rightwards);
    |w.from.sent| > |v.from.sent| || |Arrived(w.to)| > |Arrived(v.to)|
  }

  /** The data that a turn passes to write_data. */
  function DataOfTurn(turn: Turn): string {
    match turn
    case Local(e) => DataOfOne(e)
    case Receive(_, reaction, _) => Concat(reaction)
  }

  /** The client that sends on this way gets no more data. */
  predicate Quiet(a: Action, rightwards: bool) {
    a.left == rightwards ==> DataOfTurn(a.turn) == ""
  }

  predicate AllQuiet(actions: seq<Action>, rightwards: bool) {
    forall k :: 0 <= k < |actions| ==> Quiet(actions[k], rightwards)
  }

  /** How many turns of a run move something on this way. */
  function MovesOf(max: nat, s: System, actions: seq<Action>, rightwards: bool): nat
    decreases |actions|
  {
    if actions == [] then 0
    else
      (if Moves(max, s, actions[0], rightwards) then 1 else 0)
      + MovesOf(max, Next(max, s, actions[0]), actions[1..], rightwards)
  }

  lemma OutstandingIs(max: nat, w: Way)
    requires Carries(max, w) && w.from.status != Failed
    ensures Outstanding(w) == 2 * |w.from.submitted| - |w.from.sent| - |Arrived(w.to)|
  {
    hide FeedAll, Calls, NoEmptyRecord, IsPrefix, Concat;
  }

  /** What a possible turn of the left end does to the two ways. */
  lemma LeftTurnMoves(max: nat, s: System, turn: Turn)
    requires Possible(s, turn)
    ensures var t := LeftTurn(max, s, turn);
            && t.right == s.right && |Arrived(t.left)| >= |Arrived(s.left)|
            && (turn.Receive? ==> |Arrived(t.left)| > |Arrived(s.left)|)
            && |t.left.client.sent| >= |s.left.client.sent|
            && t.left.client.submitted == s.left.client.submitted + DataOfTurn(turn)
  {
    var before := s.left.client;
    SentGrows(before, EventOf(s, turn));
    StepRecords(before, EventOf(s, turn));
    TurnReceives(s, turn);
    hide Step, Calls, Feed, Concat, EventOf;
    match turn
    case Local(_) =>
      assert before.received + [] == before.received;
    case Receive(n, _, _) =>
      ConcatSnoc(before.received, s.toLeft[..n]);
      DataOfReceive(s, turn);
  }

  lemma DataOfReceive(s: System, turn: Turn)
    requires Possible(s, turn)
    ensures DataOfOne(EventOf(s, turn)) == DataOfTurn(turn)
  {
    hide Concat;
  }

  /** Nothing is taken back that was sent or has arrived, and a quiet turn submits nothing. */
  lemma NextGrows(max: nat, s: System, a: Action, rightwards: bool)
    ensures var v, w := WayOf(s, rightwards), WayOf(Next(max, s, a), rightwards);
            && |w.from.sent| >= |v.from.sent| && |Arrived(w.to)| >= |Arrived(v.to)|
            && (Quiet(a, rightwards) ==> w.from.submitted == v.from.submitted)
            && (w.from.status == Running ==> v.from.status == Running)
  {
    hide LeftTurn, Possible, Arrived, DataOfTurn;
    var t := if a.left then s else Flip(s);
    if Possible(t, a.turn) {
      LeftTurnMoves(max, t, a.turn);
      OnlyRunning(t, a.turn);
      assert t.left.client.submitted + "" == t.left.client.submitted;
    }
  }

  lemma OnlyRunning(s: System, turn: Turn)
    ensures Possible(s, turn) ==> s.left.client.status == Running
  {
  }

  lemma MoveCounts(max: nat, s: System, a: Action, rightwards: bool)
    requires SystemInvariant(max, s) && Quiet(a, rightwards)
    requires WayOf(Next(max, s, a), rightwards).from.status == Running
    ensures (if Moves(max, s, a, rightwards) then 1 else 0) + Outstanding(WayOf(Next(max, s, a), rightwards))
            <= Outstanding(WayOf(s, rightwards))
  {
    NextKeeps(max, s, a);
    NextGrows(max, s, a, rightwards);
    hide Carries, Next, Quiet, Outstanding, Arrived;
    OutstandingIs(max, WayOf(s, rightwards));
    OutstandingIs(max, WayOf(Next(max, s, a), rightwards));
  }

  lemma {:induction false} StillRunning(max: nat, s: System, actions: seq<Action>, rightwards: bool)
    ensures WayOf(RunSystem(max, s, actions), rightwards).from.status == Running ==>
              WayOf(s, rightwards).from.status == Running
    decreases |actions|
  {
    hide Next, WayOf;
    if actions == [] {
    } else {
      StillRunning(max, Next(max, s, actions[0]), actions[1..], rightwards);
      NextGrows(max, s, actions[0], rightwards);
    }
  }

  /** While the sender runs and gets no more data, only so many turns can move something. */
  lemma {:induction false} MovesAreBounded(max: nat, s: System, actions: seq<Action>, rightwards: bool)
    requires SystemInvariant(max, s) && WayOf(RunSystem(max, s, actions), rightwards).from.status == Running
    requires AllQuiet(actions, rightwards)
    ensures var v, w := WayOf(s, rightwards), WayOf(RunSystem(max, s, actions), rightwards);
            MovesOf(max, s, actions, rightwards) + Outstanding(w) <= Outstanding(v)
            && w.from.submitted == v.from.submitted
    decreases |actions|
  {
    hide SystemInvariant, Next, Outstanding, Moves, Quiet, WayOf;
    if actions == [] {
    } else {
      var t := Next(max, s, actions[0]);
      StillRunning(max, t, actions[1..], rightwards);
      NextKeeps(max, s, actions[0]);
      MoveCounts(max, s, actions[0], rightwards);
      NextGrows(max, s, actions[0], rightwards);
      MovesAreBounded(max, t, actions[1..], rightwards);
    }
  }

  lemma NothingOutstanding(max: nat, w: Way)
    requires Carries(max, w)
    ensures Outstanding(w) == 0 <==> Idle(w)
  {
    hide FeedAll, Calls, IsPrefix;
    if w.from.queue != [] {
      assert w.from.queue[0] != "";
    }
  }

  predicate BothRun(s: System) {
    s.left.client.status == Running && s.right.client.status == Running
  }

  /** A `recv` of one byte at the receiving end, or a write of one byte at the sending end. */
  function NextMove(s: System, rightwards: bool): Action {
    if WayOf(s, rightwards).channel == "" then At(rightwards, Local(Io(false, None, Some(Wrote(1)))))
    else At(!rightwards, Receive(1, [], None))
  }

  /** As long as both ends run and something is outstanding, a turn that moves something can happen. */
  lemma SomethingCanMove(max: nat, s: System, rightwards: bool)
    requires SystemInvariant(max, s) && BothRun(s) && !Idle(WayOf(s, rightwards))
    ensures var a := NextMove(s, rightwards);
            && Moves(max, s, a, rightwards) && Quiet(a, true) && Quiet(a, false) && BothRun(Next(max, s, a))
            && (a.turn.Local? ==> WayOf(s, rightwards).from.armed)
  {
    hide Carries, Possible, LeftTurn, Arrived;
    var t := if rightwards then s else Flip(s);
    if WayOf(s, rightwards).channel == "" {
      WriteMoves(max, t);
    } else {
      ReadMoves(max, Flip(t));
    }
  }

  lemma WriteMoves(max: nat, s: System)
    requires SystemInvariant(max, s) && BothRun(s) && s.left.client.queue != []
    ensures var turn := Local(Io(false, None, Some(Wrote(1))));
            && Possible(s, turn) && DataOfTurn(turn) == "" && s.left.client.armed
            && |LeftTurn(max, s, turn).left.client.sent| > |s.left.client.sent| && BothRun(LeftTurn(max, s, turn))
  {
    hide FeedAll, Calls;
    var e := Io(false, None, Some(Wrote(1)));
    assert Writing([e]);
    WriteEventShrinks(s.left.client, e);
    StepKeeps(s.left.client, e);
  }

  lemma ReadMoves(max: nat, s: System)
    requires BothRun(s) && s.toLeft != ""
    ensures var turn := Receive(1, [], None);
            && Possible(s, turn) && DataOfTurn(turn) == ""
            && |Arrived(LeftTurn(max, s, turn).left)| > |Arrived(s.left)| && BothRun(LeftTurn(max, s, turn))
  {
    LeftTurnMoves(max, s, Receive(1, [], None));
    hide Arrived, Fed;
  }

  /** So all that was submitted, on both ways, can still be delivered. */
  lemma {:induction false} AllCanBeDelivered(max: nat, s: System) returns (more: seq<Action>)
    requires SystemInvariant(max, s) && BothRun(s)
    ensures var t := RunSystem(max, s, more);
            && AllQuiet(more, true) && AllQuiet(more, false) && BothRun(t)
            && forall rightwards :: var v, w := WayOf(s, rightwards), WayOf(t, rightwards);
                 Idle(w) && w.from.submitted == v.from.submitted
    decreases Outstanding(WayOf(s, true)) + Outstanding(WayOf(s, false))
  {
    hide SystemInvariant, Next, NextMove, Outstanding, Moves, Quiet, Idle;
    if Idle(WayOf(s, true)) && Idle(WayOf(s, false)) {
      more := [];
    } else {
      var rightwards := !Idle(WayOf(s, true));
      var a := NextMove(s, rightwards);
      SomethingCanMove(max, s, rightwards);
      MoveCounts(max, s, a, true);
      MoveCounts(max, s, a, false);
      NextKeeps(max, s, a);
      NextGrows(max, s, a, true);
      NextGrows(max, s, a, false);
      var rest := AllCanBeDelivered(max, Next(max, s, a));
      more := [a] + rest;
      assert more[1..] == rest;
    }
  }

  /**
   From whatever state a run has come to, on either way: if then the sender keeps running and gets no more data, every
   continuation that makes as many moves as are outstanding, whatever else happens in it, has delivered all that was
   submitted.
   */
  lemma EnoughMovesDeliverAll(max: nat, actions: seq<Action>, more: seq<Action>, rightwards: bool)
    ensures var s := RunSystem(max, Initial(), actions);
            var v, w := WayOf(s, rightwards), WayOf(RunSystem(max, s, more), rightwards);
            w.from.status == Running && AllQuiet(more, rightwards)
            && MovesOf(max, s, more, rightwards) >= Outstanding(v) ==>
              Idle(w) && w.from.submitted == v.from.submitted && AllSeen(max, w)
  {
    hide RunSystem, Carries, Outstanding, Idle, AllSeen, AllQuiet, MovesOf, WayOf;
    var s := RunSystem(max, Initial(), actions);
    var v, w := WayOf(s, rightwards), WayOf(RunSystem(max, s, more), rightwards);
    if w.from.status == Running && AllQuiet(more, rightwards)
       && MovesOf(max, s, more, rightwards) >= Outstanding(v) {
      InitialHolds(max);
      RunKeeps(max, Initial(), actions);
      RunKeeps(max, s, more);
      MovesAreBounded(max, s, more, rightwards);
      CarriesEither(max, RunSystem(max, s, more), rightwards);
      NothingOutstanding(max, w);
      IdleHasSeen(max, w);
    }
  }

  lemma CarriesEither(max: nat, s: System, rightwards: bool)
    requires SystemInvariant(max, s)
    ensures Carries(max, WayOf(s, rightwards))
  {
  }
}
