/** `tcp_client` between its event loop and its socket. The results of `recv` and `write` come from outside. */
module TcpClient {
  import opened Machine
  import opened IoQueue

  datatype Status = Running | Closed | Failed

  /** Any other negative result than EAGAIN is a `WriteError`. */
  datatype Write = Wrote(n: nat) | Eagain | WriteError

  /** A received chunk comes with the data that the callback writes in reaction to it, before it returns. */
  datatype Read = Received(chunk: string, reaction: seq<string>) | PeerClosed | ReadError

  /** `Io`: the flags of one call of `cb_ev`, each with what the system call behind it returns. */
  datatype Event = Submit(data: string) | Io(error: bool, read: Option<Read>, write: Option<Write>)

  datatype State = State(
    submitted: string,       // all data that was passed to write_data, in order
    sent: string,            // all data that write has accepted, in order
    queue: seq<string>,      // the remaining bytes of the queued records
    armed: bool,             // whether the interest mask contains WRITE
    received: seq<string>,   // the chunks that the callback has seen
    status: Status)

  const START := State("", "", [], false, [], Running)

  function Submitted(s: State, data: string): State {
    s.(submitted := s.submitted + data, queue := s.queue + (if data == "" then [] else [data]), armed := true)
  }

  function SubmittedAll(s: State, reaction: seq<string>): (t: State)
    ensures t.status == s.status
    decreases |reaction|
  {
    if reaction == [] then s
    else Submitted(SubmittedAll(s, reaction[..|reaction| - 1]), reaction[|reaction| - 1])
  }

  function Accepted(head: string, n: nat): nat {
    if n <= |head| then n else |head|
  }

  function Pushed(s: State, w: Write): (t: State)
    ensures t.status == s.status || t.status == Failed
  {
    if s.queue == [] then s.(armed := false)
    else
      var head, tail := s.queue[0], s.queue[1..];
      match w
      case Wrote(n) =>
        var k := Accepted(head, n);
        s.(sent := s.sent + head[..k], queue := (if head[k..] == "" then [] else [head[k..]]) + tail)
      case Eagain => s
      case WriteError => s.(queue := tail, status := Failed)
  }

  function AfterRead(s: State, read: Option<Read>): State {
    match read
    case None => s
    case Some(ReadError) => s.(status := Failed)
    case Some(PeerClosed) => s.(status := Closed)
    case Some(Received(chunk, reaction)) => SubmittedAll(s.(received := s.received + [chunk]), reaction)
  }

  function AfterWrite(s: State, write: Option<Write>): State {
    if s.status == Running && write.Some? then Pushed(s, write.value) else s
  }

  /** One step of the client. A client that has been closed or has failed takes no more steps. */
  function Step(s: State, e: Event): State {
    if s.status != Running then s
    else match e
      case Submit(data) => Submitted(s, data)
      case Io(error, read, write) =>
        if error then s
        else
          var t := AfterWrite(AfterRead(s, read), write);
          if t.status == Running then t.(armed := t.queue != []) else t
  }

  class TcpClient {
    const writeQueue: IoQueue
    /** The interest mask; READ is always in it. */
    var armed: bool
    var status: Status
    var submitted: string
    var sent: string
    var received: seq<string>

    ghost predicate Valid()
      reads this, writeQueue, writeQueue.queue
    {
      writeQueue.Valid()
    }

    ghost function Abstract(): State
      reads this, writeQueue, writeQueue.queue
      requires Valid()
    {
      State(submitted, sent, writeQueue.Contents(), armed, received, status)
    }

    constructor ()
      ensures Valid() && fresh(writeQueue) && writeQueue.queue == []
      ensures Abstract() == START == State("", "", [], false, [], Running)
    {
      writeQueue := new IoQueue();
      armed, status, submitted, sent, received := false, Running, "", "", [];
    }

    method WriteData(data: string)
      requires Valid()
      modifies this, writeQueue
      ensures Valid() && Abstract() == Submitted(old(Abstract()), data)
      ensures forall r :: r in writeQueue.queue ==> r in old(writeQueue.queue) || fresh(r)
    {
      var record := new IoRecord(data);
      writeQueue.PushBack(record);
      armed := true;
      submitted := submitted + data;
    }

    /** What the callback does with the client while it handles a chunk. */
    method React(reaction: seq<string>)
      requires Valid()
      modifies this, writeQueue
      ensures Valid() && Abstract() == SubmittedAll(old(Abstract()), reaction)
      ensures forall r :: r in writeQueue.queue ==> r in old(writeQueue.queue) || fresh(r)
    {
      var i := 0;
      ghost var before := Abstract();
      assert reaction[..0] == [];
      while i < |reaction|
        invariant 0 <= i <= |reaction| && Valid()
        invariant Abstract() == SubmittedAll(before, reaction[..i])
        invariant forall r :: r in writeQueue.queue ==> r in old(writeQueue.queue) || fresh(r)
      {
        assert reaction[..i + 1][..i] == reaction[..i];
        WriteData(reaction[i]);
        i := i + 1;
      }
      assert reaction[..i] == reaction;
    }

    /** `push_write_queue`; w is what `write` returns, if it is called. */
    method PushWriteQueue(w: Write)
      requires Valid() && status == Running
      modifies this, writeQueue
      ensures Valid() && Abstract() == Pushed(old(Abstract()), w)
      ensures forall r :: r in writeQueue.queue ==> r in old(writeQueue.queue) || fresh(r)
    {
      if writeQueue.Empty() {
        armed := false;
        return;
      }
      ghost var before := Abstract();
      var buffer := writeQueue.PopFront();
      ghost var head := before.queue[0];
      assert buffer.Remaining() == head && writeQueue.Contents() == before.queue[1..];
      match w {
        case Wrote(n) =>
          sent := sent + buffer.Remaining()[..Accepted(buffer.Remaining(), n)];
          buffer.Advance(n);
          assert buffer.Remaining() == head[Accepted(head, n)..];
        case Eagain =>
        case WriteError =>
          status := Failed;
          return;
      }
      writeQueue.PushFront(buffer);
    }

    method CbEv(error: bool, read: Option<Read>, write: Option<Write>)
      requires Valid() && status == Running
      modifies this, writeQueue
      ensures Valid() && Abstract() == Step(old(Abstract()), Io(error, read, write))
      ensures forall r :: r in writeQueue.queue ==> r in old(writeQueue.queue) || fresh(r)
    {
      hide Pushed, SubmittedAll, Submitted;
      ghost var before := Abstract();
      if error {
        return;
      }
      match read {
        case None =>
        case Some(ReadError) =>
          status := Failed;
          return;
        case Some(PeerClosed) =>
          status := Closed;
          return;
        case Some(Received(chunk, reaction)) =>
          received := received + [chunk];
          React(reaction);
      }
      assert Abstract() == AfterRead(before, read);
      if write.Some? {
        PushWriteQueue(write.value);
        if status == Failed {
          return;
        }
      }
      assert Abstract() == AfterWrite(AfterRead(before, read), write);
      armed := !writeQueue.Empty();
    }
  }
}
