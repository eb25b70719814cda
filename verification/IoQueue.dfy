/** `iorecord` and `ioqueue`: what is still to be written. A `char` stands for a byte of a `std::string`. */
module IoQueue {

  class IoRecord {
    var offset: nat
    var data: string

    predicate Valid()
      reads this
    {
      offset <= |data|
    }

    /** What has not been written yet. */
    function Remaining(): string
      reads this
      requires Valid()
    {
      data[offset..]
    }

    constructor Nothing()
      ensures Valid() && Remaining() == ""
    {
      offset, data := 0, "";
    }

    constructor (buf: string)
      ensures Valid() && Remaining() == buf
    {
      offset, data := 0, buf;
    }

    constructor Copy(other: IoRecord)
      requires other.Valid()
      ensures Valid() && Remaining() == other.Remaining()
    {
      offset, data := other.offset, other.data;
    }

    function Size(): (n: nat)
      reads this
      requires Valid()
      ensures n == |Remaining()|
    {
      |data| - offset
    }

    predicate Empty()
      reads this
      requires Valid()
    {
      Size() == 0
    }

    method Advance(amount: nat)
      requires Valid()
      modifies this`offset
      ensures Valid()
      ensures Remaining() == if amount <= |old(Remaining())| then old(Remaining())[amount..] else ""
    {
      offset := offset + if amount <= Size() then amount else Size();
    }
  }

  /** The queue copies records in and out, so nobody else holds a record that is in it. */
  class IoQueue {
    var queue: seq<IoRecord>

    ghost predicate Valid()
      reads this, queue
    {
      forall k :: 0 <= k < |queue| ==> queue[k].Valid() && !queue[k].Empty()
    }

    /** The remaining bytes of each record, first in first out. */
    ghost function Contents(): (c: seq<string>)
      reads this, queue
      requires Valid()
      ensures |c| == |queue|
    {
      seq(|queue|, k requires 0 <= k < |queue| reads this, queue requires Valid() => queue[k].Remaining())
    }

    constructor ()
      ensures Valid() && Contents() == []
    {
      queue := [];
    }

    predicate Empty()
      reads this
    {
      queue == []
    }

    method PushBack(record: IoRecord)
      requires Valid() && record.Valid()
      modifies this
      ensures Valid()
      ensures Contents() == old(Contents()) + if record.Remaining() == "" then [] else [record.Remaining()]
      ensures forall r :: r in queue ==> r in old(queue) || fresh(r)
    {
      if !record.Empty() {
        var copy := new IoRecord.Copy(record);
        queue := queue + [copy];
      }
    }

    method PushFront(record: IoRecord)
      requires Valid() && record.Valid()
      modifies this
      ensures Valid()
      ensures Contents() == (if record.Remaining() == "" then [] else [record.Remaining()]) + old(Contents())
      ensures forall r :: r in queue ==> r in old(queue) || fresh(r)
    {
      if !record.Empty() {
        var copy := new IoRecord.Copy(record);
        queue := [copy] + queue;
      }
    }

    method PopFront() returns (record: IoRecord)
      requires Valid()
      modifies this
      ensures Valid() && record.Valid() && fresh(record) && record !in queue
      ensures record.Remaining() == if old(Contents()) == [] then "" else old(Contents())[0]
      ensures Contents() == if old(Contents()) == [] then [] else old(Contents())[1..]
      ensures forall r :: r in queue ==> r in old(queue)
    {
      if Empty() {
        record := new IoRecord.Nothing();
        return;
      }
      record := new IoRecord.Copy(queue[0]);
      queue := queue[1..];
    }
  }
}
