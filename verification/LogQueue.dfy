/** The log object (common/log.cpp, struct gpt_log): a growing ring buffer under a lock, refining the protocol. */
module LogQueue {
  import opened LogProtocol

  /** The entries between head and tail, around the end of the ring if need be. */
  function Queued(es: seq<Entry>, head: nat, tail: nat): seq<Entry>
    requires head < |es| && tail < |es|
  {
    if head <= tail then es[head..tail] else es[head..] + es[..tail]
  }

  function Next(i: nat, size: nat): (n: nat)
    requires i < size
    ensures n == (i + 1) % size && n < size
    ensures n == if i + 1 == size then 0 else i + 1
  {
    (i + 1) % size
  }

  lemma QueuedAppend(es: seq<Entry>, head: nat, tail: nat, e: Entry)
    requires head < |es| && tail < |es| && Next(tail, |es|) != head
    ensures Queued(es[tail := e], head, Next(tail, |es|)) == Queued(es, head, tail) + [e]
    ensures |Queued(es, head, tail)| + 1 < |es|
  {
  }

  /** With one slot left the append makes tail meet head: the ring reads as empty though it holds everything. */
  lemma QueuedFills(es: seq<Entry>, head: nat, tail: nat, e: Entry)
    requires head < |es| && tail < |es| && Next(tail, |es|) == head
    ensures |Queued(es, head, tail)| + 1 == |es|
    ensures es[tail := e][head..] + es[tail := e][..head] == Queued(es, head, tail) + [e]
    ensures Queued(es[tail := e], head, head) == []
  {
  }

  lemma QueuedTake(es: seq<Entry>, head: nat, tail: nat)
    requires head < |es| && tail < |es| && head != tail
    ensures Queued(es, head, tail) == [es[head]] + Queued(es, Next(head, |es|), tail)
  {
  }

  class GptLog {
    var entries: array<Entry>
    var head: nat
    var tail: nat
    var running: bool
    var worker: Worker
    /** The controller's place, and the messages seen so far: only the proof looks at these. */
    ghost var waiting: bool
    ghost var accepted: seq<Message>
    ghost var printed: seq<Message>

    ghost predicate Valid()
      reads this, entries
    {
      head < entries.Length && tail < entries.Length
    }

    ghost function Abstract(): LogState
      requires Valid()
      reads this, entries
    {
      LogState(Queued(entries[..], head, tail), entries.Length, running, worker, waiting, accepted, printed)
    }

    constructor (capacity: nat)
      requires capacity > 0
      ensures Valid() && fresh(entries) && Abstract() == Start(capacity)
    {
      entries := new Entry[capacity](_ => Entry("", false));
      head, tail := 0, 0;
      running, worker := true, Idle;
      waiting, accepted, printed := false, [], [];
    }

    /** Moves the full ring into one of twice the size, head first. */
    method Grow()
      requires Valid() && head == tail
      modifies this`entries, this`head, this`tail
      ensures Valid() && fresh(entries) && entries.Length == 2 * old(entries.Length)
      ensures Queued(entries[..], head, tail) == old(entries[head..] + entries[..head])
    {
      var size := entries.Length;
      var newEntries := new Entry[2 * size](_ => Entry("", false));
      var newTail := 0;
      ghost var all := entries[head..] + entries[..head];
      ghost var start := head;
      while true
        invariant newTail < size && entries.Length == size && head < size && tail == start
        invariant head == if start + newTail < size then start + newTail else start + newTail - size
        invariant newEntries[..newTail] == all[..newTail]
        invariant entries == old(entries) && entries[..] == old(entries[..])
        decreases size - newTail
      {
        newEntries[newTail] := entries[head];
        assert entries[head] == all[newTail];
        head := Next(head, size);
        newTail := newTail + 1;
        assert newEntries[..newTail] == all[..newTail];
        if head == tail {
          break;
        }
      }
      assert newTail == size;
      head, tail := 0, newTail;
      entries := newEntries;
    }

    method Add(msg: Message)
      requires Valid()
      modifies this, entries
      ensures Valid() && (entries == old(entries) || fresh(entries))
      ensures Abstract() == Step(old(Abstract()), LogProtocol.Action.Add(msg))
    {
      if !running {
        return;
      }
      ghost var before := entries[..];
      var e := Entry(msg, false);
      entries[tail] := e;
      assert entries[..] == before[tail := e];
      accepted := accepted + [msg];
      if Next(tail, entries.Length) == head {
        QueuedFills(before, head, tail, e);
        tail := Next(tail, entries.Length);
        Grow();
      } else {
        QueuedAppend(before, head, tail, e);
        tail := Next(tail, entries.Length);
      }
    }

    /** The worker's locked section: it waits until head differs from tail. */
    method Take()
      requires Valid() && worker.Idle? && head != tail
      modifies this`head, this`worker
      ensures Valid() && Abstract() == Step(old(Abstract()), LogProtocol.Take)
    {
      QueuedTake(entries[..], head, tail);
      var cur := entries[head];
      head := Next(head, entries.Length);
      worker := if cur.isEnd then Exited else Holding(cur.msg);
    }

    /** The worker prints what it holds, outside the lock. */
    method Print()
      requires Valid() && worker.Holding?
      modifies this`worker, this`printed
      ensures Valid() && Abstract() == Step(old(Abstract()), LogProtocol.Print)
    {
      printed := printed + [worker.msg];
      worker := Idle;
    }

    /** The locked section of pause(): the end marker is pushed without growing the ring. */
    method Pause()
      requires Valid() && !waiting
      modifies this, entries
      ensures Valid() && entries == old(entries) && Abstract() == Step(old(Abstract()), LogProtocol.Pause)
    {
      if !running {
        return;
      }
      running := false;
      ghost var before := entries[..];
      var e := Entry("", true);
      entries[tail] := e;
      assert entries[..] == before[tail := e];
      if Next(tail, |before|) == head {
        QueuedFills(before, head, tail, e);
      } else {
        QueuedAppend(before, head, tail, e);
      }
      tail := Next(tail, entries.Length);
      waiting := true;
    }

    method Resume()
      requires Valid() && !waiting
      modifies this`running, this`worker
      ensures Valid() && Abstract() == Step(old(Abstract()), LogProtocol.Resume)
    {
      if running {
        return;
      }
      running := true;
      worker := Idle;
    }
  }
}
