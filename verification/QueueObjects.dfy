/** The queue container and the sequencer as objects updated in place, tied to the step functions of the pipeline. */
module QueueObjects {
  import opened Pipeline

  datatype Pointer = Null | To(x: int)

  /** queue_container_t: the messages in the queue and the sanity counter. */
  class Container {
    const numElems: nat
    var msgs: seq<int>
    var count: int

    constructor (numElems: nat)
      ensures this.numElems == numElems && Value() == Queue([], 0)
    {
      this.numElems := numElems;
      msgs := [];
      count := 0;
    }

    function Value(): Queue
      reads this
    {
      Queue(msgs, count)
    }

    /** enqueue_P. The counter is raised before the message is accepted, so a null message or a send that
        times out on a full queue leaves it one too high. */
    method EnqueueP(p: Pointer) returns (rc: int)
      modifies this
      ensures rc == 0 <==> old(count) != numElems && p.To? && |old(msgs)| < numElems
      ensures p.To? && (rc == 0 || old(count) == numElems) ==> Value() == Enqueue(old(Value()), numElems, p.x)
      ensures rc != 0 ==> rc == -1 && msgs == old(msgs) && count == old(count) + if old(count) == numElems then 0 else 1
    {
      if count == numElems {
        return -1;
      }
      count := count + 1;
      if p.To? && |msgs| < numElems {
        msgs := msgs + [p.x];
        return 0;
      }
      return -1;
    }

    /** dequeue_P up to the receive. */
    method AnnounceDequeue()
      modifies this`count
      ensures Value() == BeginDequeue(old(Value()))
    {
      count := count - 1;
    }

    /** The receive, which can complete once there is a message. */
    method CompleteDequeue() returns (p: int)
      requires msgs != []
      modifies this`msgs
      ensures p == old(msgs[0]) && Value() == Receive(old(Value()))
    {
      p := msgs[0];
      msgs := msgs[1..];
    }
  }

  /** The sequencer's globals. */
  class Sequencer {
    var running: bool
    var seqCount: nat
    var semS1: nat
    var semW1: nat
    var semW2: nat

    constructor ()
      ensures running && seqCount == semS1 == semW1 == semW2 == 0
    {
      running := true;
      seqCount, semS1, semW1, semW2 := 0, 0, 0, 0;
    }

    /** The part of a pipeline state that the sequencer owns. */
    predicate Shows(s: State)
      reads this
    {
      running == s.running && seqCount == s.seqCount && semS1 == s.semS1 && semW1 == s.semW1 && semW2 == s.semW2
    }

    /** One timer signal. */
    method Tick(ghost s: State)
      requires Shows(s)
      modifies this
      ensures Shows(NextTick(s))
    {
      if running {
        if seqCount % 5 == 0 {
          semS1 := semS1 + 1;
        }
        if seqCount % 10 == 0 {
          semW1 := semW1 + 1;
        }
        if seqCount % 100 == 0 {
          semW2 := semW2 + 1;
        }
        seqCount := seqCount + 1;
        if seqCount == 500 {
          seqCount := 0;
        }
      }
    }
  }
}
