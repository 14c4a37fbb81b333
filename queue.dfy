/** The bounded message queue (protocol.h:278-345): a circular buffer of
    QUEUE_SIZE messages with a write position (head), a read position (tail)
    and a count. Its abstract value is the sequence of queued messages, oldest
    first. The mutex that guards it is left out: each method is one locked step. */
module Queue {
  import opened Protocol

  const QueueSize := 100

  /** The n slots of a ring read from position start onwards. */
  function Window(slots: seq<Message>, start: int, n: nat): seq<Message>
    requires |slots| == QueueSize && 0 <= start < QueueSize && n <= QueueSize
  {
    seq(n, i requires 0 <= i < n => slots[(start + i) % QueueSize])
  }

  /** Writing at the slot just after the window grows the window by that message. */
  lemma WindowPush(slots: seq<Message>, start: int, n: nat, m: Message)
    requires |slots| == QueueSize && 0 <= start < QueueSize && n < QueueSize
    ensures Window(slots[(start + n) % QueueSize := m], start, n + 1) == Window(slots, start, n) + [m]
  {
    var slots' := slots[(start + n) % QueueSize := m];
    forall i | 0 <= i < n
      ensures Window(slots', start, n + 1)[i] == Window(slots, start, n)[i]
    {
      assert (start + i) % QueueSize != (start + n) % QueueSize;
    }
  }

  /** Advancing the start by one drops the first message of the window. */
  lemma WindowPop(slots: seq<Message>, start: int, n: nat)
    requires |slots| == QueueSize && 0 <= start < QueueSize && 0 < n <= QueueSize
    ensures Window(slots, (start + 1) % QueueSize, n - 1) == Window(slots, start, n)[1..]
  {
    var next := (start + 1) % QueueSize;
    var w, w' := Window(slots, start, n), Window(slots, next, n - 1);
    forall i | 0 <= i < n - 1
      ensures w'[i] == w[i + 1]
    {
      assert (next + i) % QueueSize == (start + (i + 1)) % QueueSize;
    }
  }

  class MessageQueue {
    const messages: array<Message>
    var head: int     // write position
    var tail: int     // read position
    var count: int    // number of queued messages

    /** The queue invariant: indices in range, 0 <= count <= QUEUE_SIZE, and
        the write position count slots after the read position. */
    ghost predicate Valid()
      reads this
    {
      && messages.Length == QueueSize
      && 0 <= head < QueueSize && 0 <= tail < QueueSize
      && 0 <= count <= QueueSize
      && head == (tail + count) % QueueSize
    }

    /** The queued messages, oldest first. */
    ghost function Contents(): seq<Message>
      reads this, messages
      requires Valid()
    {
      Window(messages[..], tail, count)
    }

    /** The server's msg_queue: zero-initialised storage, then init_message_queue. */
    constructor ()
      ensures Valid() && fresh(messages) && Contents() == []
    {
      messages := new Message[QueueSize](_ => Message("", "", ""));
      head, tail, count := 0, 0, 0;
    }

    /** init_message_queue: resets the three indices; the slots keep their contents. */
    method Init()
      requires messages.Length == QueueSize
      modifies this
      ensures Valid() && Contents() == []
      ensures head == 0 && tail == 0 && count == 0
    {
      head := 0;
      tail := 0;
      count := 0;
    }

    /** is_queue_empty */
    function IsEmpty(): (empty: bool)
      reads this, messages
      requires Valid()
      ensures empty <==> Contents() == []
    {
      count == 0
    }

    /** is_queue_full */
    function IsFull(): (full: bool)
      reads this, messages
      requires Valid()
      ensures full <==> |Contents()| == QueueSize
    {
      count >= QueueSize
    }

    /** enqueue_message: 0 and the message appended, or -1 and nothing changed
        when the queue is full. */
    method Enqueue(m: Message) returns (status: int)
      requires Valid()
      modifies this, messages
      ensures Valid()
      ensures status == (if old(count) >= QueueSize then -1 else 0)
      ensures status == -1 ==> unchanged(this) && unchanged(messages)
      ensures status == 0 ==> Contents() == old(Contents()) + [m]
      ensures status == 0 ==>
                && messages[old(head)] == m
                && head == (old(head) + 1) % QueueSize
                && tail == old(tail) && count == old(count) + 1
                && forall i :: 0 <= i < QueueSize && i != old(head) ==> messages[i] == old(messages[i])
    {
      if IsFull() {
        return -1;
      }
      WindowPush(messages[..], tail, count, m);
      messages[head] := m;
      head := (head + 1) % QueueSize;
      count := count + 1;
      return 0;
    }

    /** dequeue_message: 0 and the oldest message, or -1 and nothing changed
        when the queue is empty (the message is then meaningless). */
    method Dequeue() returns (status: int, m: Message)
      requires Valid()
      modifies this
      ensures Valid()
      ensures status == (if old(count) == 0 then -1 else 0)
      ensures status == -1 ==> unchanged(this)
      ensures status == 0 ==> m == old(Contents())[0] && Contents() == old(Contents())[1..]
      ensures status == 0 ==>
                && m == messages[old(tail)]
                && tail == (old(tail) + 1) % QueueSize
                && head == old(head) && count == old(count) - 1
    {
      if IsEmpty() {
        return -1, Message("", "", "");
      }
      WindowPop(messages[..], tail, count);
      m := messages[tail];
      tail := (tail + 1) % QueueSize;
      count := count - 1;
      return 0, m;
    }
  }

  /** Capacity and order together: up to QUEUE_SIZE messages are accepted and
      drained back in the order they went in, and one more is refused when the
      queue is already full. */
  method FillAndDrain(ms: seq<Message>, extra: Message) returns (extraStatus: int, out: seq<Message>)
    requires |ms| <= QueueSize
    ensures extraStatus == (if |ms| < QueueSize then 0 else -1)
    ensures out == if |ms| < QueueSize then ms + [extra] else ms
  {
    var q := new MessageQueue();
    var i := 0;
    while i < |ms|
      invariant 0 <= i <= |ms|
      invariant fresh(q) && fresh(q.messages)
      invariant q.Valid() && q.Contents() == ms[..i]
    {
      var status := q.Enqueue(ms[i]);
      assert ms[..i + 1] == ms[..i] + [ms[i]];
      i := i + 1;
    }
    assert ms[..i] == ms;
    extraStatus := q.Enqueue(extra);
    out := DequeueAll(q);
  }

  /** Dequeues until the queue reports empty, collecting what comes out. */
  method DequeueAll(q: MessageQueue) returns (out: seq<Message>)
    requires q.Valid()
    modifies q
    ensures q.Valid() && q.Contents() == [] && out == old(q.Contents())
  {
    out := [];
    while !q.IsEmpty()
      invariant q.Valid() && out + q.Contents() == old(q.Contents())
      decreases |q.Contents()|
    {
      var status, m := q.Dequeue();
      out := out + [m];
    }
  }
}
