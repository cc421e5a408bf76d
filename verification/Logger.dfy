// The logger seen by one thread at a time: the locked queue, the batch enqueue of the
// writer, and the managers that buffer messages per thread.
module Logger {

  datatype Message = Message(text: string)

  /** What dequeue returns when there is nothing to return. */
  const EMPTY_QUEUE := Message("Empty Queue")

  function Enqueued(queue: seq<Message>, msg: Message): seq<Message> {
    queue + [msg]
  }

  function Dequeued(queue: seq<Message>): (Message, seq<Message>) {
    if queue == [] then (EMPTY_QUEUE, queue) else (queue[0], queue[1..])
  }

  /** A queue of which every method holds the mutex, so each call is one atomic step. */
  class LockingQueue {
    var items: seq<Message>

    constructor ()
      ensures items == []
    {
      items := [];
    }

    method Enqueue(msg: Message)
      modifies this
      ensures items == Enqueued(old(items), msg)
    {
      items := items + [msg];
    }

    method Dequeue() returns (msg: Message)
      modifies this
      ensures (msg, items) == Dequeued(old(items))
      ensures if old(items) == [] then msg.text == "Empty Queue" && items == [] else old(items) == [msg] + items
    {
      if items == [] {
        return EMPTY_QUEUE;
      }
      msg := items[0];
      items := items[1..];
    }

    method Empty() returns (r: bool)
      ensures r <==> items == []
    {
      r := items == [];
    }
  }

  class LogWriter {
    const queue: LockingQueue

    constructor ()
      ensures fresh(queue) && queue.items == []
    {
      queue := new LockingQueue();
    }

    /** Enqueues a batch, message by message. */
    method Log(msgs: seq<Message>)
      modifies queue
      ensures queue.items == old(queue.items) + msgs
    {
      for i := 0 to |msgs|
        invariant queue.items == old(queue.items) + msgs[..i]
      {
        queue.Enqueue(msgs[i]);
      }
    }
  }

  /** The buffer of one thread, shared by all managers used on that thread. */
  class ThreadStorage {
    var messages: seq<Message>

    constructor ()
      ensures messages == []
    {
      messages := [];
    }
  }

  class LogManager {
    const writer: LogWriter
    const storage: ThreadStorage

    constructor (writer: LogWriter, storage: ThreadStorage)
      ensures this.writer == writer && this.storage == storage
    {
      this.writer := writer;
      this.storage := storage;
    }

    method Log(msg: Message)
      modifies storage
      ensures storage.messages == old(storage.messages) + [msg]
    {
      storage.messages := storage.messages + [msg];
    }

    /** Without interruption, hands the whole buffer over in order and empties it. */
    method Flush()
      modifies storage, writer.queue
      ensures storage.messages == []
      ensures writer.queue.items == old(writer.queue.items) + old(storage.messages)
    {
      writer.Log(storage.messages);
      storage.messages := [];
    }
  }
}
