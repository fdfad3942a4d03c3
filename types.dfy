// The plain records of the peer process: what it receives, queues and sends.

module ProcessTypes {

  /** A PREPARE received from another peer; it is open until the NOTIFY that answers it arrives. */
  datatype Prepare = Prepare(variable: string, ts: int, sender: int, open: bool := false)

  /** The answer of one subscriber to a PREPARE this peer sent, carrying the subscriber's clock. */
  datatype PrepareResponse = PrepareResponse(variable: string, ts: int, sender: int)

  /** A SET the local application asked for, queued until the peer starts it. */
  datatype SetOperation = SetOperation(variable: string, val: int, open: bool := false)

  /** A SET on the framework level: waiting for local delivery, or parked for a retry. */
  datatype SetOperationFramework = SetOperationFramework(variable: string, val: int, ts: int)

  /** A NOTIFY that could not be committed yet, kept with the peer it was meant for. */
  datatype FailedSend = FailedSend(sof: SetOperationFramework, parent: int)

  /** One NOTIFY to be committed: the operation, its timestamp and its destination. */
  datatype Triplet = Triplet(variable: string, val: int, ts: int, dest: int)

  /** A NOTIFY message (code 10) put on the wire: the variable travels as a single character. */
  datatype Notify = Notify(dest: int, variable: char, val: int, ts: int)

  /** The operation `runNextSetOperation` returns once the queue is exhausted. */
  const NoOperation: SetOperation := SetOperation("NONE", -1)

  /**
   * The character a variable name is reduced to before it is sent: its first
   * character, or the terminating NUL when the name is empty.
   */
  function WireChar(name: string): (r: char)
  {
    if |name| > 0 then name[0] else '\0'
  }

  function TripletTs(t: Triplet): (r: int) { t.ts }

  function OperationTs(o: SetOperationFramework): (r: int) { o.ts }
}
