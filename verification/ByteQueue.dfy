/** The ring buffer behaves as a byte queue over every run of its operations. */
module ByteQueues {
  import opened Bytes
  import opened MessageBuffers

  datatype Operation =
    | Push(chunk: bytes)
    | Pull(wanted: nat)
    | PullTo(delimiter: bytes, bufSize: nat)
    | Flush(turn: nat)

  /** An operation that the ring can be asked to do. */
  predicate Applies(size: nat, op: Operation) {
    op.Flush? ==> op.turn <= size
  }

  /** The number of bytes an operation hands out. */
  function HandedOut(r: Ring, op: Operation): (n: nat)
    requires r.Valid()
    ensures n <= r.stored
  {
    match op
    case Push(_) => 0
    case Pull(wanted) => Min(wanted, r.stored)
    case PullTo(delimiter, bufSize) => r.DelimitedCount(delimiter, bufSize)
    case Flush(_) => 0
  }

  function After(r: Ring, op: Operation): (r': Ring)
    requires r.Valid() && Applies(|r.cells|, op)
    ensures r'.Valid() && |r'.cells| == |r.cells|
  {
    match op
    case Push(chunk) => r.Push(chunk)
    case Flush(turn) => r.Flush(turn)
    case _ => r.Drop(HandedOut(r, op))
  }

  // ---------- the queue ----------

  datatype QueueOperation = Append(chunk: bytes) | Take(n: nat) | Clear

  function QueueAfter(capacity: nat, q: bytes, op: QueueOperation): bytes {
    match op
    case Append(chunk) => if |q| + |chunk| <= capacity then q + chunk else q
    case Take(n) => q[Min(n, |q|)..]
    case Clear => []
  }

  function Taken(q: bytes, op: QueueOperation): bytes {
    if op.Take? then q[..Min(op.n, |q|)] else []
  }

  function QueueRun(capacity: nat, q: bytes, ops: seq<QueueOperation>): bytes
    decreases |ops|
  {
    if ops == [] then q else QueueRun(capacity, QueueAfter(capacity, q, ops[0]), ops[1..])
  }

  function QueueOutputs(capacity: nat, q: bytes, ops: seq<QueueOperation>): seq<bytes>
    decreases |ops|
  {
    if ops == [] then [] else [Taken(q, ops[0])] + QueueOutputs(capacity, QueueAfter(capacity, q, ops[0]), ops[1..])
  }

  // ---------- runs of the ring ----------

  ghost predicate AllApply(size: nat, ops: seq<Operation>) {
    forall i | 0 <= i < |ops| :: Applies(size, ops[i])
  }

  function RingRun(r: Ring, ops: seq<Operation>): (r': Ring)
    requires r.Valid() && AllApply(|r.cells|, ops)
    ensures r'.Valid() && |r'.cells| == |r.cells|
    decreases |ops|
  {
    if ops == [] then r else assert Applies(|r.cells|, ops[0]); RingRun(After(r, ops[0]), ops[1..])
  }

  function RingOutputs(r: Ring, ops: seq<Operation>): seq<bytes>
    requires r.Valid() && AllApply(|r.cells|, ops)
    decreases |ops|
  {
    if ops == [] then []
    else
      assert Applies(|r.cells|, ops[0]);
      [r.Contents()[..HandedOut(r, ops[0])]] + RingOutputs(After(r, ops[0]), ops[1..])
  }

  /** What an operation is for the queue; where a delimited pull stops depends on the ring. */
  function AsQueueOperation(r: Ring, op: Operation): QueueOperation
    requires r.Valid()
  {
    match op
    case Push(chunk) => Append(chunk)
    case Flush(_) => Clear
    case _ => Take(HandedOut(r, op))
  }

  function AsQueueOperations(r: Ring, ops: seq<Operation>): seq<QueueOperation>
    requires r.Valid() && AllApply(|r.cells|, ops)
    decreases |ops|
  {
    if ops == [] then []
    else
      assert Applies(|r.cells|, ops[0]);
      [AsQueueOperation(r, ops[0])] + AsQueueOperations(After(r, ops[0]), ops[1..])
  }

  /** One operation: the stored bytes change as the queue does, and the same bytes are handed out. */
  lemma OperationRefines(r: Ring, op: Operation)
    requires r.Valid() && Applies(|r.cells|, op)
    ensures var q, op' := r.Contents(), AsQueueOperation(r, op);
            && After(r, op).Contents() == QueueAfter(r.Capacity(), q, op')
            && q[..HandedOut(r, op)] == Taken(q, op')
    ensures After(r, op).stored <= r.Capacity()
    ensures op.Push? && r.stored + |op.chunk| > r.Capacity() ==> After(r, op) == r
  {
    var q := r.Contents();
    match op
    case Push(chunk) =>
      if r.stored + |chunk| <= r.Capacity() {
        assert r.Push(chunk).Contents() == q + chunk;
      }
    case Flush(_) =>
    case _ =>
      var n := HandedOut(r, op);
      assert r.Drop(n).Contents() == q[n..];
  }

  /** One operation and the rest of a run, for the ring. */
  lemma RingStep(r: Ring, ops: seq<Operation>)
    requires r.Valid() && AllApply(|r.cells|, ops) && ops != []
    ensures Applies(|r.cells|, ops[0])
    ensures var r' := After(r, ops[0]);
            && AllApply(|r'.cells|, ops[1..])
            && RingRun(r, ops) == RingRun(r', ops[1..])
            && RingOutputs(r, ops) == [r.Contents()[..HandedOut(r, ops[0])]] + RingOutputs(r', ops[1..])
            && AsQueueOperations(r, ops) == [AsQueueOperation(r, ops[0])] + AsQueueOperations(r', ops[1..])
  {
    hide HandedOut, AsQueueOperation;
  }

  /** One operation and the rest of a run, for the queue. */
  lemma QueueStep(capacity: nat, q: bytes, op: QueueOperation, ops: seq<QueueOperation>)
    ensures var q' := QueueAfter(capacity, q, op);
            && QueueRun(capacity, q, [op] + ops) == QueueRun(capacity, q', ops)
            && QueueOutputs(capacity, q, [op] + ops) == [Taken(q, op)] + QueueOutputs(capacity, q', ops)
  {
    hide QueueAfter, Taken;
    assert ([op] + ops)[1..] == ops;
  }

  /** Any run of pushes, pulls and flushes is the run of a queue. */
  lemma {:induction false} RingRefinesQueue(r: Ring, ops: seq<Operation>)
    requires r.Valid() && AllApply(|r.cells|, ops)
    ensures var ops' := AsQueueOperations(r, ops);
            && RingRun(r, ops).Contents() == QueueRun(r.Capacity(), r.Contents(), ops')
            && RingOutputs(r, ops) == QueueOutputs(r.Capacity(), r.Contents(), ops')
    decreases |ops|
  {
    if ops != [] {
      hide After, HandedOut, AsQueueOperation, QueueAfter, Taken, RingRun, RingOutputs, AsQueueOperations, QueueRun,
           QueueOutputs, AllApply, Applies;
      RingStep(r, ops);
      OperationRefines(r, ops[0]);
      var r', op := After(r, ops[0]), AsQueueOperation(r, ops[0]);
      var rest := AsQueueOperations(r', ops[1..]);
      assert r'.Capacity() == r.Capacity();
      RingRefinesQueue(r', ops[1..]);
      hide Ring.Contents, Ring.Capacity;
      QueueStep(r.Capacity(), r.Contents(), op, rest);
      assert AsQueueOperations(r, ops) == [op] + rest;
    }
  }

  // ---------- conservation ----------

  /** The bytes an operation puts into the queue. */
  function Accepted(capacity: nat, q: bytes, op: QueueOperation): bytes {
    if op.Append? && |q| + |op.chunk| <= capacity then op.chunk else []
  }

  /** The bytes that leave it: those taken, and those a flush throws away. */
  function Departed(q: bytes, op: QueueOperation): bytes {
    if op.Clear? then q else Taken(q, op)
  }

  function AllAccepted(capacity: nat, q: bytes, ops: seq<QueueOperation>): bytes
    decreases |ops|
  {
    if ops == [] then []
    else Accepted(capacity, q, ops[0]) + AllAccepted(capacity, QueueAfter(capacity, q, ops[0]), ops[1..])
  }

  function AllDeparted(capacity: nat, q: bytes, ops: seq<QueueOperation>): bytes
    decreases |ops|
  {
    if ops == [] then []
    else Departed(q, ops[0]) + AllDeparted(capacity, QueueAfter(capacity, q, ops[0]), ops[1..])
  }

  lemma OperationConserves(capacity: nat, q: bytes, op: QueueOperation)
    ensures q + Accepted(capacity, q, op) == Departed(q, op) + QueueAfter(capacity, q, op)
  {
  }

  lemma Regroup(q: bytes, a: bytes, a': bytes, d: bytes, d': bytes, mid: bytes, end: bytes)
    requires q + a == d + mid && mid + a' == d' + end
    ensures q + (a + a') == d + d' + end
  {
    assert q + (a + a') == q + a + a' == d + (mid + a') == d + (d' + end);
  }

  /** Over any run no byte is lost, repeated or moved past another. */
  lemma {:induction false} RunConserves(capacity: nat, q: bytes, ops: seq<QueueOperation>)
    ensures q + AllAccepted(capacity, q, ops) == AllDeparted(capacity, q, ops) + QueueRun(capacity, q, ops)
    decreases |ops|
  {
    if ops == [] {
      assert q + [] == [] + q;
    } else {
      hide Accepted, Departed, QueueAfter;
      var mid := QueueAfter(capacity, q, ops[0]);
      OperationConserves(capacity, q, ops[0]);
      RunConserves(capacity, mid, ops[1..]);
      Regroup(q, Accepted(capacity, q, ops[0]), AllAccepted(capacity, mid, ops[1..]),
              Departed(q, ops[0]), AllDeparted(capacity, mid, ops[1..]), mid, QueueRun(capacity, mid, ops[1..]));
    }
  }

  /** The chunks a ring accepts over a run. */
  function RingAccepted(r: Ring, ops: seq<Operation>): bytes
    requires r.Valid() && AllApply(|r.cells|, ops)
    decreases |ops|
  {
    if ops == [] then []
    else
      assert Applies(|r.cells|, ops[0]);
      (if ops[0].Push? && r.stored + |ops[0].chunk| <= r.Capacity() then ops[0].chunk else []) +
      RingAccepted(After(r, ops[0]), ops[1..])
  }

  /** What leaves the ring with each operation: what is handed out, or everything at a flush. */
  function RingLeft(r: Ring, ops: seq<Operation>): seq<bytes>
    requires r.Valid() && AllApply(|r.cells|, ops)
    decreases |ops|
  {
    if ops == [] then []
    else
      assert Applies(|r.cells|, ops[0]);
      [if ops[0].Flush? then r.Contents() else r.Contents()[..HandedOut(r, ops[0])]] +
      RingLeft(After(r, ops[0]), ops[1..])
  }

  /** But for flushes, what leaves the ring is what its operations hand out. */
  lemma {:induction false} LeftIsHandedOut(r: Ring, ops: seq<Operation>)
    requires r.Valid() && AllApply(|r.cells|, ops)
    ensures |RingLeft(r, ops)| == |RingOutputs(r, ops)| == |ops|
    ensures forall i | 0 <= i < |ops| :: RingOutputs(r, ops)[i] == if ops[i].Flush? then [] else RingLeft(r, ops)[i]
    decreases |ops|
  {
    if ops != [] {
      hide After, AllApply, Applies;
      RingStep(r, ops);
      LeftIsHandedOut(After(r, ops[0]), ops[1..]);
      var left, out := RingLeft(r, ops), RingOutputs(r, ops);
      forall i | 0 <= i < |ops| ensures out[i] == if ops[i].Flush? then [] else left[i] {
        if i > 0 {
          assert ops[i] == ops[1..][i - 1];
        }
      }
    }
  }

  lemma {:induction false} LeftIsDeparted(r: Ring, ops: seq<Operation>)
    requires r.Valid() && AllApply(|r.cells|, ops)
    ensures var ops' := AsQueueOperations(r, ops);
            && Concat(RingLeft(r, ops)) == AllDeparted(r.Capacity(), r.Contents(), ops')
            && RingAccepted(r, ops) == AllAccepted(r.Capacity(), r.Contents(), ops')
    decreases |ops|
  {
    if ops != [] {
      hide After, HandedOut, QueueAfter, Taken, RingRun, RingOutputs, QueueRun, QueueOutputs, AsQueueOperation,
           AsQueueOperations, AllDeparted, AllAccepted, RingLeft, RingAccepted, Departed, Accepted, AllApply,
           Applies, Concat;
      var r', op := After(r, ops[0]), AsQueueOperation(r, ops[0]);
      RingStep(r, ops);
      LeftStep(r, ops);
      OperationRefines(r, ops[0]);
      assert r'.Capacity() == r.Capacity();
      LeftIsDeparted(r', ops[1..]);
      hide Ring.Contents, Ring.Capacity;
      DepartedStep(r.Capacity(), r.Contents(), op, AsQueueOperations(r', ops[1..]));
    }
  }

  /** One operation: what it accepts and what leaves with it. */
  lemma LeftStep(r: Ring, ops: seq<Operation>)
    requires r.Valid() && AllApply(|r.cells|, ops) && ops != []
    ensures var r', op := After(r, ops[0]), AsQueueOperation(r, ops[0]);
            && AllApply(|r'.cells|, ops[1..])
            && Concat(RingLeft(r, ops)) == Departed(r.Contents(), op) + Concat(RingLeft(r', ops[1..]))
            && RingAccepted(r, ops) == Accepted(r.Capacity(), r.Contents(), op) + RingAccepted(r', ops[1..])
  {
    RingStep(r, ops);
    OperationRefines(r, ops[0]);
    hide After, HandedOut, Taken, QueueAfter, RingRun, RingOutputs, AsQueueOperations;
    var left := RingLeft(r, ops);
    assert left[1..] == RingLeft(After(r, ops[0]), ops[1..]);
  }

  lemma DepartedStep(capacity: nat, q: bytes, op: QueueOperation, ops: seq<QueueOperation>)
    ensures var q' := QueueAfter(capacity, q, op);
            && AllDeparted(capacity, q, [op] + ops) == Departed(q, op) + AllDeparted(capacity, q', ops)
            && AllAccepted(capacity, q, [op] + ops) == Accepted(capacity, q, op) + AllAccepted(capacity, q', ops)
  {
    hide QueueAfter, Departed, Accepted;
    assert ([op] + ops)[1..] == ops;
  }

  /** Over any run of the ring, what it held and accepted is what left it and what it still holds. */
  lemma RingConserves(r: Ring, ops: seq<Operation>)
    requires r.Valid() && AllApply(|r.cells|, ops)
    ensures r.Contents() + RingAccepted(r, ops) == Concat(RingLeft(r, ops)) + RingRun(r, ops).Contents()
  {
    RingRefinesQueue(r, ops);
    LeftIsDeparted(r, ops);
    RunConserves(r.Capacity(), r.Contents(), AsQueueOperations(r, ops));
  }
}
