/**
 * The edit queue of collaborate.c: a singly linked FIFO of edits with head
 * and tail pointers and a pending-edits flag, filled by the thread that
 * receives remote messages and drained by Vim's main thread.
 *
 * Each operation is modelled as one atomic step (the mutex is not modelled).
 * The node layout is editnode_T and the queue record is the head/tail part
 * of editqueue_T in collab_structs.h; collaborate.c declares a second,
 * different editqueue_T (an edit plus a next pointer) and keeps the queue in
 * file-level globals instead.
 *
 * Dequeue follows the evidently intended relink rather than the code as
 * written. The code (1) reads edithead->next after free(edithead), and
 * (2) never clears edittail when the last node leaves, so a later enqueue
 * links its node after the released node while edithead stays NULL and the
 * edit is never seen. The module AsWrittenQueue below models the code as
 * written and exhibits both.
 */
module Collaborate {
  import opened Wrappers
  import opened CollabStructs

  /** The keys pending_collabedits pushes back into Vim's input buffer. */
  datatype InputKey = Csi | KsExtra | KeCollabEdit

  /** The three-key sequence CSI, KS_EXTRA, KE_COLLABEDIT. */
  const CollabKeys: seq<InputKey> := [Csi, KsExtra, KeCollabEdit]

  /** editnode_T: an edit and the next node, or null. */
  class Node {
    var edit: Edit
    var next: Node?

    constructor (e: Edit)
      ensures edit == e && next == null
    {
      edit := e;
      next := null;
    }
  }

  class EditQueue {
    var head: Node?
    var tail: Node?
    var pendingEdits: bool

    // The nodes from head to tail, the edits they hold, the number of bytes
    // in the wake-up descriptor (one per queued edit), and the objects the
    // queue may touch.
    ghost var nodes: seq<Node>
    ghost var contents: seq<Edit>
    ghost var signals: nat
    ghost var Repr: set<object>

    ghost predicate Valid()
      reads this, Repr
    {
      && this in Repr
      && (forall i :: 0 <= i < |nodes| ==> nodes[i] in Repr)
      && |nodes| == |contents|
      && signals == |contents|
      && (forall i :: 0 <= i < |nodes| ==> nodes[i].edit == contents[i])
      && (forall i :: 0 <= i < |nodes| - 1 ==> nodes[i].next == nodes[i + 1])
      && (forall i, j :: 0 <= i < j < |nodes| ==> nodes[i] != nodes[j])
      && (if nodes == [] then head == null && tail == null
          else head == nodes[0] && tail == nodes[|nodes| - 1] && tail.next == null)
      // The flag may stay set after the last edit leaves; it is never clear
      // while an edit is queued.
      && (contents != [] ==> pendingEdits)
    }

    /** The initial state of the globals: both pointers NULL, flag FALSE. */
    constructor ()
      ensures Valid() && contents == [] && !pendingEdits && fresh(Repr)
    {
      head, tail, pendingEdits := null, null, false;
      nodes, contents, signals := [], [], 0;
      Repr := {this};
    }

    /** collab_enqueue: link a new node after the tail and set the flag. */
    method Enqueue(e: Edit)
      requires Valid()
      modifies Repr
      ensures Valid() && fresh(Repr - old(Repr))
      ensures contents == old(contents) + [e]
      ensures old(contents) == [] ==> head == tail && contents == [e]
      ensures pendingEdits
      ensures signals == old(signals) + 1
      ensures fresh(tail) && nodes == old(nodes) + [tail]
    {
      var node := new Node(e);
      if tail == null {
        head := node;
        tail := node;
      } else {
        tail.next := node;
        tail := node;
      }
      pendingEdits := true;
      nodes := nodes + [node];
      Repr := Repr + {node};
      contents := contents + [e];
      signals := signals + 1;
    }

    /**
     * collab_dequeue: unlink and return the head edit, or None (with the
     * flag cleared) when the queue is empty.
     */
    method Dequeue() returns (first: Option<Edit>)
      requires Valid()
      modifies this
      ensures Valid() && Repr == old(Repr)
      ensures old(contents) == [] ==> first == None && contents == [] && !pendingEdits && signals == 0
      ensures old(contents) != [] ==>
                first == Some(old(contents)[0]) && contents == old(contents)[1..]
                && pendingEdits == old(pendingEdits) && signals == old(signals) - 1
      ensures nodes == if old(nodes) == [] then old(nodes) else old(nodes)[1..]
    {
      if head != null {
        first := Some(head.edit);
        var next := head.next;  // read before the node is released
        head := next;
        if head == null {
          tail := null;  // the queue is empty again
        }
        nodes := nodes[1..];
        contents := contents[1..];
        signals := signals - 1;
      } else {
        pendingEdits := false;
        first := None;
      }
    }

    /**
     * pending_collabedits: read the flag without changing the queue and
     * return the keys it pushes into the input buffer.
     */
    method PendingCollabEdits() returns (keys: seq<InputKey>)
      requires Valid()
      ensures keys == [] || keys == CollabKeys
      ensures keys == CollabKeys <==> pendingEdits
      ensures contents != [] ==> keys == CollabKeys
    {
      var pending := pendingEdits;
      if pending {
        keys := CollabKeys;
      } else {
        keys := [];
      }
    }

    /**
     * process_collabedits: dequeue until the queue reports empty. The edits
     * handed to the apply step, in order, are returned.
     */
    method ProcessCollabEdits() returns (applied: seq<Edit>)
      requires Valid()
      modifies this
      ensures Valid() && Repr == old(Repr)
      ensures applied == old(contents)
      ensures contents == [] && !pendingEdits
    {
      applied := [];
      var edit := Dequeue();
      while edit.Some?
        invariant Valid() && Repr == old(Repr)
        invariant edit.Some? ==> old(contents) == applied + [edit.value] + contents
        invariant edit.None? ==> old(contents) == applied && contents == [] && !pendingEdits
        decreases |contents| + (if edit.Some? then 1 else 0)
      {
        ghost var rest := contents;
        applied := applied + [edit.value];
        edit := Dequeue();
        if rest != [] {
          assert edit == Some(rest[0]) && contents == rest[1..];
          assert rest == [rest[0]] + rest[1..];
        }
      }
    }
  }

  /** FIFO: edits enqueued in order come out of a drain in the same order. */
  method EnqueueThenDrain(q: EditQueue, edits: seq<Edit>) returns (applied: seq<Edit>)
    requires q.Valid()
    modifies q.Repr
    ensures q.Valid() && fresh(q.Repr - old(q.Repr))
    ensures q.contents == [] && !q.pendingEdits
    ensures applied == old(q.contents) + edits
  {
    var i := 0;
    while i < |edits|
      invariant 0 <= i <= |edits|
      invariant q.Valid()
      invariant q.contents == old(q.contents) + edits[..i]
      invariant fresh(q.Repr - old(q.Repr))
    {
      q.Enqueue(edits[i]);
      assert edits[..i + 1] == edits[..i] + [edits[i]];
      i := i + 1;
    }
    assert edits[..i] == edits;
    applied := q.ProcessCollabEdits();
  }
}

/**
 * collab_enqueue and collab_dequeue exactly as written, over an explicit heap
 * of nodes. A node that has been passed to free stays readable in `heap` but
 * leaves `live`; `touchedFreed` records any read or write of a released node.
 * The allocator never reuses an address: malloc is taken to return a fresh
 * block. If it handed back the block just freed, the enqueue after a
 * dequeue would link that node to itself (node->next = node) instead of
 * writing into a released one; edithead stays NULL either way, so the edit
 * is lost in both cases.
 */
module AsWrittenQueue {
  import opened Wrappers
  import opened CollabStructs

  type Addr = nat

  datatype RawNode = RawNode(edit: Edit, next: Option<Addr>)

  datatype RawQueue = RawQueue(
    heap: map<Addr, RawNode>,
    live: set<Addr>,
    head: Option<Addr>,
    tail: Option<Addr>,
    pending: bool,
    nextFree: Addr,
    touchedFreed: bool)

  /** Every address the queue refers to, or that the allocator will hand out, is in the heap map or above it. */
  ghost predicate WellFormed(q: RawQueue)
  {
    && (forall a :: a in q.heap ==> a < q.nextFree)
    && q.live <= q.heap.Keys
    && (q.head.Some? ==> q.head.value in q.heap)
    && (q.tail.Some? ==> q.tail.value in q.heap)
    && (forall a :: a in q.heap && q.heap[a].next.Some? ==> q.heap[a].next.value in q.heap)
  }

  const Empty := RawQueue(map[], {}, None, None, false, 0, false)

  /** collab_enqueue as written: malloc a node, then relink on edittail. */
  function RawEnqueue(q: RawQueue, e: Edit): (r: RawQueue)
    requires WellFormed(q)
    ensures WellFormed(r) && r.pending
  {
    var a := q.nextFree;
    var heap := q.heap[a := RawNode(e, None)];
    if q.tail.None? then
      q.(heap := heap, live := q.live + {a}, head := Some(a), tail := Some(a),
         pending := true, nextFree := a + 1)
    else
      var t := q.tail.value;
      q.(heap := heap[t := heap[t].(next := Some(a))], live := q.live + {a}, tail := Some(a),
         pending := true, nextFree := a + 1, touchedFreed := q.touchedFreed || t !in q.live)
  }

  /**
   * collab_dequeue as written: take the head edit, free the head node, then
   * read the released node's next field; edittail is left unchanged.
   */
  function RawDequeue(q: RawQueue): (r: (Option<Edit>, RawQueue))
    requires WellFormed(q)
    ensures WellFormed(r.1)
  {
    if q.head.Some? then
      var h := q.head.value;
      var live := q.live - {h};
      (Some(q.heap[h].edit),
       q.(live := live, head := q.heap[h].next, touchedFreed := q.touchedFreed || h !in live))
    else
      (None, q.(pending := false))
  }

  /** Every dequeue of a non-empty queue reads the node it has just released. */
  lemma DequeueReadsReleasedNode(q: RawQueue)
    requires WellFormed(q) && q.head.Some?
    ensures RawDequeue(q).1.touchedFreed
    ensures q.head.value !in RawDequeue(q).1.live
  {
  }

  /**
   * Enqueue e1, dequeue it, enqueue e2: the second enqueue links its node
   * after the released first node (a write to freed memory), edithead stays
   * NULL, and the next dequeue reports the queue empty, so e2 is never
   * delivered. The intended FIFO would return Some(e2). The write to freed
   * memory assumes malloc returns a fresh block; with the freed block reused,
   * the node links to itself and e2 is lost all the same.
   */
  lemma StaleTailLosesEdit(e1: Edit, e2: Edit)
    ensures var q1 := RawEnqueue(Empty, e1);
            var (d1, q2) := RawDequeue(q1);
            var q3 := RawEnqueue(q2, e2);
            var (d2, q4) := RawDequeue(q3);
            d1 == Some(e1) && q3.head == None && q3.tail == Some(1) && q3.touchedFreed
            && d2 == None && !q4.pending
  {
    var q1 := RawEnqueue(Empty, e1);
    assert q1.head == Some(0) && q1.tail == Some(0) && q1.heap[0] == RawNode(e1, None);
    var (d1, q2) := RawDequeue(q1);
    assert q2.head == None && q2.tail == Some(0) && 0 !in q2.live;
    var q3 := RawEnqueue(q2, e2);
    assert q3.head == None && q3.tail == Some(1) && q3.touchedFreed;
  }
}
