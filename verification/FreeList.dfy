/**
  The free list of the device (src/containers/free_list.hpp and _impl.hpp): a
  singly linked queue with head and tail, and a stack of recycled nodes that
  shares the nodes.  The host allocates nodes; the device can only reuse
  recycled ones.  Each operation runs under the list's mutex and is one step.
*/
module FreeList {
  import opened Options

  class Node<T> {
    var data: T
    var next: Node?<T>
    /** A number that tells the nodes apart: position in the stream of pushed elements, or depth in the recycled stack. */
    ghost var mark: int
    constructor (d: T)
      ensures data == d && next == null
    { data := d; next := null; }
  }

  ghost function Elements<T>(nodes: seq<Node<T>>): set<Node<T>> { set n | n in nodes }

  class List<T> {
    var head: Node?<T>
    var tail: Node?<T>
    var deallocatedNodes: Node?<T>

    /** The elements pushed so far, the nodes they were put in, and how many have been popped. */
    ghost var values: seq<T>
    ghost var stream: seq<Node<T>>
    ghost var popped: nat
    /** The recycled nodes, top last. */
    ghost var spare: seq<Node<T>>
    /** The nodes the host has allocated. */
    ghost var nodes: set<Node<T>>

    /** The nodes in the queue, oldest first. */
    ghost function Live(): seq<Node<T>>
      reads `stream, `popped
    { if popped <= |stream| then stream[popped..] else [] }

    ghost predicate LiveOk()
      reads `head, `tail, `values, `stream, `popped, Live()
    {
      && popped <= |stream| == |values|
      && head == (if popped < |stream| then stream[popped] else null)
      && tail == (if popped < |stream| then stream[|stream| - 1] else null)
      && forall i :: popped <= i < |stream| ==> LiveAt(i)
    }

    ghost predicate LiveAt(i: nat)
      requires popped <= i < |stream| == |values|
      reads `values, `stream, `popped, Live()
    {
      assert stream[i] == Live()[i - popped];
      && stream[i].next == (if i + 1 < |stream| then stream[i + 1] else null)
      && stream[i].mark == i && stream[i].data == values[i]
    }

    ghost predicate SpareOk()
      reads `deallocatedNodes, `spare, spare
    {
      && deallocatedNodes == (if spare == [] then null else spare[|spare| - 1])
      && forall i :: 0 <= i < |spare| ==> SpareAt(i)
    }

    ghost predicate SpareAt(i: nat)
      requires i < |spare|
      reads `spare, spare
    { spare[i].next == (if i == 0 then null else spare[i - 1]) && spare[i].mark == -1 - i }

    /** The allocated nodes are exactly those in the queue and those on the recycled stack. */
    ghost predicate NodesOk()
      reads `nodes, `stream, `popped, `spare
    { nodes == Elements(Live()) + Elements(spare) }

    ghost predicate Valid()
      reads this, Live(), spare
    { LiveOk() && SpareOk() && NodesOk() }

    /** Marks of live nodes are not negative and those of recycled nodes are, so all nodes are different. */
    lemma Separate()
      requires LiveOk() && SpareOk()
      ensures forall i, j :: popped <= i < j < |stream| ==> stream[i] != stream[j]
      ensures forall i, j :: 0 <= i < j < |spare| ==> spare[i] != spare[j]
      ensures forall i, j :: popped <= i < |stream| && 0 <= j < |spare| ==> stream[i] != spare[j]
    {
      forall i | popped <= i < |stream| ensures stream[i].mark == i { assert LiveAt(i); }
      forall i | 0 <= i < |spare| ensures spare[i].mark == -1 - i { assert SpareAt(i); }
    }

    /** The queue as a value: its elements and the number of nodes the device may reuse. */
    ghost function Model(): Queue<T>
      reads this
    { Queue(if popped <= |values| then values[popped..] else [], |spare|) }

    constructor ()
      ensures Valid() && Model() == Queue([], 0) && nodes == {}
    {
      head, tail, deallocatedNodes := null, null, null;
      values, stream, popped, spare, nodes := [], [], 0, [], {};
    }

    method InsertNodeAtTail(node: Node<T>)
      requires LiveOk() && node !in Live() && node.next == null
      modifies `head, `tail, `values, `stream, (if tail == null then {} else {tail})`next, node`mark
      ensures LiveOk() && stream == old(stream) + [node] && values == old(values) + [node.data]
    {
      forall i | popped <= i < |stream| ensures stream[i].mark == i && stream[i] in Live() {
        assert LiveAt(i);
        assert stream[i] == Live()[i - popped];
      }
      if tail != null {
        tail.next := node;
      }
      tail := node;
      if head == null {
        head := node;
      }
      node.mark := |stream|;
      values := values + [node.data];
      stream := stream + [node];
      forall i | popped <= i < |stream| ensures LiveAt(i) {
        if i < |stream| - 1 { assert old(LiveAt(i)); }
      }
    }

    /** allocate_node on the device: the top of the recycled stack, if any. */
    method AllocateNode() returns (node: Node?<T>)
      requires SpareOk()
      modifies `deallocatedNodes, `spare
      ensures SpareOk() && node == old(deallocatedNodes)
      ensures node == null <==> old(spare) == []
      ensures if node == null then spare == old(spare) else old(spare) == spare + [node] && node.mark == -1 - |spare|
    {
      node := deallocatedNodes;
      if node != null {
        assert SpareAt(|spare| - 1);
        deallocatedNodes := node.next;
        spare := spare[..|spare| - 1];
        forall i | 0 <= i < |spare| ensures SpareAt(i) { assert old(SpareAt(i)); }
      }
    }

    /** deallocate_node: the node becomes the top of the recycled stack. */
    method DeallocateNode(node: Node<T>)
      requires SpareOk() && node !in spare
      modifies `deallocatedNodes, `spare, node`next, node`mark
      ensures SpareOk() && spare == old(spare) + [node]
    {
      node.next := deallocatedNodes;
      deallocatedNodes := node;
      node.mark := -1 - |spare|;
      spare := spare + [node];
      forall i | 0 <= i < |spare| ensures SpareAt(i) {
        if i < |spare| - 1 { assert old(SpareAt(i)); }
      }
    }

    /** The head of the queue leaves it. */
    method UnlinkHead() returns (node: Node<T>)
      requires LiveOk() && popped < |stream|
      modifies `head, `tail, `popped
      ensures LiveOk() && popped == old(popped) + 1 && node == stream[old(popped)] && node.data == values[old(popped)]
    {
      assert LiveAt(popped);
      node := head;
      head := head.next;
      if head == null {
        tail := null;
      }
      popped := popped + 1;
      forall i | popped <= i < |stream| ensures LiveAt(i) { assert old(LiveAt(i)); }
    }

    lemma PartsAreNodes()
      requires NodesOk()
      ensures (forall n <- Live() :: n in nodes) && (forall n <- spare :: n in nodes)
    {
      forall n | n in Live() ensures n in nodes { assert n in Elements(Live()); }
      forall n | n in spare ensures n in nodes { assert n in Elements(spare); }
    }

    /** What an operation of the host or the device must leave alone to keep the other part intact. */
    lemma TailIsLive()
      requires LiveOk() && SpareOk()
      ensures tail != null ==> tail in Live() && tail !in spare
    {
      Separate();
      if tail != null { assert tail == Live()[|Live()| - 1]; }
    }

    /**
      push_back on the host: a new node is allocated, if there is memory for it; the allocator's answer is
      a parameter.  Without memory nothing changes.
    */
    method HostPushBack(val: T, memory: bool) returns (ok: bool, ghost node: Node?<T>)
      requires Valid()
      modifies this, (if tail == null then {} else {tail})`next
      ensures Valid() && ok == memory && spare == old(spare) && popped == old(popped)
      ensures values == if ok then old(values) + [val] else old(values)
      ensures Model() == if ok then HostPush(old(Model()), val) else old(Model())
      ensures ok ==> node != null && fresh(node) && nodes == old(nodes) + {node} && stream == old(stream) + [node] && tail == node
      ensures !ok ==> nodes == old(nodes) && stream == old(stream) && tail == old(tail)
    {
      if !memory {
        return false, null;
      }
      DropAppend(values, popped, val);
      node := LinkNew(val);
      ok := true;
    }

    /** A new node is filled and becomes the last of the queue. */
    method LinkNew(val: T) returns (ghost node: Node<T>)
      requires Valid()
      modifies `head, `tail, `values, `stream, `nodes, (if tail == null then {} else {tail})`next
      ensures Valid() && fresh(node) && stream == old(stream) + [node] && nodes == old(nodes) + {node}
      ensures values == old(values) + [val] && tail == node
    {
      TailIsLive();
      var fromAllocator := new Node(val);
      nodes := nodes + {fromAllocator};
      LiveGrows(old(stream), popped, fromAllocator);
      InsertNodeAtTail(fromAllocator);
      node := fromAllocator;
    }

    /** push_back on the device: it fails if and only if no recycled node is left. */
    method DevicePushBack(val: T) returns (ok: bool)
      requires Valid()
      modifies this, Live(), spare
      ensures Valid() && nodes == old(nodes) && popped == old(popped)
      ensures Model() == DevicePush(old(Model()), val).0 && ok == DevicePush(old(Model()), val).1
    {
      DropAppend(values, popped, val);
      if spare != [] { MoveElement(stream, popped, spare); }
      ok := PushSpare(val);
    }

    /** The top recycled node, if any, becomes the last of the queue. */
    method PushSpare(val: T) returns (ok: bool)
      requires LiveOk() && SpareOk()
      modifies `head, `tail, `values, `stream, `deallocatedNodes, `spare, Live(), spare
      ensures LiveOk() && SpareOk() && ok == (old(spare) != [])
      ensures if ok then stream == old(stream) + [old(spare)[|old(spare)| - 1]] else stream == old(stream)
      ensures values == if ok then old(values) + [val] else old(values)
      ensures spare == if ok then old(spare)[..|old(spare)| - 1] else old(spare)
    {
      TailIsLive();
      var node := AllocateNode();
      if node == null {
        return false;
      }
      LinkSpare(node, val);
      ok := true;
    }

    /** A node taken from the recycled stack is filled and becomes the last of the queue. */
    method LinkSpare(node: Node<T>, val: T)
      requires LiveOk() && SpareOk() && node.mark == -1 - |spare|
      modifies `head, `tail, `values, `stream, node, (if tail == null then {} else {tail})`next
      ensures LiveOk() && SpareOk() && stream == old(stream) + [node] && values == old(values) + [val]
    {
      TailIsLive();
      NotElsewhere(node);
      node.data := val;
      node.next := null;
      InsertNodeAtTail(node);
    }

    /** The node just taken from the stack is neither on it nor in the queue. */
    lemma NotElsewhere(node: Node<T>)
      requires LiveOk() && SpareOk() && node.mark == -1 - |spare|
      ensures node !in Live() && node !in spare
    {
      forall i | popped <= i < |stream| ensures stream[i] != node { assert LiveAt(i); }
      forall i | 0 <= i < |spare| ensures spare[i] != node { assert SpareAt(i); }
    }

    /** pop_front: the oldest element, and its node goes onto the recycled stack. */
    method PopFront() returns (result: Option<T>)
      requires Valid()
      modifies this, Live()
      ensures Valid() && nodes == old(nodes)
      ensures Model() == Pop(old(Model())).0 && result == Pop(old(Model())).1
    {
      if head == null {
        return None;
      }
      ghost var node;
      var data;
      DropFirst(values, popped);
      LiveShrinks(stream, popped);
      ElementsAppend(spare, stream[popped]);
      data, node := Recycle();
      result := Some(data);
    }

    /** The head of the queue becomes the top of the recycled stack. */
    method Recycle() returns (data: T, ghost node: Node<T>)
      requires LiveOk() && SpareOk() && popped < |stream|
      modifies `head, `tail, `popped, `deallocatedNodes, `spare, Live()
      ensures LiveOk() && SpareOk() && popped == old(popped) + 1 && spare == old(spare) + [node] && node == stream[old(popped)]
      ensures data == values[old(popped)]
    {
      HeadIsApart();
      var lastNode := UnlinkHead();
      data := lastNode.data;
      DeallocateNode(lastNode);
      node := lastNode;
    }

    /** The head is in the queue once and not on the stack. */
    lemma HeadIsApart()
      requires LiveOk() && SpareOk() && head != null
      ensures head !in stream[popped + 1..] && head !in spare && head in Live()
    {
      Separate();
      assert head == Live()[0];
    }

    /**
      push_back_range on the host, when there is memory for `room` nodes: the elements are pushed in order
      up to the first for which there is none, and the result tells whether all were.
    */
    method PushBackRange(vals: seq<T>, room: nat) returns (ok: bool, ghost pushed: nat)
      requires Valid()
      modifies this, Live()`next
      ensures Valid() && ok == (|vals| <= room) && pushed == if ok then |vals| else room
      ensures values == old(values) + vals[..pushed] && spare == old(spare) && popped == old(popped)
    {
      ok := true;
      var i := 0;
      while ok && i < |vals|
        invariant Valid() && i <= |vals| && i <= room && (ok || i == room < |vals|)
        invariant values == old(values) + vals[..i] && spare == old(spare) && popped == old(popped)
        invariant tail != null ==> tail in old(Live()) || fresh(tail)
        decreases ok, |vals| - i
      {
        AppendOne(old(values), vals, i);
        ghost var node;
        ok, node := HostPushBack(vals[i], i < room);
        i := if ok then i + 1 else i;
      }
      pushed := i;
    }

    /** One of the two loops of deallocate_all_nodes: a chain is given back node by node. */
    static method DeallocateChain(first: Node?<T>, ghost chain: seq<Node<T>>) returns (freed: seq<Node<T>>)
      requires first == At(chain, 0) && forall i :: 0 <= i < |chain| ==> LinkAt(chain, i)
      ensures freed == chain
    {
      freed := [];
      var node := first;
      while node != null
        invariant |freed| <= |chain| && freed == chain[..|freed|] && node == At(chain, |freed|)
        decreases |chain| - |freed|
      {
        assert LinkAt(chain, |freed|);
        var temp := node;
        node := temp.next;
        freed := freed + [temp];
      }
    }

    /** The queue's nodes, and the recycled ones from the top, are chains that end in null. */
    lemma Chains()
      requires LiveOk() && SpareOk()
      ensures head == At(Live(), 0) && forall i :: 0 <= i < |Live()| ==> LinkAt(Live(), i)
      ensures deallocatedNodes == At(Reverse(spare), 0) && forall i :: 0 <= i < |spare| ==> LinkAt(Reverse(spare), i)
    {
      forall i | 0 <= i < |Live()| ensures LinkAt(Live(), i) { assert LiveAt(popped + i); }
      forall i | 0 <= i < |spare| ensures LinkAt(Reverse(spare), i) { assert SpareAt(|spare| - 1 - i); }
    }

    /** deallocate_all_nodes: `freed` lists the nodes in the order they are given back, each once. */
    method DeallocateAllNodes() returns (freed: seq<Node<T>>)
      requires Valid()
      modifies this
      ensures Valid() && Model() == Queue([], 0) && head == null && tail == null && deallocatedNodes == null
      ensures freed == old(Live()) + Reverse(old(spare))
      ensures Elements(freed) == old(nodes) && nodes == {}
      ensures forall i, j :: 0 <= i < j < |freed| ==> freed[i] != freed[j]
    {
      Chains();
      AllApart();
      freed := DeallocateChain(head, Live());
      head, tail := null, null;
      var recycled := DeallocateChain(deallocatedNodes, Reverse(spare));
      deallocatedNodes := null;
      freed := freed + recycled;
      values, stream, popped, spare, nodes := [], [], 0, [], {};
    }

    lemma AllApart()
      requires Valid()
      ensures var all := Live() + Reverse(spare);
        Elements(all) == nodes && forall i, j :: 0 <= i < j < |all| ==> all[i] != all[j]
    {
      Separate();
      var all := Live() + Reverse(spare);
      forall n | n in spare ensures n in all {
        var i :| 0 <= i < |spare| && spare[i] == n;
        assert all[|Live()| + |spare| - 1 - i] == n;
      }
      forall n | n in Live() ensures n in all {
        var i :| 0 <= i < |Live()| && Live()[i] == n;
        assert all[i] == n;
      }
    }
  }

  function At<T>(chain: seq<Node<T>>, i: nat): Node?<T> { if i < |chain| then chain[i] else null }

  ghost predicate LinkAt<T>(chain: seq<Node<T>>, i: nat)
    requires i < |chain|
    reads chain
  { chain[i].next == At(chain, i + 1) }

  function Reverse<T>(s: seq<T>): seq<T> { seq(|s|, i requires 0 <= i < |s| => s[|s| - 1 - i]) }

  lemma DropAppend<T>(values: seq<T>, popped: nat, v: T)
    requires popped <= |values|
    ensures (values + [v])[popped..] == values[popped..] + [v]
  {}

  lemma DropFirst<T>(values: seq<T>, popped: nat)
    requires popped < |values|
    ensures values[popped..] != [] && values[popped..][0] == values[popped] && values[popped..][1..] == values[popped + 1..]
  {}

  lemma AppendOne<T>(items: seq<T>, vals: seq<T>, k: nat)
    requires k < |vals|
    ensures (items + vals[..k]) + [vals[k]] == items + vals[..k + 1]
  {}

  lemma ElementsAppend<T>(nodes: seq<Node<T>>, n: Node<T>)
    ensures Elements(nodes + [n]) == Elements(nodes) + {n}
  {}

  lemma LiveGrows<T>(stream: seq<Node<T>>, popped: nat, n: Node<T>)
    requires popped <= |stream|
    ensures Elements((stream + [n])[popped..]) == Elements(stream[popped..]) + {n}
  {
    assert (stream + [n])[popped..] == stream[popped..] + [n];
  }

  /** A node that moves from the recycled stack to the queue stays one of the nodes. */
  lemma MoveElement<T>(stream: seq<Node<T>>, popped: nat, spare: seq<Node<T>>)
    requires popped <= |stream| && spare != []
    ensures var (last, n) := (|spare| - 1, spare[|spare| - 1]);
      Elements((stream + [n])[popped..]) + Elements(spare[..last]) == Elements(stream[popped..]) + Elements(spare)
  {
    var last := |spare| - 1;
    LiveGrows(stream, popped, spare[last]);
    ElementsAppend(spare[..last], spare[last]);
    assert spare == spare[..last] + [spare[last]];
  }

  lemma LiveShrinks<T>(stream: seq<Node<T>>, popped: nat)
    requires popped < |stream|
    ensures Elements(stream[popped..]) == Elements(stream[popped + 1..]) + {stream[popped]}
  {
    assert stream[popped..] == [stream[popped]] + stream[popped + 1..];
  }

  // -------------------------------------------------------------- the queue as a value

  datatype Queue<T> = Queue(items: seq<T>, spare: nat)

  function HostPush<T>(q: Queue<T>, v: T): Queue<T> { q.(items := q.items + [v]) }

  function DevicePush<T>(q: Queue<T>, v: T): (Queue<T>, bool) {
    if q.spare == 0 then (q, false) else (Queue(q.items + [v], q.spare - 1), true)
  }

  function Pop<T>(q: Queue<T>): (Queue<T>, Option<T>) {
    if q.items == [] then (q, None) else (Queue(q.items[1..], q.spare + 1), Some(q.items[0]))
  }

  /** A push on the host comes with the allocator's answer. */
  datatype Op<T> = PushHost(v: T, memory: bool) | PushDevice(v: T) | PopFront

  /** The queue with the history of a run: elements accepted, elements delivered, nodes the host allocated. */
  datatype History<T> = History(queue: Queue<T>, accepted: seq<T>, delivered: seq<T>, nodes: nat)

  function Exec<T>(h: History<T>, op: Op<T>): History<T> {
    match op
    case PushHost(v, memory) =>
      if memory then History(HostPush(h.queue, v), h.accepted + [v], h.delivered, h.nodes + 1) else h
    case PushDevice(v) =>
      var (q, ok) := DevicePush(h.queue, v);
      if ok then h.(queue := q, accepted := h.accepted + [v]) else h
    case PopFront =>
      var (q, r) := Pop(h.queue);
      if r.Some? then h.(queue := q, delivered := h.delivered + [r.value]) else h
  }

  function Run<T>(ops: seq<Op<T>>): History<T> {
    if ops == [] then History(Queue([], 0), [], [], 0) else Exec(Run(ops[..|ops| - 1]), ops[|ops| - 1])
  }

  /** What was accepted is what was delivered followed by what is queued, and each node is queued or recycled. */
  ghost predicate Fifo<T>(h: History<T>) {
    h.accepted == h.delivered + h.queue.items && |h.queue.items| + h.queue.spare == h.nodes
  }

  lemma FifoStep<T>(h: History<T>, op: Op<T>)
    requires Fifo(h)
    ensures Fifo(Exec(h, op))
  {
    var items := h.queue.items;
    if op.PopFront? {
      if items != [] { assert h.delivered + items == (h.delivered + [items[0]]) + items[1..]; }
    } else {
      assert (h.delivered + items) + [op.v] == h.delivered + (items + [op.v]);
    }
  }

  /**
    For every sequence of host pushes, device pushes and pops: elements come out in the order they
    went in, none is lost or duplicated, and every node is in the queue or on the recycled stack.
  */
  lemma {:induction false} FirstInFirstOut<T>(ops: seq<Op<T>>)
    ensures Fifo(Run(ops))
  {
    if ops != [] {
      FirstInFirstOut(ops[..|ops| - 1]);
      FifoStep(Run(ops[..|ops| - 1]), ops[|ops| - 1]);
    }
  }

  lemma RunStep<T>(ops: seq<Op<T>>, i: nat)
    requires i < |ops|
    ensures Run(ops[..i + 1]) == Exec(Run(ops[..i]), ops[i])
  {
    assert ops[..i + 1][..i] == ops[..i];
  }

  /** The linked list executes every sequence of operations as the queue does, on exactly the nodes the host allocated. */
  method Replay<T>(ops: seq<Op<T>>) returns (list: List<T>, delivered: seq<T>)
    ensures fresh(list) && list.Valid() && list.Model() == Run(ops).queue
    ensures delivered == Run(ops).delivered && |list.nodes| == Run(ops).nodes
  {
    list := new List<T>();
    delivered := [];
    ghost var h := Run<T>([]);
    for i := 0 to |ops|
      invariant fresh(list) && list.Valid() && fresh(list.nodes)
      invariant h == Run(ops[..i]) && list.Model() == h.queue && delivered == h.delivered && |list.nodes| == h.nodes
    {
      RunStep(ops, i);
      delivered := ReplayOne(list, ops[i], delivered, h);
      h := Exec(h, ops[i]);
    }
    assert ops[..|ops|] == ops;
  }

  method ReplayOne<T>(list: List<T>, op: Op<T>, before: seq<T>, ghost h: History<T>) returns (delivered: seq<T>)
    requires list.Valid() && list.Model() == h.queue && before == h.delivered && |list.nodes| == h.nodes
    modifies list, list.nodes
    ensures list.Valid() && list.Model() == Exec(h, op).queue && delivered == Exec(h, op).delivered && |list.nodes| == Exec(h, op).nodes
    ensures fresh(list.nodes - old(list.nodes))
  {
    delivered := before;
    list.PartsAreNodes();
    list.TailIsLive();
    match op
    case PushHost(v, memory) =>
      ghost var node;
      var ok;
      ok, node := list.HostPushBack(v, memory);
    case PushDevice(v) =>
      var ok := list.DevicePushBack(v);
    case PopFront =>
      var r := list.PopFront();
      if r.Some? { delivered := delivered + [r.value]; }
  }
}
