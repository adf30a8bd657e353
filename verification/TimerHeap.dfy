/** The timers of a loop: a heap ordered by deadline, and the heap node that each timer embeds. */
module TimerHeap {
  import opened HeapOrder
  import opened Heap

  datatype Slot = Slot(deadline: nat, id: nat)

  /** timers_compare. */
  predicate Sooner(a: Slot, b: Slot) { a.deadline < b.deadline }

  lemma SoonerIsStrictWeak()
    ensures StrictWeak(Sooner)
  {
  }

  /** The node of every timer in the heap is in the heap once, with the timer's own slot. */
  ghost predicate Indexed(s: seq<HeapNode<Slot>>, m: Mem<Slot>, nodes: map<nat, HeapNode<Slot>>) {
    && (forall n :: n in s ==> n in m.at && m.at[n].entry.id in nodes && nodes[m.at[n].entry.id] == n)
    && (forall id :: id in nodes ==> nodes[id] in s && nodes[id] in m.at && m.at[nodes[id]].entry.id == id)
  }

  ghost function Deadlines(m: Mem<Slot>, nodes: map<nat, HeapNode<Slot>>): map<nat, nat> {
    map id | id in nodes && nodes[id] in m.at :: m.at[nodes[id]].entry.deadline
  }

  class Timers {
    const heap: Heap<Slot>
    var nodes: map<nat, HeapNode<Slot>>
    /** The deadline of every timer in the heap, and the memory that is its own. */
    ghost var due: map<nat, nat>
    ghost var repr: set<object>

    constructor ()
      ensures Valid() && due == map[] && fresh(repr)
    {
      var h := new Heap(Sooner);
      heap := h;
      nodes, due := map[], map[];
      repr := {this, h};
    }

    ghost predicate Valid()
      reads this, repr
    {
      && this in repr && heap in repr && heap.mem.at.Keys <= repr
      && heap.Valid() && heap.compare == Sooner && Indexed(heap.s, heap.mem, nodes)
      && due == Deadlines(heap.mem, nodes)
    }

    method Add(id: nat, deadline: nat)
      requires Valid() && id !in due
      modifies repr
      ensures Valid() && due == old(due)[id := deadline] && fresh(repr - old(repr))
    {
      var node := new HeapNode(Slot(deadline, id));
      repr := repr + {node};
      Enqueue(node);
    }

    /** heap_insert of a node outside the heap. */
    method Enqueue(node: HeapNode<Slot>)
      requires Valid() && node.entry.id !in due && node.left == null && node.right == null && node !in heap.s && node in repr
      modifies repr
      ensures Valid() && due == old(due)[old(node.entry.id) := old(node.entry.deadline)] && repr == old(repr)
    {
      hide StrictWeak, Ordered, Wired, WiredAt, Kept, HeapOrder.Ok;
      SoonerIsStrictWeak();
      ghost var s0, m0, n0 := heap.s, heap.mem, nodes;
      heap.Insert(node);
      nodes := nodes[node.entry.id := node];
      IndexedMore(s0, m0, n0, heap.s, heap.mem, node);
      due := Deadlines(heap.mem, nodes);
    }

    /** heap_remove of a timer. */
    method Del(id: nat)
      requires Valid() && id in due
      modifies repr
      ensures Valid() && due == old(due) - {id} && repr == old(repr)
    {
      hide StrictWeak, Ordered, Wired, WiredAt, Kept, HeapOrder.Ok;
      SoonerIsStrictWeak();
      ghost var s0, m0 := heap.s, heap.mem;
      ghost var k :| 0 <= k < |heap.s| && heap.s[k] == nodes[id];
      heap.Remove(nodes[id], k);
      Forget(id, s0, m0);
    }

    /** The bookkeeping for a node that just left the heap, which held `s0` in `m0`. */
    method Forget(id: nat, ghost s0: seq<HeapNode<Slot>>, ghost m0: Mem<Slot>)
      requires this in repr && heap in repr && heap.mem.at.Keys <= repr && heap.Valid() && heap.compare == Sooner
      requires Indexed(s0, m0, nodes) && due == Deadlines(m0, nodes) && id in nodes && nodes[id] !in heap.s
      requires multiset(heap.s) == multiset(s0) - multiset{nodes[id]} && Kept(m0, heap.mem)
      modifies `nodes, `due
      ensures Valid() && due == old(due) - {id}
    {
      hide Heap.Valid, Kept;
      ghost var n0 := nodes;
      nodes := nodes - {id};
      IndexedLess(s0, m0, n0, heap.s, heap.mem, id);
      hide Indexed, Deadlines;
      due := Deadlines(heap.mem, nodes);
    }

    /** The timer at the root: one with the least deadline. */
    method First() returns (node: HeapNode?<Slot>)
      requires Valid()
      ensures node == heap.root && (node == null <==> due == map[])
      ensures node != null ==> node in repr && node.entry.id in due && due[node.entry.id] == node.entry.deadline
      ensures node != null ==> forall id :: id in due ==> node.entry.deadline <= due[id]
    {
      node := heap.root;
      if node != null {
        SoonerIsStrictWeak();
        FirstIsLeast(heap.s, heap.mem, nodes);
      }
    }

    /** heap_dequeue: takes out the timer at the root. */
    method Dequeue(node: HeapNode<Slot>)
      requires Valid() && node == heap.root
      modifies repr
      ensures Valid() && due == old(due) - {old(node.entry.id)} && repr == old(repr)
      ensures node.entry == old(node.entry) && node.left == null && node.right == null && node !in heap.s && node in heap.mem.at
    {
      hide StrictWeak, Ordered, WiredAt, Kept, HeapOrder.Ok, Members, Keys;
      SoonerIsStrictWeak();
      ghost var s0, m0 := heap.s, heap.mem;
      assert s0[0] in s0 && node == s0[0];
      heap.Dequeue();
      Forget(node.entry.id, s0, m0);
    }

    /** A timer outside the heap gets another deadline. */
    method Retime(node: HeapNode<Slot>, deadline: nat)
      requires Valid() && node in heap.mem.at && node !in heap.s && node.entry.id !in due
      modifies heap, node`entry
      ensures Valid() && heap.s == old(heap.s)
      ensures node.entry == Slot(deadline, old(node.entry.id))
    {
      IndexedSame(heap.s, heap.mem, nodes, node, Slot(deadline, node.entry.id));
      heap.PutEntry(node, Slot(deadline, node.entry.id));
    }

    /** heap_dequeue, then heap_insert of the same node with another deadline. */
    method Requeue(node: HeapNode<Slot>, deadline: nat)
      requires Valid() && node == heap.root
      modifies repr
      ensures Valid() && due == old(due)[old(node.entry.id) := deadline] && repr == old(repr)
    {
      ghost var id, c := node.entry.id, due;
      Dequeue(node);
      Retime(node, deadline);
      Enqueue(node);
      Readded(c, id, deadline);
    }
  }

  lemma FirstIsLeast(s: seq<HeapNode<Slot>>, m: Mem<Slot>, nodes: map<nat, HeapNode<Slot>>)
    requires Members(s, m) && Ordered(Keys(s, m), Sooner) && Indexed(s, m, nodes) && |s| > 0 && StrictWeak(Sooner)
    ensures forall id :: id in nodes ==> m.at[s[0]].entry.deadline <= m.at[nodes[id]].entry.deadline
  {
    forall id | id in nodes ensures m.at[s[0]].entry.deadline <= m.at[nodes[id]].entry.deadline {
      var i :| 0 <= i < |s| && s[i] == nodes[id];
      RootIsMin(Keys(s, m), Sooner, i);
      assert Keys(s, m)[i] == m.at[s[i]].entry && Keys(s, m)[0] == m.at[s[0]].entry;
    }
  }

  lemma Readded(c: map<nat, nat>, id: nat, d: nat)
    ensures (c - {id})[id := d] == c[id := d]
  {
  }

  lemma IndexedSame(s: seq<HeapNode<Slot>>, m: Mem<Slot>, nodes: map<nat, HeapNode<Slot>>, node: HeapNode<Slot>, e: Slot)
    requires Indexed(s, m, nodes) && node in m.at && node !in s
    ensures var m2 := m.(at := m.at[node := m.at[node].(entry := e)]);
            Indexed(s, m2, nodes) && Deadlines(m2, nodes) == Deadlines(m, nodes)
  {
  }

  lemma IndexedMore(s: seq<HeapNode<Slot>>, m: Mem<Slot>, nodes: map<nat, HeapNode<Slot>>,
                    s2: seq<HeapNode<Slot>>, m2: Mem<Slot>, node: HeapNode<Slot>)
    requires Indexed(s, m, nodes) && node in m2.at && m2.at[node].entry.id !in nodes && node !in s
    requires multiset(s2) == multiset(s) + multiset{node} && Kept(m, m2)
    ensures Indexed(s2, m2, nodes[m2.at[node].entry.id := node])
    ensures Deadlines(m2, nodes[m2.at[node].entry.id := node])
         == Deadlines(m, nodes)[m2.at[node].entry.id := m2.at[node].entry.deadline]
  {
    var id := m2.at[node].entry.id;
    var nodes2 := nodes[id := node];
    forall n ensures n in s2 <==> n in s || n == node {
      assert n in s2 <==> n in multiset(s2);
      assert n in s <==> n in multiset(s);
    }
  }

  lemma IndexedLess(s: seq<HeapNode<Slot>>, m: Mem<Slot>, nodes: map<nat, HeapNode<Slot>>,
                    s2: seq<HeapNode<Slot>>, m2: Mem<Slot>, id: nat)
    requires Indexed(s, m, nodes) && id in nodes && nodes[id] !in s2
    requires multiset(s2) == multiset(s) - multiset{nodes[id]} && Kept(m, m2)
    ensures Indexed(s2, m2, nodes - {id})
    ensures Deadlines(m2, nodes - {id}) == Deadlines(m, nodes) - {id}
  {
    forall n ensures n in s2 <==> n in s && n != nodes[id] {
      assert n in s2 <==> n in multiset(s2);
      assert n in s <==> n in multiset(s);
    }
  }
}
