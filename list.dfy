/**
  The generic list itself: a singly linked chain of nodes, each owning a
  private copy of a caller's bytes. The handle is the head pointer, NULL
  for the empty list; all positions are 1-based.

  The ghost field Nodes is the chain in order and Contents the payloads it
  holds; Valid ties both to the real head and next pointers. Every method
  is stated against the functions of ListSpec.
 */
module GenericList {
  import opened Buffers
  import opened ByteCompare
  import opened ListSpec

  /** A node: its own byte buffer (data, whose Length is data_size) and the next node. */
  class Node {
    const data: array<bv8>
    var next: Node?

    constructor (data: array<bv8>, next: Node?)
      ensures this.data == data && this.next == next
    {
      this.data := data;
      this.next := next;
    }
  }

  /** memcpy into a freshly allocated buffer. */
  method CopyOf(src: Buffer) returns (a: array<bv8>)
    ensures fresh(a) && a[..] == src
  {
    a := new bv8[|src|](i requires 0 <= i < |src| => src[i]);
  }

  /** The comparator an operation uses: the caller's, or default_compare when it passes NULL. */
  function CompareOrDefault(compare: Option<Comparator>): (cmp: Comparator)
    ensures compare.Some? ==> cmp == compare.value
    ensures compare.None? ==> forall a, b :: cmp(a, b) == DefaultCompare(Some(a), Some(b))
  {
    if compare.Some? then compare.value else DefaultComparator()
  }

  /** The list handle: the head of the chain, NULL when empty. */
  class List {
    var head: Node?

    ghost var Nodes: seq<Node>
    ghost var Contents: seq<Buffer>
    ghost var Repr: set<object>

    ghost predicate Valid()
      reads this, Repr
      ensures Valid() ==> this in Repr
    {
      && this in Repr
      && |Nodes| == |Contents|
      && (forall i {:trigger Nodes[i]} :: 0 <= i < |Nodes| ==>
            Nodes[i] in Repr && Nodes[i].data in Repr && Nodes[i].data[..] == Contents[i])
      && head == (if Nodes == [] then null else Nodes[0])
      && (forall i :: 0 <= i < |Nodes| - 1 ==> Nodes[i].next == Nodes[i + 1])
      && (Nodes != [] ==> Nodes[|Nodes| - 1].next == null)
      && (forall i, j :: 0 <= i < j < |Nodes| ==>
            Nodes[i] != Nodes[j] && Nodes[i].data != Nodes[j].data)
    }

    /** `List l = empty_list;` */
    constructor ()
      ensures Valid() && fresh(Repr)
      ensures Contents == [] && Nodes == []
    {
      head := null;
      Nodes, Contents := [], [];
      Repr := {this};
    }

    /**
      The chain is valid again after a fresh node was linked in at
      0-based position p, where nothing else in the old chain changed.
     */
    twostate lemma SplicedValid(p: nat, new node: Node)
      requires old(Valid()) && p <= old(|Nodes|)
      requires fresh(node) && fresh(node.data)
      requires Nodes == old(Nodes)[..p] + [node] + old(Nodes)[p..]
      requires Contents == old(Contents)[..p] + [node.data[..]] + old(Contents)[p..]
      requires Repr == old(Repr) + {node, node.data}
      requires head == (if p == 0 then node else old(head))
      requires p > 0 ==> old(Nodes)[p - 1].next == node
      requires node.next == (if p < old(|Nodes|) then old(Nodes)[p] else null)
      requires forall i :: 0 <= i < old(|Nodes|) && i != p - 1 ==> old(Nodes)[i].next == old(Nodes[i].next)
      requires forall i :: 0 <= i < old(|Nodes|) ==> old(Nodes)[i].data[..] == old(Nodes[i].data[..])
      ensures Valid()
    {
      ghost var nodes0 := old(Nodes);
      assert |Nodes| == |nodes0| + 1;
      assert forall i :: 0 <= i < p ==> Nodes[i] == nodes0[i];
      assert Nodes[p] == node;
      assert forall i :: p < i < |Nodes| ==> Nodes[i] == nodes0[i - 1];
      forall i, j | 0 <= i < j < |Nodes|
        ensures Nodes[i] != Nodes[j] && Nodes[i].data != Nodes[j].data
      {
        if i != p && j != p {
          var i0 := if i < p then i else i - 1;
          var j0 := if j < p then j else j - 1;
          assert Nodes[i] == nodes0[i0] && Nodes[j] == nodes0[j0];
        }
      }
    }

    /**
      The chain is valid again after the node at 0-based position p was
      unlinked and given up together with its buffer, where nothing else in
      the old chain changed.
     */
    twostate lemma UnlinkedValid(p: nat)
      requires old(Valid()) && p < old(|Nodes|)
      requires Nodes == old(Nodes)[..p] + old(Nodes)[p + 1..]
      requires Contents == old(Contents)[..p] + old(Contents)[p + 1..]
      requires Repr == old(Repr) - {old(Nodes)[p], old(Nodes)[p].data}
      requires head == (if p == 0 then old(Nodes[0].next) else old(head))
      requires p > 0 ==> old(Nodes)[p - 1].next == old(Nodes[p].next)
      requires forall i :: 0 <= i < old(|Nodes|) && i != p - 1 ==> old(Nodes)[i].next == old(Nodes[i].next)
      requires forall i :: 0 <= i < old(|Nodes|) ==> old(Nodes)[i].data[..] == old(Nodes[i].data[..])
      ensures Valid()
    {
      ghost var nodes0 := old(Nodes);
      assert |Nodes| == |nodes0| - 1;
      assert forall i :: 0 <= i < p ==> Nodes[i] == nodes0[i];
      assert forall i :: p <= i < |Nodes| ==> Nodes[i] == nodes0[i + 1];
      forall i | 0 <= i < |Nodes|
        ensures Nodes[i] in Repr && Nodes[i].data in Repr
      {
        var i0 := if i < p then i else i + 1;
        assert Nodes[i] == nodes0[i0] && i0 != p;
      }
      forall i, j | 0 <= i < j < |Nodes|
        ensures Nodes[i] != Nodes[j] && Nodes[i].data != Nodes[j].data
      {
        var i0 := if i < p then i else i + 1;
        var j0 := if j < p then j else j + 1;
        assert Nodes[i] == nodes0[i0] && Nodes[j] == nodes0[j0];
      }
    }

    /** The splice for position 1: a fresh node holding a copy of x becomes the head. */
    method LinkFront(x: Buffer) returns (buffer: array<bv8>, node: Node)
      requires Valid()
      modifies this
      ensures Valid() && fresh(Repr - old(Repr))
      ensures Contents == Insert(old(Contents), 1, x)
      ensures Nodes == [node] + old(Nodes) && node.data == buffer && fresh(buffer)
      ensures Repr == old(Repr) + {node, buffer}
    {
      buffer := CopyOf(x);
      node := new Node(buffer, head);
      head := node;
      Nodes := [node] + Nodes;
      Contents := [x] + Contents;
      Repr := Repr + {node, buffer};
      assert Nodes == old(Nodes)[..0] + [node] + old(Nodes)[0..];
      assert Contents == old(Contents)[..0] + [x] + old(Contents)[0..];
      SplicedValid(0, node);
    }

    /** The splice after node number k + 1: a fresh node holding a copy of x follows prev. */
    method LinkAfter(prev: Node, ghost k: nat, x: Buffer) returns (buffer: array<bv8>, node: Node)
      requires Valid() && k < |Nodes| && prev == Nodes[k]
      modifies this, prev
      ensures Valid() && fresh(Repr - old(Repr))
      ensures Contents == Insert(old(Contents), k + 2, x)
      ensures Nodes == old(Nodes)[..k + 1] + [node] + old(Nodes)[k + 1..]
      ensures node.data == buffer && fresh(buffer) && Repr == old(Repr) + {node, buffer}
    {
      buffer := CopyOf(x);
      node := new Node(buffer, prev.next);
      prev.next := node;
      Nodes := Nodes[..k + 1] + [node] + Nodes[k + 1..];
      Contents := Contents[..k + 1] + [x] + Contents[k + 1..];
      Repr := Repr + {node, buffer};
      assert forall i :: 0 <= i < old(|Nodes|) && i != k ==> old(Nodes)[i] != prev;
      SplicedValid(k + 1, node);
    }

    /** Unlinks the first node; its buffer is handed to the caller. */
    method UnlinkFront() returns (buffer: array<bv8>)
      requires Valid() && Nodes != []
      modifies this
      ensures Valid()
      ensures Contents == RemoveAt(old(Contents), 1) && Nodes == RemoveAt(old(Nodes), 1)
      ensures buffer == old(Nodes)[0].data && Repr == old(Repr) - {old(Nodes)[0], buffer}
    {
      var node := head;
      head := node.next;
      buffer := node.data;
      Nodes := Nodes[1..];
      Contents := Contents[1..];
      Repr := Repr - {node, buffer};
      assert Nodes == old(Nodes)[..0] + old(Nodes)[1..];
      assert Contents == old(Contents)[..0] + old(Contents)[1..];
      UnlinkedValid(0);
    }

    /** Unlinks the node after prev, node number k + 1; its buffer is handed to the caller. */
    method UnlinkAfter(prev: Node, ghost k: nat) returns (buffer: array<bv8>)
      requires Valid() && k + 1 < |Nodes| && prev == Nodes[k]
      modifies this, prev
      ensures Valid()
      ensures Contents == RemoveAt(old(Contents), k + 2) && Nodes == RemoveAt(old(Nodes), k + 2)
      ensures buffer == old(Nodes)[k + 1].data && Repr == old(Repr) - {old(Nodes)[k + 1], buffer}
    {
      var node := prev.next;
      assert node == Nodes[k + 1];
      prev.next := node.next;
      buffer := node.data;
      Nodes := Nodes[..k + 1] + Nodes[k + 2..];
      Contents := Contents[..k + 1] + Contents[k + 2..];
      Repr := Repr - {node, buffer};
      assert forall i :: 0 <= i < old(|Nodes|) && i != k ==> old(Nodes)[i] != prev;
      UnlinkedValid(k + 1);
    }

    /**
      list_insert_index: splices a fresh node holding a copy of data in so
      that it becomes element number index, and returns the node's own
      buffer. Fails (null, nothing changed) when index <= 0, data is NULL or
      index > length + 1.
     */
    method InsertIndex(data: Option<Buffer>, index: int) returns (r: array?<bv8>)
      requires Valid()
      modifies Repr
      ensures Valid() && fresh(Repr - old(Repr))
      ensures r != null <==> data.Some? && 1 <= index <= |old(Contents)| + 1
      ensures r != null ==>
                && Contents == Insert(old(Contents), index, data.value)
                && Nodes == Insert(old(Nodes), index, Nodes[index - 1])
                && Nodes[index - 1].data == r && fresh(r)
                && Repr == old(Repr) + {Nodes[index - 1], r}
      ensures r == null ==> Contents == old(Contents) && Nodes == old(Nodes) && Repr == old(Repr)
    {
      if index <= 0 { return null; }
      if data.None? { return null; }
      if head == null && index != 1 { return null; }

      if index == 1 {
        // position 1: the new node becomes the head
        var node;
        r, node := LinkFront(data.value);
      } else {
        var current := head;
        var i := index;
        ghost var k := 0;
        // walk to node number index - 1, or to the last node if the chain is shorter
        while i > 2 && current.next != null
          invariant 0 <= k < |Nodes| && current == Nodes[k]
          invariant k + 1 < |Nodes| ==> current.next == Nodes[k + 1]
          invariant i == index - k && i >= 2
          decreases i
        {
          current := current.next;
          i := i - 1;
          k := k + 1;
        }
        if i == 2 {
          // current is node number index - 1: link the new node after it
          var node;
          r, node := LinkAfter(current, k, data.value);
        } else {
          // index exceeds length + 1
          return null;
        }
      }
    }

    /** list_push_front: insert at position 1. */
    method PushFront(data: Option<Buffer>) returns (r: array?<bv8>)
      requires Valid()
      modifies Repr
      ensures Valid() && fresh(Repr - old(Repr))
      ensures r != null <==> data.Some?
      ensures r != null ==>
                && Contents == [data.value] + old(Contents) && Nodes == [Nodes[0]] + old(Nodes)
                && Nodes[0].data == r && fresh(r) && Repr == old(Repr) + {Nodes[0], r}
      ensures r == null ==> Contents == old(Contents) && Nodes == old(Nodes) && Repr == old(Repr)
    {
      r := InsertIndex(data, 1);
    }

    /** list_length: counts the nodes; 0 for the empty list. */
    method Length() returns (n: int)
      requires Valid()
      ensures n == |Contents|
    {
      if head == null { assert Nodes == []; return 0; }
      var cursor := head;
      n := 1;
      while cursor.next != null
        invariant 1 <= n <= |Nodes| && cursor == Nodes[n - 1]
        invariant n < |Nodes| ==> cursor.next == Nodes[n]
        decreases |Nodes| - n
      {
        cursor := cursor.next;
        n := n + 1;
      }
    }

    /** list_push_back: insert at position length + 1. */
    method PushBack(data: Option<Buffer>) returns (r: array?<bv8>)
      requires Valid()
      modifies Repr
      ensures Valid() && fresh(Repr - old(Repr))
      ensures r != null <==> data.Some?
      ensures r != null ==>
                && Contents == old(Contents) + [data.value] && Nodes == old(Nodes) + [Nodes[|Nodes| - 1]]
                && Nodes[|Nodes| - 1].data == r && fresh(r) && Repr == old(Repr) + {Nodes[|Nodes| - 1], r}
      ensures r == null ==> Contents == old(Contents) && Nodes == old(Nodes) && Repr == old(Repr)
    {
      var n := Length();
      r := InsertIndex(data, n + 1);
    }

    /** list_append: the same as list_push_back. */
    method Append(data: Option<Buffer>) returns (r: array?<bv8>)
      requires Valid()
      modifies Repr
      ensures Valid() && fresh(Repr - old(Repr))
      ensures r != null <==> data.Some?
      ensures r != null ==>
                && Contents == old(Contents) + [data.value] && Nodes == old(Nodes) + [Nodes[|Nodes| - 1]]
                && Nodes[|Nodes| - 1].data == r && fresh(r) && Repr == old(Repr) + {Nodes[|Nodes| - 1], r}
      ensures r == null ==> Contents == old(Contents) && Nodes == old(Nodes) && Repr == old(Repr)
    {
      r := PushBack(data);
    }

    /**
      list_push_ordered once the comparator is known: inserts a copy of data
      just before the first element e with cmp(data, e) <= 0, or at the end
      when there is none. Equal elements therefore end up after the new one.
     */
    method PushOrderedBy(data: Option<Buffer>, cmp: Comparator) returns (r: array?<bv8>)
      requires Valid()
      modifies Repr
      ensures Valid() && fresh(Repr - old(Repr))
      ensures r != null <==> data.Some?
      ensures r != null ==>
                var index := OrderedIndex(old(Contents), data.value, cmp);
                && Contents == Insert(old(Contents), index, data.value)
                && Nodes == Insert(old(Nodes), index, Nodes[index - 1])
                && Nodes[index - 1].data == r && fresh(r) && Repr == old(Repr) + {Nodes[index - 1], r}
      ensures r == null ==> Contents == old(Contents) && Nodes == old(Nodes) && Repr == old(Repr)
    {
      if head == null {
        // the list is empty: create its first element
        assert Nodes == [] && Contents == [];
        r := PushFront(data);
        return;
      }
      // With NULL data the insertion below fails whatever index the scan finds.
      if data.None? { return null; }
      var index := OrderedPosition(data.value, cmp);
      r := InsertIndex(data, index);
    }

    /**
      The scan of list_push_ordered: the 1-based position of the first element
      e with cmp(x, e) <= 0, or length + 1 when there is none.
     */
    method OrderedPosition(x: Buffer, cmp: Comparator) returns (index: int)
      requires Valid()
      ensures index == OrderedIndex(Contents, x, cmp)
    {
      index := 1;
      var cursor := head;
      while cursor != null && cmp(x, cursor.data[..]) > 0
        invariant 1 <= index <= |Nodes| + 1
        invariant cursor == (if index <= |Nodes| then Nodes[index - 1] else null)
        invariant forall i :: 0 <= i < index - 1 ==> cmp(x, Contents[i]) > 0
        decreases |Nodes| + 1 - index
      {
        index := index + 1;
        cursor := cursor.next;
      }
    }

    /** list_push_ordered: a NULL compare means default_compare. */
    method PushOrdered(data: Option<Buffer>, compare: Option<Comparator>) returns (r: array?<bv8>)
      requires Valid()
      modifies Repr
      ensures Valid() && fresh(Repr - old(Repr))
      ensures r != null <==> data.Some?
      ensures r != null ==>
                var index := OrderedIndex(old(Contents), data.value, CompareOrDefault(compare));
                && Contents == Insert(old(Contents), index, data.value)
                && Nodes == Insert(old(Nodes), index, Nodes[index - 1])
                && Nodes[index - 1].data == r && fresh(r) && Repr == old(Repr) + {Nodes[index - 1], r}
      ensures r == null ==> Contents == old(Contents) && Nodes == old(Nodes) && Repr == old(Repr)
    {
      r := PushOrderedBy(data, CompareOrDefault(compare));
    }

    /**
      list_get_value_index: a fresh copy of element number index (its Length
      is the size written back), or null when index <= 0 or index > length.
     */
    method GetValueIndex(index: int) returns (r: array?<bv8>)
      requires Valid()
      requires index <= 0 || head != null
      ensures r != null <==> 1 <= index <= |Contents|
      ensures r != null ==> r[..] == Contents[index - 1] && fresh(r)
    {
      // list.c repeats the walk of list_get_pointer_index here; the copy is the only difference
      var p := GetPointerIndex(index);
      if p == null { return null; }
      r := CopyOf(p[..]);
    }

    /**
      list_get_pointer_index: the node's own buffer for element number index
      (no copy), or null when index <= 0 or index > length.
     */
    method GetPointerIndex(index: int) returns (r: array?<bv8>)
      requires Valid()
      requires index <= 0 || head != null
      ensures r != null <==> 1 <= index <= |Contents|
      ensures r != null ==> r == Nodes[index - 1].data && r in Repr && r[..] == Contents[index - 1]
    {
      if index <= 0 { return null; }
      var list := head;
      var i := index;
      ghost var k := 0;
      while i > 1 && list.next != null
        invariant 0 <= k < |Nodes| && list == Nodes[k]
        invariant k + 1 < |Nodes| ==> list.next == Nodes[k + 1]
        invariant i == index - k && i >= 1
        decreases i
      {
        list := list.next;
        i := i - 1;
        k := k + 1;
      }
      if i != 1 { return null; } // index exceeds the length
      r := list.data;
    }

    /**
      list_remove_index_get_pointer: unlinks element number index and hands
      its buffer (whose Length is the size written back) over to the caller.
      Fails (null, nothing changed) on the empty list, when index <= 0 or
      when index > length.
     */
    method RemoveIndexGetPointer(index: int) returns (r: array?<bv8>)
      requires Valid()
      modifies Repr
      ensures Valid() && Repr <= old(Repr)
      ensures r != null <==> 1 <= index <= |old(Contents)|
      ensures r != null ==>
                && Contents == RemoveAt(old(Contents), index) && Nodes == RemoveAt(old(Nodes), index)
                && r == old(Nodes)[index - 1].data && r[..] == old(Contents)[index - 1]
                && Repr == old(Repr) - {old(Nodes)[index - 1], r}
      ensures r == null ==> Contents == old(Contents) && Nodes == old(Nodes) && Repr == old(Repr)
    {
      if head == null { return null; }
      if index <= 0 { return null; }
      var current := head;
      var previous: Node? := null;
      var i := index;
      ghost var k := 0;
      while i > 1 && current.next != null
        invariant 0 <= k < |Nodes| && current == Nodes[k]
        invariant k + 1 < |Nodes| ==> current.next == Nodes[k + 1]
        invariant previous == (if k == 0 then null else Nodes[k - 1])
        invariant i == index - k && i >= 1
        decreases i
      {
        previous := current;
        current := current.next;
        i := i - 1;
        k := k + 1;
      }
      if i != 1 { return null; } // index exceeds the length
      if previous != null {
        // bypass current from its predecessor
        r := UnlinkAfter(previous, k - 1);
      } else {
        // current is the head: the handle moves on to its successor
        r := UnlinkFront();
      }
    }

    /** list_pop_front: removes element number 1 and hands its buffer over. */
    method PopFront() returns (r: array?<bv8>)
      requires Valid()
      modifies Repr
      ensures Valid() && Repr <= old(Repr)
      ensures r != null <==> old(Contents) != []
      ensures r != null ==>
                && Contents == old(Contents)[1..] && Nodes == old(Nodes)[1..]
                && r == old(Nodes)[0].data && r[..] == old(Contents)[0]
                && Repr == old(Repr) - {old(Nodes)[0], r}
      ensures r == null ==> Contents == old(Contents) && Nodes == old(Nodes) && Repr == old(Repr)
    {
      r := RemoveIndexGetPointer(1);
    }

    /** list_pop_back: removes element number length and hands its buffer over. */
    method PopBack() returns (r: array?<bv8>)
      requires Valid()
      modifies Repr
      ensures Valid() && Repr <= old(Repr)
      ensures r != null <==> old(Contents) != []
      ensures r != null ==>
                && Contents == old(Contents)[..|old(Contents)| - 1]
                && Nodes == old(Nodes)[..|old(Nodes)| - 1]
                && r == old(Nodes)[|old(Nodes)| - 1].data && r[..] == old(Contents)[|old(Contents)| - 1]
                && Repr == old(Repr) - {old(Nodes)[|old(Nodes)| - 1], r}
      ensures r == null ==> Contents == old(Contents) && Nodes == old(Nodes) && Repr == old(Repr)
    {
      var n := Length();
      r := RemoveIndexGetPointer(n);
    }

    /** list_remove_index: removes element number index and frees its buffer; no effect when there is none. */
    method RemoveIndex(index: int)
      requires Valid()
      modifies Repr
      ensures Valid() && Repr <= old(Repr)
      ensures 1 <= index <= |old(Contents)| ==>
                && Contents == RemoveAt(old(Contents), index) && Nodes == RemoveAt(old(Nodes), index)
                && Repr == old(Repr) - {old(Nodes)[index - 1], old(Nodes)[index - 1].data}
      ensures !(1 <= index <= |old(Contents)|) ==>
                Contents == old(Contents) && Nodes == old(Nodes) && Repr == old(Repr)
    {
      var temp := RemoveIndexGetPointer(index);
      // the buffer is freed here
    }

    /** list_remove_first: removes element number 1, if any. */
    method RemoveFirst()
      requires Valid()
      modifies Repr
      ensures Valid() && Repr <= old(Repr)
      ensures Contents == if old(Contents) == [] then [] else old(Contents)[1..]
      ensures Nodes == if old(Nodes) == [] then [] else old(Nodes)[1..]
      ensures Repr == if old(Nodes) == [] then old(Repr) else old(Repr) - {old(Nodes)[0], old(Nodes)[0].data}
    {
      RemoveIndex(1);
    }

    /** list_remove_last: removes element number length, if any. */
    method RemoveLast()
      requires Valid()
      modifies Repr
      ensures Valid() && Repr <= old(Repr)
      ensures Contents == if old(Contents) == [] then [] else old(Contents)[..|old(Contents)| - 1]
      ensures Nodes == if old(Nodes) == [] then [] else old(Nodes)[..|old(Nodes)| - 1]
      ensures Repr == if old(Nodes) == [] then old(Repr)
                      else old(Repr) - {old(Nodes)[|old(Nodes)| - 1], old(Nodes)[|old(Nodes)| - 1].data}
    {
      var n := Length();
      RemoveIndex(n);
    }

    /** list_find once the comparator is known: the position of the first element e with cmp(target, e) == 0, or -1. */
    method FindBy(target: Buffer, cmp: Comparator) returns (index: int)
      requires Valid()
      ensures index == FirstMatch(Contents, target, cmp)
    {
      index := 1;
      var cursor := head;
      while cursor != null
        invariant 1 <= index <= |Nodes| + 1
        invariant cursor == (if index <= |Nodes| then Nodes[index - 1] else null)
        invariant forall i :: 0 <= i < index - 1 ==> cmp(target, Contents[i]) != 0
        decreases |Nodes| + 1 - index
      {
        if cmp(target, cursor.data[..]) == 0 { return index; }
        cursor := cursor.next;
        index := index + 1;
      }
      return -1;
    }

    /** list_find: -1 for NULL data; a NULL compare means default_compare. */
    method Find(target: Option<Buffer>, compare: Option<Comparator>) returns (index: int)
      requires Valid()
      ensures index == if target.None? then -1 else FirstMatch(Contents, target.value, CompareOrDefault(compare))
    {
      if target.None? { return -1; }
      index := FindBy(target.value, CompareOrDefault(compare));
    }

    /** list_remove_data: removes the first element that compares equal to the target; true when one was removed. */
    method RemoveData(target: Option<Buffer>, compare: Option<Comparator>) returns (removed: bool)
      requires Valid()
      modifies Repr
      ensures Valid() && Repr <= old(Repr)
      ensures var m := if target.None? then -1 else FirstMatch(old(Contents), target.value, CompareOrDefault(compare));
              && (removed <==> m != -1)
              && Contents == (if removed then RemoveAt(old(Contents), m) else old(Contents))
              && Nodes == (if removed then RemoveAt(old(Nodes), m) else old(Nodes))
              && Repr == (if removed then old(Repr) - {old(Nodes)[m - 1], old(Nodes)[m - 1].data} else old(Repr))
    {
      var index := Find(target, compare);
      if index <= 0 {
        return false;
      } else {
        RemoveIndex(index);
        return true;
      }
    }

    /**
      The removal step of list_remove_if: unlinks element number index, whose
      payload the predicate holds of. What the filter keeps is unaffected.
     */
    method RemoveMatch(index: int, isToRemove: Buffer -> bool)
      requires Valid() && 1 <= index <= |Contents| && isToRemove(Contents[index - 1])
      modifies Repr
      ensures Valid() && Repr <= old(Repr)
      ensures Contents == RemoveAt(old(Contents), index) && Nodes == RemoveAt(old(Nodes), index)
      ensures Without(Contents, isToRemove) == Without(old(Contents), isToRemove)
      ensures Survivors(Nodes, Contents, isToRemove) == Survivors(old(Nodes), old(Contents), isToRemove)
    {
      ghost var before, nodesBefore := Contents, Nodes;
      RemoveIndex(index);
      WithoutRemoveAt(before, index, isToRemove);
      SurvivorsRemoveAt(nodesBefore, before, index, isToRemove);
    }

    /**
      list_remove_if: removes every element the predicate holds of, keeping
      the order of the rest; true when at least one was removed.
     */
    method RemoveIf(isToRemove: Buffer -> bool) returns (result: bool)
      requires Valid()
      modifies Repr
      ensures Valid() && Repr <= old(Repr)
      ensures Contents == Without(old(Contents), isToRemove)
      ensures Nodes == Survivors(old(Nodes), old(Contents), isToRemove)
      ensures result <==> exists i :: 0 <= i < |old(Contents)| && isToRemove(old(Contents)[i])
    {
      if head == null { return false; }
      ghost var s0, n0 := Contents, Nodes;
      result := false;
      var current := head;
      var indexToRemove := 1;
      while current != null
        invariant Valid() && Repr <= old(Repr)
        invariant 1 <= indexToRemove <= |Nodes| + 1
        invariant current == (if indexToRemove <= |Nodes| then Nodes[indexToRemove - 1] else null)
        invariant Without(Contents, isToRemove) == Without(s0, isToRemove)
        invariant Survivors(Nodes, Contents, isToRemove) == Survivors(n0, s0, isToRemove)
        invariant forall i :: 0 <= i < indexToRemove - 1 ==> !isToRemove(Contents[i])
        invariant |Nodes| <= |n0| && (result <==> |Nodes| < |n0|)
        decreases |Nodes| - indexToRemove
      {
        var next := current.next;
        if isToRemove(current.data[..]) {
          RemoveMatch(indexToRemove, isToRemove);
          result := true;
        } else {
          indexToRemove := indexToRemove + 1;
        }
        current := next;
      }
      FilterFinished(Nodes, Contents, n0, s0, isToRemove);
    }

    /**
      list_for_each: applies the action to every payload from the head on;
      the model returns what each application gives, in order. A NULL
      action does nothing.
     */
    method ForEach<R>(action: Option<Buffer -> R>) returns (results: seq<R>)
      requires Valid()
      ensures action.None? ==> results == []
      ensures action.Some? ==>
                && |results| == |Contents|
                && forall i :: 0 <= i < |Contents| ==> results[i] == action.value(Contents[i])
    {
      results := [];
      if action.None? { return; }
      var cursor := head;
      ghost var k := 0;
      while cursor != null
        invariant 0 <= k <= |Nodes| && |results| == k
        invariant cursor == (if k < |Nodes| then Nodes[k] else null)
        invariant forall i :: 0 <= i < k ==> results[i] == action.value(Contents[i])
        decreases |Nodes| - k
      {
        results := results + [action.value(cursor.data[..])];
        cursor := cursor.next;
        k := k + 1;
      }
    }

    /** list_get_pointer_data: the own buffer of the first element that compares equal to the target, or null. */
    method GetPointerData(target: Option<Buffer>, compare: Option<Comparator>) returns (r: array?<bv8>)
      requires Valid()
      ensures var m := if target.None? then -1 else FirstMatch(Contents, target.value, CompareOrDefault(compare));
              && (r != null <==> m != -1)
              && (r != null ==> r == Nodes[m - 1].data && r[..] == Contents[m - 1])
    {
      if target.None? { return null; }
      var index := Find(target, compare);
      if index >= 1 {
        r := GetPointerIndex(index);
      } else {
        r := null;
      }
    }

    /** list_get_value_data: a fresh copy of the first element that compares equal to the target, or null. */
    method GetValueData(target: Option<Buffer>, compare: Option<Comparator>) returns (r: array?<bv8>)
      requires Valid()
      ensures var m := if target.None? then -1 else FirstMatch(Contents, target.value, CompareOrDefault(compare));
              && (r != null <==> m != -1)
              && (r != null ==> r[..] == Contents[m - 1] && fresh(r))
    {
      if target.None? { return null; }
      var index := Find(target, compare);
      if index >= 1 {
        r := GetValueIndex(index);
      } else {
        r := null;
      }
    }

    /** list_duplicate: a new, independent list holding copies of the payloads in the same order. */
    method Duplicate() returns (copy: List)
      requires Valid()
      ensures copy.Valid() && fresh(copy.Repr)
      ensures copy.Contents == Contents
    {
      copy := new List();
      var cursor := head;
      ghost var k := 0;
      while cursor != null
        invariant copy.Valid() && fresh(copy.Repr)
        invariant 0 <= k <= |Nodes|
        invariant cursor == (if k < |Nodes| then Nodes[k] else null)
        invariant copy.Contents == Contents[..k]
        decreases |Nodes| - k
      {
        var pushed := copy.PushBack(Some(cursor.data[..]));
        assert Contents[..k + 1] == Contents[..k] + [Contents[k]];
        cursor := cursor.next;
        k := k + 1;
      }
      assert Contents[..k] == Contents;
    }

    /** list_destroy: frees every node and its buffer; the handle becomes the empty list. */
    method Destroy()
      requires Valid()
      modifies Repr
      ensures Valid() && Repr <= old(Repr)
      ensures head == null && Contents == [] && Nodes == []
      ensures forall n :: n in old(Nodes) ==> n !in Repr && n.data !in Repr
      ensures old(Nodes) == [] ==> Repr == old(Repr)
    {
      ghost var n0 := Nodes;
      while head != null
        invariant Valid() && Repr <= old(Repr) && |Nodes| <= |n0|
        invariant forall n :: n in n0 && n !in Nodes ==> n !in Repr && n.data !in Repr
        invariant n0 == [] ==> Repr == old(Repr)
        decreases |Nodes|
      {
        ghost var nodesBefore := Nodes;
        // the buffer and then the node are freed
        var buffer := UnlinkFront();
        forall n | n in nodesBefore && n !in Nodes
          ensures n == nodesBefore[0]
        {
          RemoveAtMembers(nodesBefore, 1, n);
        }
      }
    }
  }
}
