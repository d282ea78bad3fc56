/** The generic list of the node manager: a heap of linked nodes, with a ghost
    sequence of the nodes to say what every operation does to it. */
module SinglyLinkedList {

  // ---- sequence operations ----

  function InsertAt<T>(s: seq<T>, i: nat, x: T): seq<T>
    requires i <= |s|
  {
    s[..i] + [x] + s[i..]
  }

  function RemoveAt<T>(s: seq<T>, i: nat): seq<T>
    requires i < |s|
  {
    s[..i] + s[i + 1..]
  }

  /** Where everything is after an insertion and after a removal. */
  lemma {:induction false} PlacesAfter<T>(s: seq<T>, i: nat, x: T)
    requires i <= |s|
    ensures var t := InsertAt(s, i, x);
      |t| == |s| + 1 && t[i] == x && (forall k :: 0 <= k < i ==> t[k] == s[k]) && (forall k :: i <= k < |s| ==> t[k + 1] == s[k])
    ensures i < |s| ==>
      var r := RemoveAt(s, i);
      |r| == |s| - 1 && (forall k :: 0 <= k < i ==> r[k] == s[k]) && (forall k :: i < k < |s| ==> r[k - 1] == s[k])
  {
  }

  /** The first element that the comparison finds equal to the target, or -1. */
  ghost predicate IsFirstMatch<T>(s: seq<T>, target: T, compare: (T, T) -> int, i: int) {
    if i == -1 then forall k :: 0 <= k < |s| ==> compare(s[k], target) != 0
    else 0 <= i < |s| && compare(s[i], target) == 0 && forall k :: 0 <= k < i ==> compare(s[k], target) != 0
  }

  /** Taking out what was put in gives the list back, and putting back what was taken out. */
  lemma {:induction false} InsertRemove<T>(s: seq<T>, i: nat, x: T)
    requires i <= |s|
    ensures RemoveAt(InsertAt(s, i, x), i) == s
    ensures i < |s| ==> InsertAt(RemoveAt(s, i), i, s[i]) == s
  {
    var t := InsertAt(s, i, x);
    assert t[..i] == s[..i] && t[i + 1..] == s[i..];
    if i < |s| {
      var r := RemoveAt(s, i);
      assert r[..i] == s[..i] && r[i..] == s[i + 1..];
    }
  }

  // ---- the heap ----

  class Node<T> {
    var data: T
    var next: Node?<T>

    /** `create_node`. */
    constructor (data: T)
      ensures this.data == data && next == null
    {
      this.data, next := data, null;
    }
  }

  class List<T> {
    var head: Node?<T>
    var size: int
    ghost var nodes: seq<Node<T>>    // the chain from the head on
    ghost var freed: seq<Node<T>>    // every node that was given to free, in order

    /** The chain is exactly `nodes`: it ends, and no node is in it twice, nor freed. */
    ghost predicate Valid()
      reads this, nodes
    {
      && size == |nodes|
      && head == (if nodes == [] then null else nodes[0])
      && (forall i {:trigger nodes[i].next} :: 0 <= i < |nodes| ==>
            nodes[i].next == if i + 1 < |nodes| then nodes[i + 1] else null)
      && (forall i, j :: 0 <= i < j < |nodes| ==> nodes[i] != nodes[j])
      && (forall i, j :: 0 <= i < |nodes| && 0 <= j < |freed| ==> nodes[i] != freed[j])
      && (forall i, j :: 0 <= i < j < |freed| ==> freed[i] != freed[j])
    }

    /** What the list holds, in order. */
    ghost function Contents(): (s: seq<T>)
      reads this, nodes
      ensures |s| == |nodes|
    {
      seq(|nodes|, i requires 0 <= i < |nodes| reads this, nodes => nodes[i].data)
    }

    /** `list_create`. */
    constructor ()
      ensures Valid() && Contents() == [] && freed == []
    {
      head, size, nodes, freed := null, 0, [], [];
    }

    /** `list_insert_head`. */
    method InsertHead(data: T)
      requires Valid()
      modifies this
      ensures Valid() && freed == old(freed)
      ensures Contents() == [data] + old(Contents())
      ensures |nodes| == |old(nodes)| + 1 && nodes[1..] == old(nodes) && fresh(nodes[0])
    {
      var node := new Node(data);
      node.next := head;
      head := node;
      size := size + 1;
      nodes := [node] + nodes;
    }

    /** The node at an index: the cursor loops of the list. */
    method Walk(index: nat) returns (cur: Node<T>)
      requires Valid() && index < |nodes|
      ensures cur == nodes[index]
    {
      cur := head;
      for i := 0 to index
        invariant cur == nodes[i]
      {
        cur := cur.next;
      }
    }

    /** `list_insert_tail`. */
    method InsertTail(data: T)
      requires Valid()
      modifies this, nodes
      ensures Valid() && freed == old(freed)
      ensures Contents() == old(Contents()) + [data]
    {
      var node := new Node(data);
      if head == null {
        head := node;
      } else {
        var cur := head;
        ghost var i := 0;
        while cur.next != null
          invariant 0 <= i < |nodes| && cur == nodes[i]
          decreases |nodes| - i
        {
          cur := cur.next;
          i := i + 1;
        }
        cur.next := node;
      }
      nodes := nodes + [node];
      size := size + 1;
    }

    /** Puts a new node after `cur`, which is at `index - 1`. */
    method LinkAfter(cur: Node<T>, data: T, ghost index: nat)
      requires Valid() && 0 < index <= |nodes| && cur == nodes[index - 1]
      modifies this, cur
      ensures Valid() && freed == old(freed)
      ensures Contents() == InsertAt(old(Contents()), index, data)
    {
      var node := new Node(data);
      node.next := cur.next;
      cur.next := node;
      nodes := nodes[..index] + [node] + nodes[index..];
      size := size + 1;
    }

    /** `list_insert_at`. */
    method Insert(index: int, data: T) returns (code: int)
      requires Valid()
      modifies this, nodes
      ensures Valid() && freed == old(freed)
      ensures code == if 0 <= index <= |old(nodes)| then 0 else -1
      ensures Contents() == if code == 0 then InsertAt(old(Contents()), index, data) else old(Contents())
    {
      if index < 0 || index > size {
        return -1;
      }
      if index == 0 {
        ghost var was := Contents();
        InsertHead(data);
        assert InsertAt(was, 0, data) == [data] + was;
        return 0;
      }
      var cur := Walk(index - 1);
      LinkAfter(cur, data, index);
      return 0;
    }

    /** `list_find`: the one first match. */
    method Find(target: T, compare: (T, T) -> int) returns (index: int)
      requires Valid()
      ensures IsFirstMatch(Contents(), target, compare, index)
      ensures forall i :: IsFirstMatch(Contents(), target, compare, i) ==> i == index
    {
      if size == 0 {
        return -1;
      }
      var cur := head;
      var i := 0;
      while i < size
        invariant 0 <= i <= |nodes| && cur == (if i < |nodes| then nodes[i] else null)
        invariant forall k :: 0 <= k < i ==> compare(Contents()[k], target) != 0
      {
        if compare(cur.data, target) == 0 {
          return i;
        }
        cur := cur.next;
        i := i + 1;
      }
      return -1;
    }

    /** `list_get`: the node whose data is meant, or null. */
    method Get(index: int) returns (node: Node?<T>)
      requires Valid()
      ensures 0 <= index < |Contents()| ==> node != null && node.data == Contents()[index]
      ensures !(0 <= index < |Contents()|) ==> node == null
    {
      if size == 0 || index < 0 || index >= size {
        return null;
      }
      node := Walk(index);
    }

    /** `list_remove_head`. */
    method RemoveHead() returns (code: int)
      requires Valid()
      modifies this
      ensures Valid()
      ensures code == if old(nodes) == [] then -1 else 0
      ensures code == 0 ==> Contents() == old(Contents())[1..] && freed == old(freed) + [old(nodes)[0]]
      ensures code != 0 ==> Contents() == old(Contents()) && freed == old(freed)
    {
      if size == 0 {
        return -1;
      }
      freed := freed + [head];
      head := head.next;
      nodes := nodes[1..];
      size := size - 1;
      return 0;
    }

    /** Takes the node after `cur`, which is at `index - 1`, out of the chain. */
    method Unlink(cur: Node<T>, ghost index: nat)
      requires Valid() && 0 < index < |nodes| && cur == nodes[index - 1]
      modifies this, cur
      ensures Valid()
      ensures Contents() == RemoveAt(old(Contents()), index) && freed == old(freed) + [old(nodes)[index]]
    {
      var temp := cur.next;
      cur.next := temp.next;
      freed := freed + [temp];
      nodes := nodes[..index] + nodes[index + 1..];
      size := size - 1;
    }

    /** `list_remove_tail`. */
    method RemoveTail() returns (code: int)
      requires Valid()
      modifies this, nodes
      ensures Valid()
      ensures code == if old(nodes) == [] then -1 else 0
      ensures code == 0 ==> Contents() == old(Contents())[..|old(nodes)| - 1]
      ensures code == 0 ==> freed == old(freed) + [old(nodes)[|old(nodes)| - 1]]
      ensures code != 0 ==> Contents() == old(Contents()) && freed == old(freed)
    {
      if size == 0 {
        return -1;
      }
      if size == 1 {
        code := RemoveHead();
        return;
      }
      var cur := head;
      ghost var i := 0;
      while cur.next.next != null
        invariant 0 <= i < |nodes| - 1 && cur == nodes[i]
        decreases |nodes| - i
      {
        cur := cur.next;
        i := i + 1;
      }
      Unlink(cur, i + 1);
      return 0;
    }

    /** `list_remove_at`. */
    method Remove(index: int) returns (code: int)
      requires Valid()
      modifies this, nodes
      ensures Valid()
      ensures code == if 0 <= index < |old(nodes)| then 0 else -1
      ensures code == 0 ==> Contents() == RemoveAt(old(Contents()), index) && freed == old(freed) + [old(nodes)[index]]
      ensures code != 0 ==> Contents() == old(Contents()) && freed == old(freed)
    {
      if index < 0 || index >= size {
        return -1;
      }
      if index == 0 {
        code := RemoveHead();
        return;
      }
      var cur := Walk(index - 1);
      Unlink(cur, index);
      return 0;
    }

    /** `list_remove_by_value`. */
    method RemoveByValue(target: T, compare: (T, T) -> int) returns (code: int, ghost at: int)
      requires Valid()
      modifies this, nodes
      ensures Valid() && IsFirstMatch(old(Contents()), target, compare, at)
      ensures code == if at == -1 then -1 else 0
      ensures code == 0 ==> Contents() == RemoveAt(old(Contents()), at) && freed == old(freed) + [old(nodes)[at]]
      ensures code != 0 ==> Contents() == old(Contents()) && freed == old(freed)
    {
      var index := Find(target, compare);
      at := index;
      if index == -1 {
        return -1, at;
      }
      code := Remove(index);
    }

    /** `list_traverse`: what the callback is given, in order. */
    method Traverse() returns (visited: seq<T>)
      requires Valid()
      ensures visited == Contents()
    {
      visited := [];
      if size == 0 {
        return;
      }
      var cur := head;
      while cur != null
        invariant |visited| <= |nodes| && visited == Contents()[..|visited|]
        invariant cur == if |visited| < |nodes| then nodes[|visited|] else null
        decreases |nodes| - |visited|
      {
        visited := visited + [cur.data];
        cur := cur.next;
      }
    }

    /** `list_destroy`: every node of the list is freed, once, in order, and no other. */
    method Destroy()
      requires Valid()
      modifies this
      ensures freed == old(freed) + old(nodes)
      ensures forall i, j :: 0 <= i < j < |freed| ==> freed[i] != freed[j]
    {
      var cur := head;
      ghost var i := 0;
      while cur != null
        invariant 0 <= i <= |nodes| && cur == (if i < |nodes| then nodes[i] else null)
        invariant nodes == old(nodes) && freed == old(freed) + nodes[..i]
        decreases |nodes| - i
      {
        var next := cur.next;
        freed := freed + [cur];
        cur := next;
        i := i + 1;
      }
    }
  }
}
