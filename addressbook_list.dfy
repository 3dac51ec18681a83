/** The address book: a doubly-linked list of contact nodes with a cursor. */
module AddressBook {
  import opened AddressBookNodes

  class AddressBookList {
    /** Set to 0 on creation and never maintained afterwards. */
    var size: int
    var head: AddressBookNode?
    var tail: AddressBookNode?
    var current: AddressBookNode?

    /** The nodes from head to tail. */
    ghost var nodes: seq<AddressBookNode>
    /** The position of `current` in `nodes` (0 when the list is empty). */
    ghost var pos: nat

    /** The links form exactly the chain `nodes`, head and tail end it, the
        cursor is on a node of the list whenever there is one, and ids are unique. */
    ghost predicate Valid()
      reads this, nodes
    {
      UniqueIds(nodes)
      && (forall k {:trigger nodes[k].nextNode} ::
            0 <= k < |nodes| - 1 ==> nodes[k].nextNode == nodes[k + 1])
      && (forall k {:trigger nodes[k].previousNode} ::
            0 < k < |nodes| ==> nodes[k].previousNode == nodes[k - 1])
      && (nodes == [] ==> head == null && tail == null && current == null && pos == 0)
      && (nodes != [] ==>
            head == nodes[0] && tail == nodes[|nodes| - 1]
            && head.previousNode == null && tail.nextNode == null
            && pos < |nodes| && current == nodes[pos])
    }

    /** createAddressBookList. */
    constructor ()
      ensures Valid() && nodes == []
      ensures head == null && tail == null && current == null && size == 0
    {
      size := 0;
      head, tail, current := null, null, null;
      nodes, pos := [], 0;
    }

    /** freeAddressBookList: walks the list from the head and hands back every
        node, each once, in the order they are released. */
    method Free() returns (released: seq<AddressBookNode>)
      requires Valid()
      ensures released == nodes
    {
      released := [];
      var abn := head;
      while abn != null
        invariant |released| <= |nodes| && released == nodes[..|released|]
        invariant abn == if |released| < |nodes| then nodes[|released|] else null
        decreases |nodes| - |released|
      {
        var next := abn.nextNode;
        released := released + [abn];
        abn := next;
      }
    }

    /** insertNode. */
    method InsertNode(node: AddressBookNode) returns (ok: bool)
      requires Valid()
      requires nodes != [] && IdIndex(nodes, node.id).None? ==> node.nextNode == null
      modifies this, nodes, node
      ensures Valid()
      ensures ok <==> old(nodes) == [] || IdIndex(old(nodes), node.id).None?
      ensures nodes == Inserted(old(nodes), node)
      ensures old(nodes) == [] ==>
                head == node && tail == node && current == node
                && node.previousNode == null && node.nextNode == null
      ensures old(nodes) != [] ==> head == old(head) && current == old(current)
      ensures old(nodes) != [] && ok ==> tail == node && node.previousNode == old(tail)
      ensures !ok ==> tail == old(tail) && unchanged(node)
      ensures size == old(size)
    {
      if head == null {
        LinkFirst(node);
        return true;
      }
      var found := FindByID(node.id);
      if found == null {
        LinkAfterTail(node);
        return true;
      }
      return false;
    }

    /** insertNode, case of the empty list: the node becomes head, tail and current. */
    method LinkFirst(node: AddressBookNode)
      requires Valid() && nodes == []
      modifies this, node
      ensures Valid() && nodes == [node] && size == old(size)
      ensures head == node && tail == node && current == node
      ensures node.previousNode == null && node.nextNode == null
    {
      head, tail, current := node, node, node;
      node.previousNode, node.nextNode := null, null;
      nodes, pos := [node], 0;
    }

    /** insertNode, case of a new id: the node is linked after the old tail. */
    method LinkAfterTail(node: AddressBookNode)
      requires Valid() && nodes != [] && node.nextNode == null
      requires forall k :: 0 <= k < |nodes| ==> nodes[k].id != node.id
      modifies this, nodes, node
      ensures Valid() && nodes == old(nodes) + [node] && size == old(size)
      ensures head == old(head) && current == old(current)
      ensures tail == node && node.previousNode == old(tail)
    {
      assert Valid();
      assert forall k :: 0 <= k < |nodes| ==> nodes[k] != node;
      tail.nextNode := node;
      node.previousNode := tail;
      tail := tail.nextNode;
      nodes := nodes + [node];
    }

    /** deleteCurrentNode. */
    method DeleteCurrentNode() returns (ok: bool)
      requires Valid()
      modifies this, nodes
      ensures Valid()
      ensures ok <==> old(nodes) != []
      ensures ok ==> nodes == Without(old(nodes), old(pos))
      ensures ok ==> current == if |old(nodes)| == 1 then null
                               else if old(pos) == 0 then old(nodes)[1]
                               else old(nodes)[old(pos) - 1]
      ensures !ok ==> nodes == old(nodes)
      ensures size == old(size)
    {
      if current == null {
        return false;
      }
      assert Valid();
      if current == head { SamePosition(nodes, pos, 0); }
      if current == tail { SamePosition(nodes, pos, |nodes| - 1); }
      if current == head && current == tail {
        UnlinkOnly();
      } else if current == head {
        UnlinkHead();
      } else if current == tail {
        UnlinkTail();
      } else {
        UnlinkInterior();
      }
      return true;
    }

    /** deleteCurrentNode, case of the only node: the list becomes empty. */
    method UnlinkOnly()
      requires Valid() && |nodes| == 1
      modifies this
      ensures Valid() && nodes == [] && size == old(size)
    {
      head, tail, current := null, null, null;
      nodes, pos := [], 0;
    }

    /** deleteCurrentNode, case of the cursor on the head: the cursor moves to the next node. */
    method UnlinkHead()
      requires Valid() && |nodes| > 1 && pos == 0
      modifies this, nodes
      ensures Valid() && size == old(size)
      ensures nodes == old(nodes)[1..] && current == old(nodes)[1]
    {
      assert Valid();
      current := current.nextNode;
      head := current;
      head.previousNode := null;
      nodes := nodes[1..];
    }

    /** deleteCurrentNode, case of the cursor on the tail: the cursor moves to the previous node. */
    method UnlinkTail()
      requires Valid() && |nodes| > 1 && pos == |nodes| - 1
      modifies this, nodes
      ensures Valid() && size == old(size)
      ensures nodes == old(nodes)[..old(pos)] && current == old(nodes)[old(pos) - 1]
    {
      assert Valid();
      current := current.previousNode;
      tail := current;
      tail.nextNode := null;
      nodes, pos := nodes[..pos], pos - 1;
    }

    /** deleteCurrentNode, case of an interior cursor: the neighbours are linked
        to each other and the cursor moves to the previous node. */
    method UnlinkInterior()
      requires Valid() && 0 < pos < |nodes| - 1
      modifies this, nodes
      ensures Valid() && size == old(size)
      ensures nodes == old(nodes[..pos] + nodes[pos + 1..]) && current == old(nodes)[old(pos) - 1]
    {
      assert Valid();
      var abn := current;
      abn.previousNode.nextNode := abn.nextNode;
      abn.nextNode.previousNode := abn.previousNode;
      current := abn.previousNode;
      nodes, pos := nodes[..pos] + nodes[pos + 1..], pos - 1;
    }

    /** forward: moves the cursor n nodes toward the tail, or not at all. */
    method Forward(n: int) returns (ok: bool)
      requires Valid()
      requires n > 0 ==> current != null
      modifies `current, `pos
      ensures Valid()
      ensures ok <==> n <= 0 || old(pos) + n < |nodes|
      ensures ok && n > 0 ==> pos == old(pos) + n && current == nodes[pos]
      ensures !ok || n <= 0 ==> pos == old(pos) && current == old(current)
      ensures ok ==> current == Follow(old(current), if n > 0 then n else 0)
    {
      var abn := current;
      var i := 0;
      while i < n
        invariant 0 <= i <= if n > 0 then n else 0
        invariant nodes == [] ==> i == 0 && abn == null
        invariant nodes != [] ==> pos + i < |nodes| && abn == nodes[pos + i]
        decreases n - i
      {
        if abn.nextNode != null {
          abn := abn.nextNode;
        } else {
          assert Valid();
          assert pos + i == |nodes| - 1;
          return false;
        }
        i := i + 1;
      }
      ghost var start := pos;
      current, pos := abn, pos + i;
      if nodes != [] {
        FollowAlongList(this, start, i);
      }
      return true;
    }

    /** backward: moves the cursor n nodes toward the head, or not at all. */
    method Backward(n: int) returns (ok: bool)
      requires Valid()
      requires n > 0 ==> current != null
      modifies `current, `pos
      ensures Valid()
      ensures ok <==> n <= old(pos)
      ensures ok && n > 0 ==> pos == old(pos) - n && current == nodes[pos]
      ensures !ok || n <= 0 ==> pos == old(pos) && current == old(current)
      ensures ok ==> current == FollowBack(old(current), if n > 0 then n else 0)
    {
      var abn := current;
      var i := 0;
      while i < n
        invariant 0 <= i <= if n > 0 then n else 0
        invariant nodes == [] ==> i == 0 && abn == null
        invariant nodes != [] ==> i <= pos && abn == nodes[pos - i]
        decreases n - i
      {
        if abn.previousNode != null {
          abn := abn.previousNode;
        } else {
          assert Valid();
          assert pos == i;
          return false;
        }
        i := i + 1;
      }
      ghost var start := pos;
      current, pos := abn, pos - i;
      if nodes != [] {
        FollowBackAlongList(this, start, i);
      }
      return true;
    }

    /** findByID: the first node from the head with this id, or null. */
    method FindByID(id: int) returns (r: AddressBookNode?)
      requires Valid()
      ensures IdIndex(nodes, id).None? ==> r == null
      ensures IdIndex(nodes, id).Some? ==> r == nodes[IdIndex(nodes, id).value]
    {
      var abn := head;
      ghost var k := 0;
      while abn != null
        invariant k <= |nodes|
        invariant abn == if k < |nodes| then nodes[k] else null
        invariant forall j :: 0 <= j < k ==> nodes[j].id != id
        decreases |nodes| - k
      {
        if abn.id == id {
          return abn;
        }
        abn := abn.nextNode;
        k := k + 1;
      }
      return null;
    }

    /** findByName: the first node from the head with exactly this name, or null.
        The cursor is not moved. */
    method FindByName(name: string) returns (r: AddressBookNode?)
      requires Valid()
      ensures NameIndex(nodes, name).None? ==> r == null
      ensures NameIndex(nodes, name).Some? ==> r == nodes[NameIndex(nodes, name).value]
    {
      var abn := head;
      ghost var k := 0;
      while abn != null
        invariant k <= |nodes|
        invariant abn == if k < |nodes| then nodes[k] else null
        invariant forall j :: 0 <= j < k ==> nodes[j].name != name
        decreases |nodes| - k
      {
        if abn.name == name {
          return abn;
        }
        abn := abn.nextNode;
        k := k + 1;
      }
      return null;
    }
  }

  /** The node reached by following `nextNode` n times (null once past the tail). */
  ghost function Follow(node: AddressBookNode?, n: nat): AddressBookNode?
    reads *
    decreases n
  {
    if n == 0 || node == null then node else Follow(node.nextNode, n - 1)
  }

  /** The node reached by following `previousNode` n times (null once past the head). */
  ghost function FollowBack(node: AddressBookNode?, n: nat): AddressBookNode?
    reads *
    decreases n
  {
    if n == 0 || node == null then node else FollowBack(node.previousNode, n - 1)
  }

  /** Following n next-links from position i lands on position i + n, or on null past the tail. */
  lemma {:induction false} FollowAlongList(l: AddressBookList, i: nat, n: nat)
    requires l.Valid() && i < |l.nodes|
    ensures Follow(l.nodes[i], n) == if i + n < |l.nodes| then l.nodes[i + n] else null
    decreases n
  {
    if n > 0 {
      if i + 1 < |l.nodes| {
        FollowAlongList(l, i + 1, n - 1);
      }
    }
  }

  /** Following n previous-links from position i lands on position i - n, or on null past the head. */
  lemma {:induction false} FollowBackAlongList(l: AddressBookList, i: nat, n: nat)
    requires l.Valid() && i < |l.nodes|
    ensures FollowBack(l.nodes[i], n) == if n <= i then l.nodes[i - n] else null
    decreases n
  {
    if n > 0 {
      if i > 0 {
        FollowBackAlongList(l, i - 1, n - 1);
      }
    }
  }

  /** The chain is acyclic: from the head the next-links visit the nodes in
      order and reach null after the tail; from the tail the previous-links
      visit them in reverse and reach null before the head. */
  lemma ChainIsAcyclic(l: AddressBookList)
    requires l.Valid()
    ensures forall k :: 0 <= k < |l.nodes| ==> Follow(l.head, k) == l.nodes[k]
    ensures Follow(l.head, |l.nodes|) == null
    ensures forall k :: 0 <= k < |l.nodes| ==> FollowBack(l.tail, k) == l.nodes[|l.nodes| - 1 - k]
    ensures FollowBack(l.tail, |l.nodes|) == null
  {
    if l.nodes != [] {
      var last := |l.nodes| - 1;
      forall k | 0 <= k <= |l.nodes|
        ensures Follow(l.head, k) == if k < |l.nodes| then l.nodes[k] else null
      {
        FollowAlongList(l, 0, k);
      }
      forall k | 0 <= k <= |l.nodes|
        ensures FollowBack(l.tail, k) == if k < |l.nodes| then l.nodes[last - k] else null
      {
        FollowBackAlongList(l, last, k);
      }
    }
  }

  /** Moving forward n nodes and then back n nodes returns to the starting node. */
  lemma ForwardThenBackward(l: AddressBookList, i: nat, n: nat)
    requires l.Valid() && i + n < |l.nodes|
    ensures FollowBack(Follow(l.nodes[i], n), n) == l.nodes[i]
  {
    FollowAlongList(l, i, n);
    FollowBackAlongList(l, i + n, n);
  }
}
