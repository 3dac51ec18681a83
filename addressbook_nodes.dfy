/** Contact nodes of the address book and the reference definitions, over
    head-to-tail sequences of nodes, that the list operations are proved against. */
module AddressBookNodes {

  datatype Option<T> = None | Some(value: T)

  /** The per-node address array. Its structure belongs to another component:
      this core only creates one per node and hands it back when the node goes. */
  class AddressBookArray {
    /** createAddressBookArray, whose workings lie outside this model. */
    constructor () { }
  }

  /** One contact. The core never writes id, name or addressArray after creating the
      node, so they are constants; only the two links change. */
  class AddressBookNode {
    const id: int
    const name: string
    const addressArray: AddressBookArray
    var previousNode: AddressBookNode?
    var nextNode: AddressBookNode?

    /** createAddressBookNode: `addressArray` is the fresh array the external factory made. */
    constructor (id: int, name: string, addressArray: AddressBookArray)
      ensures this.id == id && this.name == name && this.addressArray == addressArray
      ensures previousNode == null && nextNode == null
    {
      this.id := id;
      this.name := name;
      this.addressArray := addressArray;
      previousNode := null;
      nextNode := null;
    }
  }

  /** No id occurs twice in `ns` (it follows that no node occurs twice). */
  predicate UniqueIds(ns: seq<AddressBookNode>) {
    forall j, k :: 0 <= j < k < |ns| ==> ns[j].id != ns[k].id
  }

  /** Unique ids make the nodes themselves distinct: a node sits at one position only. */
  lemma SamePosition(ns: seq<AddressBookNode>, i: nat, j: nat)
    requires UniqueIds(ns) && i < |ns| && j < |ns| && ns[i] == ns[j]
    ensures i == j
  {
  }

  /** The position of the first node, counted from the head, whose id is `id`. */
  function IdIndex(ns: seq<AddressBookNode>, id: int): (r: Option<nat>)
    ensures r.Some? ==> r.value < |ns| && ns[r.value].id == id
    ensures r.Some? ==> forall j :: 0 <= j < r.value ==> ns[j].id != id
    ensures r.None? <==> forall k :: 0 <= k < |ns| ==> ns[k].id != id
  {
    if ns == [] then None
    else if ns[0].id == id then Some(0)
    else match IdIndex(ns[1..], id)
      case None => None
      case Some(k) => Some(k + 1)
  }

  /** The position of the first node, counted from the head, whose name is exactly `name`. */
  function NameIndex(ns: seq<AddressBookNode>, name: string): (r: Option<nat>)
    ensures r.Some? ==> r.value < |ns| && ns[r.value].name == name
    ensures r.Some? ==> forall j :: 0 <= j < r.value ==> ns[j].name != name
    ensures r.None? <==> forall k :: 0 <= k < |ns| ==> ns[k].name != name
  {
    if ns == [] then None
    else if ns[0].name == name then Some(0)
    else match NameIndex(ns[1..], name)
      case None => None
      case Some(k) => Some(k + 1)
  }

  /** The node sequence insertNode leaves behind: `node` goes after the tail
      unless a node with its id is already there. */
  function Inserted(ns: seq<AddressBookNode>, node: AddressBookNode): (r: seq<AddressBookNode>)
    ensures UniqueIds(ns) ==> UniqueIds(r)
    ensures IdIndex(r, node.id).Some?
  {
    if IdIndex(ns, node.id).None? then
      assert (ns + [node])[|ns|] == node;
      ns + [node]
    else ns
  }

  /** The node sequence after inserting every node of `xs`, first to last. */
  function InsertAll(ns: seq<AddressBookNode>, xs: seq<AddressBookNode>): seq<AddressBookNode>
    decreases |xs|
  {
    if xs == [] then ns else InsertAll(Inserted(ns, xs[0]), xs[1..])
  }

  /** The node sequence with the node at position k taken out. */
  function Without(ns: seq<AddressBookNode>, k: nat): seq<AddressBookNode>
    requires k < |ns|
  {
    ns[..k] + ns[k + 1..]
  }

  /** Whatever is inserted, and whether or not each insert succeeds, ids stay unique. */
  lemma {:induction false} InsertAllKeepsIdsUnique(ns: seq<AddressBookNode>, xs: seq<AddressBookNode>)
    requires UniqueIds(ns)
    ensures UniqueIds(InsertAll(ns, xs))
    decreases |xs|
  {
    if xs != [] {
      InsertAllKeepsIdsUnique(Inserted(ns, xs[0]), xs[1..]);
    }
  }

  /** Inserting nodes whose ids are new and distinct accepts every one of them,
      and the list order is the insertion order. */
  lemma {:induction false} InsertAllInOrder(ns: seq<AddressBookNode>, xs: seq<AddressBookNode>)
    requires UniqueIds(ns + xs)
    ensures InsertAll(ns, xs) == ns + xs
    decreases |xs|
  {
    if xs != [] {
      var ys := ns + xs;
      assert forall k :: 0 <= k < |ns| ==> ns[k].id != xs[0].id by {
        forall k | 0 <= k < |ns| ensures ns[k].id != xs[0].id {
          assert ys[k] == ns[k] && ys[|ns|] == xs[0];
        }
      }
      assert Inserted(ns, xs[0]) == ns + [xs[0]];
      assert (ns + [xs[0]]) + xs[1..] == ys;
      InsertAllInOrder(ns + [xs[0]], xs[1..]);
    }
  }

  /** In a sequence with unique ids, the first node with a node's own id is that node. */
  lemma IdIndexOfUnique(ns: seq<AddressBookNode>, k: nat)
    requires UniqueIds(ns) && k < |ns|
    ensures IdIndex(ns, ns[k].id) == Some(k)
  {
  }

  /** After inserting nodes with distinct ids into an empty list, a lookup by
      any of their ids finds exactly the node inserted with it. */
  lemma FindAfterInsertAll(xs: seq<AddressBookNode>)
    requires UniqueIds(xs)
    ensures InsertAll([], xs) == xs
    ensures forall j :: 0 <= j < |xs| ==> IdIndex(InsertAll([], xs), xs[j].id) == Some(j)
  {
    assert [] + xs == xs;
    InsertAllInOrder([], xs);
    forall j | 0 <= j < |xs| ensures IdIndex(xs, xs[j].id) == Some(j) {
      IdIndexOfUnique(xs, j);
    }
  }

  /** Taking out position k removes exactly that node, keeps the others in order
      and keeps ids unique. */
  lemma WithoutRemovesExactly(ns: seq<AddressBookNode>, k: nat)
    requires UniqueIds(ns) && k < |ns|
    ensures |Without(ns, k)| == |ns| - 1
    ensures UniqueIds(Without(ns, k))
    ensures forall j :: 0 <= j < k ==> Without(ns, k)[j] == ns[j]
    ensures forall j :: k <= j < |ns| - 1 ==> Without(ns, k)[j] == ns[j + 1]
    ensures forall x :: x in Without(ns, k) <==> x in ns && x != ns[k]
  {
  }
}
