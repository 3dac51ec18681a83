# Address book list

A Dafny model of the address book's contact list (`addressbook_list.c`). The list is doubly linked. Each contact node holds an integer id, a name and an address array that another component owns. The list record keeps `head`, `tail`, a movable cursor `current`, and a `size` field.

The model has two modules:

- `AddressBookNodes` (`addressbook_nodes.dfy`) holds the node class and pure reference definitions over head-to-tail sequences of nodes, with their lemmas:
  - `IdIndex` and `NameIndex`: the first match from the head.
  - `Inserted` and `InsertAll`: the sequence a single insert, or a run of inserts, leaves.
  - `Without`: the sequence a delete leaves.
- `AddressBook` (`addressbook_list.dfy`) holds the list class. Its fields and links are updated in place, as in the C code.
  - The ghost field `nodes` is the head-to-tail sequence. The ghost field `pos` is the cursor's position in it.
  - `Valid()` says: the links form exactly that chain; `head.previousNode` and `tail.nextNode` are null; the cursor is on a node whenever the list is non-empty; all three references are null when it is empty; ids are pairwise distinct.
  - Every method keeps `Valid()` and states its effect on `nodes`, the references and the cursor.
  - The lemmas about `Follow`/`FollowBack` connect pointer chasing along `nextNode`/`previousNode` to positions in `nodes`. This is what makes the chain acyclic.

A node's id, name and array are `const`. `createAddressBookNode` sets them and no operation of the file writes them again. Only the two links change.

`deleteCurrentNode` is a single method with the source's four cases. Each case's relinking is its own method (`UnlinkOnly`, `UnlinkHead`, `UnlinkTail`, `UnlinkInterior`). In the same way, `insertNode`'s two linking paths are `LinkFirst` and `LinkAfterTail`.

## Model

| member | source | states |
|---|---|---|
| `AddressBookNodes.AddressBookNode.constructor` | addressbook_list.c:64-73 | the new node carries exactly the given id, name and array, and both links are null |
| `AddressBookNodes.IdIndex` | addressbook_list.c:227-235 | `Some(k)`: position k is the first from the head whose id matches, and no earlier node matches; `None` exactly when no node has the id |
| `AddressBookNodes.NameIndex` | addressbook_list.c:253-261 | the same for an exact name match |
| `AddressBookNodes.Inserted` | addressbook_list.c:99-112 | one insert never breaks id uniqueness, and afterwards a node with the inserted id is always present |
| `AddressBookNodes.InsertAllKeepsIdsUnique` | addressbook_list.c:93-112 | over any sequence of inserts, accepted or rejected, ids stay pairwise distinct |
| `AddressBookNodes.InsertAllInOrder` | addressbook_list.c:105-110 | inserting nodes whose ids are new and distinct accepts every one, and the list order is the insertion order |
| `AddressBookNodes.IdIndexOfUnique` | addressbook_list.c:227-233 | with unique ids, looking up a node's own id lands on that node's position |
| `AddressBookNodes.SamePosition` | addressbook_list.c:128-140 | with unique ids a node occupies one position only, so comparing the cursor with head or tail decides its position |
| `AddressBookNodes.FindAfterInsertAll` | addressbook_list.c:99-110 | after inserting nodes with distinct ids into an empty list, the list is exactly those nodes and a lookup of each id finds the node inserted with it |
| `AddressBookNodes.WithoutRemovesExactly` | addressbook_list.c:128-154 | a delete removes exactly the node at the cursor, keeps the others in their order and keeps ids unique |
| `AddressBook.AddressBookList.constructor` | addressbook_list.c:20-25 | a new list is empty: head, tail and current are null and size is 0 |
| `AddressBook.AddressBookList.Free` | addressbook_list.c:38-45 | the walk from the head releases every node exactly once, in head-to-tail order |
| `AddressBook.AddressBookList.InsertNode` | addressbook_list.c:90-113 | TRUE exactly when the list is empty or the id is absent. The sequence becomes `Inserted(old, node)`. Into an empty list, head, tail and current become the node and its links null. Otherwise an accepted node is appended after the old tail and becomes the tail, with its previous link the old tail. Head and current never change. A rejected node leaves the list, the node and all references unchanged. size is unchanged |
| `AddressBook.AddressBookList.LinkFirst` | addressbook_list.c:99-103 | the node becomes head, tail and current, both links null, and the sole element |
| `AddressBook.AddressBookList.LinkAfterTail` | addressbook_list.c:105-110 | the sequence becomes `old ++ [node]`, the node is the tail, its previous link is the old tail, and head and current are unchanged |
| `AddressBook.AddressBookList.DeleteCurrentNode` | addressbook_list.c:115-158 | FALSE exactly on an empty list. Otherwise the sequence loses exactly its cursor position. The new cursor is null if the list became empty, the old head's successor if the cursor was on the head, and otherwise the old cursor's predecessor. size is unchanged |
| `AddressBook.AddressBookList.UnlinkOnly` | addressbook_list.c:128-132 | the only node goes and head, tail and current all become null; the list record stays valid |
| `AddressBook.AddressBookList.UnlinkHead` | addressbook_list.c:133-139 | the head goes, the next node becomes head and current, and its previous link is cleared |
| `AddressBook.AddressBookList.UnlinkTail` | addressbook_list.c:140-146 | the tail goes, the previous node becomes tail and current, and its next link is cleared |
| `AddressBook.AddressBookList.UnlinkInterior` | addressbook_list.c:147-154 | the neighbours are linked to each other, the node goes from the sequence, and current moves to the previous node |
| `AddressBook.AddressBookList.Forward` | addressbook_list.c:160-185 | TRUE exactly when n <= 0 or at least n successors exist. On TRUE the cursor moves exactly n positions toward the tail: the node n next-links away. On FALSE, or for n <= 0, the cursor stays. Nothing but the cursor changes |
| `AddressBook.AddressBookList.Backward` | addressbook_list.c:187-212 | TRUE exactly when n <= the cursor position. On TRUE the cursor moves exactly n positions toward the head: the node n previous-links away. On FALSE, or for n <= 0, the cursor stays. Nothing but the cursor changes |
| `AddressBook.AddressBookList.FindByID` | addressbook_list.c:214-236 | returns the first node from the head with the id, or null when there is none; changes nothing, the cursor included |
| `AddressBook.AddressBookList.FindByName` | addressbook_list.c:238-262 | returns the first node from the head with exactly the name, or null when there is none; changes nothing, the cursor included |
| `AddressBook.FollowAlongList` | addressbook_list.c:176-180 | following n next-links from position i reaches position i + n, or null once past the tail |
| `AddressBook.FollowBackAlongList` | addressbook_list.c:203-207 | following n previous-links from position i reaches position i - n, or null once past the head |
| `AddressBook.ChainIsAcyclic` | addressbook_list.c:40-45 | from the head the next-links visit the nodes in order and reach null after the tail; from the tail the previous-links visit them in reverse and reach null before the head |
| `AddressBook.ForwardThenBackward` | addressbook_list.c:160-212 | moving forward n nodes and then back n nodes returns to the starting node whenever the forward move exists |

## Left out

- Memory management is not modelled: `malloc`, `free`, and the NULL results when storage cannot be obtained (lines 21, 27, 65, 75). That includes the node leaked when the array cannot be created (lines 69-75). Dafny objects are garbage-collected.
- freeAddressBookNode (lines 78-88) only releases memory, so it has no member of its own. `AddressBookList.Free` hands back the released nodes, each with its `addressArray`, in the order the source releases them. The list object stays allocated afterwards; callers must not use it again.
- The address array's type and its factory and destructor, `createAddressBookArray` and `freeAddressBookArray`, are defined outside this file. `AddressBookArray` is an empty class that stands for that handle. The node constructor takes the array as a parameter.
- The header `addressbook_list.h` is not part of this model. It holds the struct definitions, `Boolean`, `TRUE`/`FALSE` and the name buffer length.
- The fixed-size name buffer and its unchecked `strcpy` (line 68) are not modelled: a name is an unbounded `string`. The `strcmp` test (line 256) is string equality; text after an embedded NUL character is not ignored.
- The NULL-list guards in deleteCurrentNode, forward, backward, findByID and findByName (lines 126, 172, 199, 223, 249) have no counterpart: a Dafny method receiver is never null.
- AddressBook.AddressBookList.DeleteCurrentNode: on an empty list it returns FALSE, as the doc comment (lines 122-124) says. As written, the code passes the test at line 128 (NULL == NULL), frees the whole list, writes to the freed record (lines 130-131) and returns TRUE.
- AddressBook.AddressBookList.UnlinkOnly: models the intended outcome of the single-node branch (lines 128-132): the node is removed and the list becomes empty but stays usable. As written, the code frees the list record itself and then writes to it.
- AddressBook.AddressBookList.Forward and AddressBook.AddressBookList.Backward require a non-null cursor when n > 0. The code dereferences a null cursor in that case (lines 177 and 204). It also reads `list->current` before testing `list` for NULL (lines 170 and 197).
- AddressBook.AddressBookList.InsertNode requires that a node about to be appended has a null next link. The code sets only its previous link (line 108), so a stale next link would leave the tail pointing on.
- The `size` field is set to 0 by createAddressBookList (line 23) and never updated. The model keeps it that way: every operation leaves it unchanged, and nothing relates it to the number of nodes.
- The C `int` of ids and move counts is modelled as an unbounded `int`. Ids are only compared for equality. The loop counters in forward/backward stay below the count, so nothing wraps.
- Callers outside this file could write a node's id, name or array directly. The model does not cover that, since these fields are constants.
- The doc comment of findByName (lines 241-245) says it moves the cursor to the match. The code does not, and the model follows the code.
