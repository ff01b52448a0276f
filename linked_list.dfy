/** The intrusive singly linked list meant to carry the kernel's ready and
    wait queues.

    The nodes are the slots of the arena `next`: `next[p]` is the `next`
    field of node `p`, with `Null` for the end of the list. The list's head
    variable belongs to the caller, who hands its address to the list
    operations; here its value is passed in and its new value returned. */
module LinkedList {
  import opened ListSpec

  /** A place that holds a node reference: the target of a `LinkedList_t**`.
      Either the caller's head variable or the `next` field of a node. */
  datatype Link = Head | Next(node: nat)

  /** `*at`: the node reference stored at `at`. */
  function Deref(next: array<int>, head: int, at: Link): int
    reads next
    requires at.Next? ==> at.node < next.Length
  {
    match at
    case Head => head
    case Next(p) => next[p]
  }

  /** `*at = value`: writes the one place `at` and nothing else. */
  method WriteLink(next: array<int>, head: int, at: Link, value: int) returns (newHead: int)
    requires at.Next? ==> at.node < next.Length
    modifies next
    ensures at.Head? ==> newHead == value && next[..] == old(next[..])
    ensures at.Next? ==> newHead == head && next[..] == old(next[..])[at.node := value]
  {
    match at
    case Head =>
      newHead := value;
    case Next(p) =>
      newHead := head;
      next[p] := value;
  }

  /** Appends `element` at the tail of the list that starts at `head` and
      returns the new value of the head variable. The cursor walks the links
      until it finds the one holding `Null`, stores `element` there and
      terminates `element` with `Null`. */
  method AddElement(next: array<int>, head: int, element: nat, ghost nodes: seq<int>) returns (newHead: int)
    requires element < next.Length
    requires IsList(next[..], head, nodes)
    modifies next
    // An empty list: the head variable takes `element`, the only link written is `element`'s own.
    ensures head == Null ==> newHead == element && next[..] == old(next[..])[element := Null]
    // A non-empty list: the head is kept, the old tail's link and `element`'s link are the only writes.
    ensures head != Null ==>
              newHead == head &&
              next[..] == old(next[..])[nodes[|nodes| - 1] := element][element := Null]
    ensures next[element] == Null
    // The caller's obligation met: the list grows by `element` at the end.
    ensures element !in nodes ==> IsList(next[..], newHead, nodes + [element])
    // The obligation broken: the list now ends at `element`, and the nodes after it are cut off.
    ensures element in nodes ==> IsList(next[..], newHead, nodes[..IndexOf(nodes, element) + 1])
  {
    newHead := head;
    var cursor := Head;
    ghost var k := 0;
    while Deref(next, newHead, cursor) != Null
      invariant k <= |nodes|
      invariant cursor == if k == 0 then Head else Next(nodes[k - 1])
      invariant Deref(next, newHead, cursor) == if k < |nodes| then nodes[k] else Null
      invariant newHead == head && next[..] == old(next[..])
      decreases |nodes| - k
    {
      cursor := Next(Deref(next, newHead, cursor));
      k := k + 1;
    }
    newHead := WriteLink(next, newHead, cursor, element);
    next[element] := Null;
    if element in nodes {
      ListAppendPresent(old(next[..]), head, nodes, element);
    } else {
      ListAppend(old(next[..]), head, nodes, element);
    }
  }

  /** Unlinks the first node of the list that starts at `head` which is
      `element` itself, if there is one, and returns the new value of the
      head variable. The cursor walks the links; at the link holding
      `element` it stores `element`'s successor there and stops. */
  method RemoveElement(next: array<int>, head: int, element: int, ghost nodes: seq<int>) returns (newHead: int)
    requires IsList(next[..], head, nodes)
    modifies next
    // Not in the list (a null `element` never is): nothing is written.
    ensures element !in nodes ==> newHead == head && next[..] == old(next[..])
    // The head node: the head variable takes its successor, no node's link is written.
    ensures head != Null && element == head ==> newHead == old(next[element]) && next[..] == old(next[..])
    // Further down: only the predecessor's link is written, with `element`'s successor; `element`'s own link is kept.
    ensures element in nodes && element != head ==>
              newHead == head &&
              next[..] == old(next[..])[nodes[IndexOf(nodes, element) - 1] := old(next[element])]
    // The list loses exactly the first occurrence of `element`.
    ensures IsList(next[..], newHead, RemoveFirst(nodes, element))
  {
    newHead := head;
    var cursor := Head;
    ghost var k := 0;
    while Deref(next, newHead, cursor) != Null
      invariant k <= |nodes|
      invariant cursor == if k == 0 then Head else Next(nodes[k - 1])
      invariant Deref(next, newHead, cursor) == if k < |nodes| then nodes[k] else Null
      invariant element !in nodes[..k]
      invariant newHead == head && next[..] == old(next[..])
      decreases |nodes| - k
    {
      if Deref(next, newHead, cursor) == element {
        assert IndexOf(nodes, element) == k by {
          assert element in nodes[..IndexOf(nodes, element) + 1];
        }
        ListUnlink(next[..], head, nodes, k);
        RemoveFirstAt(nodes, element, k);
        newHead := WriteLink(next, newHead, cursor, next[element]);
        // Nothing follows the loop, so the C loop's `break` is a return here.
        return;
      }
      cursor := Next(Deref(next, newHead, cursor));
      k := k + 1;
    }
    assert nodes[..k] == nodes;
  }
}
