/** The kernel object list: nodes linked by pointers, with a tail pointer and a count. */
module KObjects {
  import opened Words

  class KObjectNode {
    var id: u32
    var value: u32
    var next: KObjectNode?

    constructor (id: u32, value: u32)
      ensures this.id == id && this.value == value && next == null
    {
      this.id, this.value, next := id, value, null;
    }
  }

  ghost predicate Distinct(s: seq<KObjectNode>) {
    forall i, j | 0 <= i < j < |s| :: s[i] != s[j]
  }

  /** Following `next` from the first node visits s and ends. */
  ghost predicate Chain(s: seq<KObjectNode>)
    reads s
  {
    forall i {:trigger LinkAt(s, i)} | 0 <= i < |s| :: LinkAt(s, i)
  }

  ghost predicate LinkAt(s: seq<KObjectNode>, i: nat)
    requires i < |s|
    reads s
  {
    s[i].next == At(s, i + 1)
  }

  function At(s: seq<KObjectNode>, i: int): KObjectNode? {
    if 0 <= i < |s| then s[i] else null
  }

  /** Position of the first node with the id, |s| if there is none. */
  ghost function FirstWithId(s: seq<KObjectNode>, id: u32): (k: nat)
    reads s
    ensures k <= |s|
    ensures forall i | 0 <= i < k :: s[i].id != id
    ensures k < |s| ==> s[k].id == id
  {
    if s == [] || s[0].id == id then 0 else 1 + FirstWithId(s[1..], id)
  }

  lemma {:induction false} FirstWithIdIs(s: seq<KObjectNode>, id: u32, k: nat)
    requires k <= |s|
    requires forall i | 0 <= i < k :: s[i].id != id
    requires k < |s| ==> s[k].id == id
    ensures FirstWithId(s, id) == k
  {
  }

  class KObjectList {
    var head: KObjectNode?
    var tail: KObjectNode?
    var count: u32
    /** The nodes in order. */
    ghost var nodes: seq<KObjectNode>

    /** The pointers describe the sequence s: acyclic, tail the last node, count the length. */
    ghost predicate Represents(s: seq<KObjectNode>)
      reads this, s
    {
      && Distinct(s) && Chain(s)
      && head == At(s, 0) && tail == At(s, |s| - 1) && count == |s|
    }

    ghost predicate Valid()
      reads this, nodes
    {
      Represents(nodes)
    }

    constructor ()
      ensures Valid() && nodes == []
    {
      head, tail, count, nodes := null, null, 0, [];
    }

    /** Appending a node whose `next` is null. On a node not yet in the list this is concatenation.
        The check of `next` does not catch one node of the list, the tail itself: appending that
        links it to itself. */
    method Append(node: KObjectNode?) returns (ok: bool)
      requires Valid() && |nodes| + 1 < LIMIT32
      modifies this, tail
      ensures ok <==> node != null && old(node.next) == null
      ensures !ok ==> Valid() && nodes == old(nodes) && (node != null ==> node.next == old(node.next))
      ensures ok && node != old(tail) ==> Valid() && nodes == old(nodes) + [node]
      ensures ok && node == old(tail) ==> node.next == node && !exists s: seq<KObjectNode> :: Represents(s)
      ensures forall n <- old(nodes) :: n.id == old(n.id) && n.value == old(n.value)
    {
      if node == null {
        return false;
      }
      if node.next != null {
        return false;
      }
      if head == null {
        assert nodes == [];
        head, tail, count := node, node, 1;
        nodes := [node];
        return true;
      }
      if tail == null {
        assert false;
        return false;
      }
      assert nodes != [] && tail == nodes[|nodes| - 1];
      OnlyTailEnds(node);
      ghost var last := tail;
      tail.next := node;
      tail := node;
      count := count + 1;
      if node == last {
        forall s: seq<KObjectNode> ensures !Represents(s) {
          LoopRepresentsNothing(node, s);
        }
      } else {
        ghost var before := nodes;
        nodes := nodes + [node];
        forall i | 0 <= i < |nodes| ensures LinkAt(nodes, i) {
          if i < |before| {
            assert old(LinkAt(before, i));
          }
        }
      }
      return true;
    }

    /** A listed node without successor is the tail. */
    lemma OnlyTailEnds(node: KObjectNode)
      requires Valid() && node.next == null
      ensures node in nodes ==> node == tail
    {
      if node in nodes {
        var i :| 0 <= i < |nodes| && nodes[i] == node;
        assert LinkAt(nodes, i);
      }
    }

    lemma LoopRepresentsNothing(node: KObjectNode, s: seq<KObjectNode>)
      requires tail == node && node.next == node
      ensures !Represents(s)
    {
      if s != [] && tail == s[|s| - 1] {
        assert !LinkAt(s, |s| - 1);
      }
    }

    /** The first node with the id, or null if there is none. */
    method FindById(id: u32) returns (node: KObjectNode?)
      requires Valid()
      ensures node == At(nodes, FirstWithId(nodes, id))
    {
      node := head;
      ghost var k := 0;
      while node != null
        invariant k <= |nodes| && node == At(nodes, k)
        invariant forall i | 0 <= i < k :: nodes[i].id != id
        decreases |nodes| - k
      {
        assert LinkAt(nodes, k);
        if node.id == id {
          FirstWithIdIs(nodes, id, k);
          return node;
        }
        node := node.next;
        k := k + 1;
      }
      FirstWithIdIs(nodes, id, k);
    }

    method Count() returns (n: u32)
      requires Valid()
      ensures n == |nodes|
    {
      return count;
    }

    /** Removes exactly the first node with the id and detaches it. */
    method RemoveById(id: u32) returns (ok: bool)
      requires Valid()
      modifies this, nodes
      ensures Valid()
      ensures var k := old(FirstWithId(nodes, id));
              if k < |old(nodes)| then
                ok && nodes == old(nodes)[..k] + old(nodes)[k + 1..] && old(nodes)[k].next == null
              else !ok && nodes == old(nodes)
      ensures forall n <- old(nodes) :: n.id == old(n.id) && n.value == old(n.value)
    {
      var prev: KObjectNode? := null;
      var cursor := head;
      ghost var k := 0;
      while cursor != null
        invariant k <= |nodes| && cursor == At(nodes, k) && prev == At(nodes, k - 1)
        invariant forall i | 0 <= i < k :: nodes[i].id != id
        invariant Valid() && nodes == old(nodes)
        invariant forall n <- nodes :: n.next == old(n.next) && n.id == old(n.id) && n.value == old(n.value)
        decreases |nodes| - k
      {
        assert LinkAt(nodes, k);
        if cursor.id == id {
          FirstWithIdIs(nodes, id, k);
          Unlink(prev, cursor, k);
          return true;
        }
        prev := cursor;
        cursor := cursor.next;
        k := k + 1;
      }
      FirstWithIdIs(nodes, id, k);
      return false;
    }

    /** The pointer surgery around the node found. */
    method Unlink(prev: KObjectNode?, cursor: KObjectNode, ghost k: nat)
      requires Valid() && k < |nodes| && cursor == nodes[k] && prev == At(nodes, k - 1)
      modifies this, prev, cursor
      ensures Valid() && nodes == old(nodes)[..k] + old(nodes)[k + 1..] && cursor.next == null
      ensures forall n <- old(nodes) :: n.id == old(n.id) && n.value == old(n.value)
    {
      ghost var before := nodes;
      assert LinkAt(before, k) && (k > 0 ==> LinkAt(before, k - 1));
      if prev == null {
        head := cursor.next;
      } else {
        prev.next := cursor.next;
      }
      if tail == cursor {
        tail := prev;
      }
      cursor.next := null;
      if count > 0 {
        count := count - 1;
      }
      if count == 0 {
        head := null;
        tail := null;
      }
      nodes := before[..k] + before[k + 1..];
      forall i | 0 <= i < |nodes| ensures LinkAt(nodes, i) {
        var j := if i < k then i else i + 1;
        assert nodes[i] == before[j] && old(LinkAt(before, j)) && old(LinkAt(before, k));
        if i + 1 < |nodes| {
          assert nodes[i + 1] == before[if i + 1 < k then i + 1 else i + 2];
        }
      }
    }
  }
}
