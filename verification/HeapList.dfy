/** The intrusive circular doubly linked list: heap nodes, no separate list object. */
module HeapList {
  import opened Seqs

  class Node {
    var next: Node?
    var prev: Node?

    constructor ()
      ensures next == null && prev == null
    {
      next, prev := null, null;
    }
  }

  /** Place after i, and before i, in a circle of n. */
  function Succ(i: nat, n: nat): nat
    requires i < n
  {
    if i + 1 == n then 0 else i + 1
  }

  function Pred(i: nat, n: nat): nat
    requires i < n
  {
    if i == 0 then n - 1 else i - 1
  }

  ghost predicate Distinct(s: seq<Node>) {
    forall i, j :: 0 <= i < j < |s| ==> s[i] != s[j]
  }

  /** s lists the nodes of one circle in `next` order; s[0] is the list head, the others are the elements. */
  ghost predicate Circle(s: seq<Node>)
    reads s
  {
    && |s| > 0
    && Distinct(s)
    && forall i :: 0 <= i < |s| ==> s[i].next == s[Succ(i, |s|)] && s[i].prev == s[Pred(i, |s|)]
  }

  /** Following `next` and then `prev`, or the other way round, leads back. */
  lemma LinksAreInverse(s: seq<Node>)
    requires Circle(s)
    ensures forall n :: n in s ==> n.next != null && n.prev != null && n.next.prev == n && n.prev.next == n
  {
    forall n | n in s
      ensures n.next != null && n.prev != null && n.next.prev == n && n.prev.next == n
    {
      var i :| 0 <= i < |s| && s[i] == n;
      assert s[Succ(i, |s|)].prev == s[Pred(Succ(i, |s|), |s|)];
      assert s[Pred(i, |s|)].next == s[Succ(Pred(i, |s|), |s|)];
    }
  }

  method InitListNode(list: Node?)
    modifies list
    ensures list != null ==> Circle([list])
  {
    if list == null { return; }
    list.prev := list;
    list.next := list;
  }

  /** Link `node` in between two nodes that may be one and the same. */
  method ListAddBetween(prev: Node?, node: Node?, next: Node?)
    requires node != null ==> node != prev && node != next
    modifies prev, node, next
    ensures if prev == null || node == null || next == null
            then (prev != null ==> unchanged(prev)) && (node != null ==> unchanged(node)) && (next != null ==> unchanged(next))
            else && prev.next == node && node.prev == prev && node.next == next && next.prev == node
                 && (prev != next ==> prev.prev == old(prev.prev) && next.next == old(next.next))
  {
    if prev == null || node == null || next == null { return; }
    prev.next := node;
    node.prev := prev;
    node.next := next;
    next.prev := node;
  }

  method ListAddHead(node: Node?, head: Node, ghost s: seq<Node>)
    requires Circle(s) && s[0] == head && node !in s
    modifies node, head, head.next
    ensures if node == null then Circle(s) else Circle([head, node] + s[1..])
  {
    ListAddBetween(head, node, head.next);
    ghost var t := [head, node] + s[1..];
    assert node != null ==> forall i :: 2 <= i < |t| ==> t[i] == s[i - 1];
  }

  method ListAdd(node: Node?, head: Node, ghost s: seq<Node>)
    requires Circle(s) && s[0] == head && node !in s
    modifies node, head, head.prev
    ensures if node == null then Circle(s) else Circle(s + [node])
  {
    ListAddBetween(head.prev, node, head);
  }

  method ListDel(node: Node?, ghost s: seq<Node>, ghost i: nat)
    requires node != null ==> Circle(s) && i < |s| && s[i] == node
    modifies if node == null then {} else {node, node.prev, node.next}
    ensures node != null ==> node.next == null && node.prev == null && (|s| > 1 ==> Circle(RemoveAt(s, i)))
  {
    if node == null { return; }
    ghost var n := |s|;
    assert forall j :: 0 <= j < n && j != i ==> s[j] != node;
    assert forall j :: 0 <= j < n && j != Pred(i, n) ==> s[j] != s[Pred(i, n)];
    assert forall j :: 0 <= j < n && j != Succ(i, n) ==> s[j] != s[Succ(i, n)];
    node.prev.next := node.next;
    node.next.prev := node.prev;
    node.prev := null;
    node.next := null;
    if |s| > 1 {
      CloseGap(s, i);
    }
  }

  /** With node i bridged over, the others form a circle. */
  lemma CloseGap(s: seq<Node>, i: nat)
    requires 1 < |s| && i < |s| && Distinct(s)
    requires forall j :: 0 <= j < |s| && j != i ==>
               && s[j].next == s[if j == Pred(i, |s|) then Succ(i, |s|) else Succ(j, |s|)]
               && s[j].prev == s[if j == Succ(i, |s|) then Pred(i, |s|) else Pred(j, |s|)]
    ensures Circle(RemoveAt(s, i))
  {
    var t := RemoveAt(s, i);
    RemoveAtSkips(s, i);
    assert Distinct(t);
    forall k | 0 <= k < |t|
      ensures t[k].next == t[Succ(k, |t|)] && t[k].prev == t[Pred(k, |t|)]
    {
      var j := Skip(k, i);
      assert t[k] == s[j] && j != i;
      assert t[Succ(k, |t|)] == s[Skip(Succ(k, |t|), i)] && t[Pred(k, |t|)] == s[Skip(Pred(k, |t|), i)];
    }
  }

  method ListEmpty(head: Node?, ghost s: seq<Node>) returns (empty: bool)
    requires head != null ==> Circle(s) && s[0] == head
    ensures head == null ==> empty
    ensures head != null ==> empty == (|s| == 1)
  {
    if head == null { return true; }
    empty := head.prev == head;
  }

  /** Number of elements; 0 for no list and for a node that was unlinked. */
  method ListSize(head: Node?, ghost s: seq<Node>) returns (cnt: nat)
    requires head != null && head.next != null ==> Circle(s) && s[0] == head
    ensures cnt == if head == null || head.next == null then 0 else |s| - 1
  {
    if head == null { return 0; }
    cnt := 0;
    var a := head;
    while true
      invariant head.next == null ==> cnt == 0 && a == head
      invariant head.next != null ==> cnt < |s| && a == s[cnt]
      decreases |s| - cnt
    {
      var b := a.next;
      if b == null || head == b { break; }
      cnt := cnt + 1;
      a := b;
    }
  }

  // Removal while iterating.

  /** Unlink the node at the cursor and step the cursor back, so that the loop's own step moves on. */
  method ListPop(node: Node, ghost s: seq<Node>, ghost i: nat) returns (cursor: Node, removed: Node)
    requires Circle(s) && 1 <= i < |s| && s[i] == node
    modifies node, node.prev, node.next
    ensures cursor == s[i - 1] && removed == node
    ensures removed.next == null && removed.prev == null && Circle(RemoveAt(s, i))
  {
    var a := node.prev;
    removed := node;
    ListDel(node, s, i);
    cursor := a;
  }

  /** The nodes of s outside `chosen`, in order. */
  ghost function Kept(s: seq<Node>, chosen: set<Node>): (r: seq<Node>)
    ensures forall n :: n in r ==> n in s && n !in chosen
    ensures forall n :: n in s && n !in chosen ==> n in r
  {
    if s == [] then []
    else Kept(s[..|s| - 1], chosen) + if s[|s| - 1] in chosen then [] else [s[|s| - 1]]
  }

  /** The circle when the loop is about to visit s[i]. */
  ghost function Mid(s: seq<Node>, i: nat, chosen: set<Node>): seq<Node>
    requires 1 <= i <= |s|
  {
    [s[0]] + Kept(s[1..i], chosen) + s[i..]
  }

  /** Where the loop stands in that circle. */
  ghost function At(s: seq<Node>, i: nat, chosen: set<Node>): (at: nat)
    requires 1 <= i <= |s|
    ensures 1 <= at <= |Mid(s, i, chosen)|
    ensures i < |s| ==> at < |Mid(s, i, chosen)| && Mid(s, i, chosen)[at] == s[i]
  {
    1 + |Kept(s[1..i], chosen)|
  }

  lemma MidEnds(s: seq<Node>, chosen: set<Node>)
    requires |s| > 0
    ensures Mid(s, 1, chosen) == s && Mid(s, |s|, chosen) == [s[0]] + Kept(s[1..], chosen)
  {
    assert s[1..1] == [] && s == [s[0]] + s[1..];
    assert s[1..|s|] == s[1..];
  }

  lemma MidStep(s: seq<Node>, i: nat, chosen: set<Node>)
    requires 1 <= i < |s|
    ensures if s[i] in chosen
            then Mid(s, i + 1, chosen) == RemoveAt(Mid(s, i, chosen), At(s, i, chosen)) && At(s, i + 1, chosen) == At(s, i, chosen)
            else Mid(s, i + 1, chosen) == Mid(s, i, chosen) && At(s, i + 1, chosen) == At(s, i, chosen) + 1
    ensures Mid(s, i + 1, chosen)[At(s, i + 1, chosen) - 1] == if s[i] in chosen then Mid(s, i, chosen)[At(s, i, chosen) - 1] else s[i]
  {
    var before := [s[0]] + Kept(s[1..i], chosen);
    assert s[1..i + 1][..i - 1] == s[1..i];
    assert Mid(s, i, chosen) == before + ([s[i]] + s[i + 1..]);
    if s[i] in chosen {
      assert Mid(s, i + 1, chosen) == before + s[i + 1..];
    } else {
      assert Mid(s, i + 1, chosen) == (before + [s[i]]) + s[i + 1..];
    }
  }

  lemma NextOfMid(s: seq<Node>, i: nat, chosen: set<Node>)
    requires 1 <= i <= |s| && Circle(Mid(s, i, chosen))
    ensures Mid(s, i, chosen)[At(s, i, chosen) - 1].next == if i < |s| then s[i] else s[0]
  {}

  lemma LinksStayInside(s: seq<Node>, i: nat, chosen: set<Node>)
    requires 1 <= i < |s| && s[0] !in chosen && Distinct(s) && Circle(Mid(s, i, chosen))
    ensures s[i].next in s && s[i].prev in s
    ensures forall k :: 1 <= k < i && s[k] in chosen ==> s[k] != s[i] && s[k] != s[i].next && s[k] != s[i].prev
  {
    var t := Mid(s, i, chosen);
    forall k | 1 <= k < i && s[k] in chosen
      ensures s[k] !in t
    {}
    var at := At(s, i, chosen);
    assert s[i].next == t[Succ(at, |t|)] && s[i].prev == t[Pred(at, |t|)];
    assert forall n :: n in t ==> n in s;
  }

  /** A list_for_each loop whose body pops the nodes in `chosen`. */
  method ForEachPop(head: Node, chosen: set<Node>, ghost s: seq<Node>) returns (visited: seq<Node>)
    requires Circle(s) && s[0] == head && head !in chosen
    modifies s
    ensures visited == s[1..]
    ensures Circle([head] + Kept(s[1..], chosen))
    ensures forall k :: 1 <= k < |s| && s[k] in chosen ==> s[k].next == null && s[k].prev == null
  {
    visited := [];
    ghost var i := 1;
    var pos := head.next;
    assert Circle(Mid(s, 1, chosen)) by { MidEnds(s, chosen); }
    while pos != head
      invariant 1 <= i <= |s|
      invariant visited == s[1..i]
      invariant Circle(Mid(s, i, chosen))
      invariant pos == if i < |s| then s[i] else head
      invariant forall k :: 1 <= k < i && s[k] in chosen ==> s[k].next == null && s[k].prev == null
      decreases |s| - i
    {
      visited := visited + [pos];
      assert visited == s[1..i + 1];
      pos := VisitOne(pos, chosen, s, i);
      i := i + 1;
    }
    assert i == |s|;
    assert s[1..i] == s[1..];
    assert Circle([head] + Kept(s[1..], chosen)) by { MidEnds(s, chosen); }
  }

  /** Pop the node the loop stands on: the cursor is then the one that precedes the next node. */
  method PopVisited(pos: Node, chosen: set<Node>, ghost s: seq<Node>, ghost i: nat) returns (cursor: Node)
    requires 1 <= i < |s| && s[i] == pos && pos in chosen && s[0] !in chosen && Distinct(s)
    requires Circle(Mid(s, i, chosen))
    requires forall k :: 1 <= k < i && s[k] in chosen ==> s[k].next == null && s[k].prev == null
    modifies s
    ensures Circle(Mid(s, i + 1, chosen)) && cursor == Mid(s, i + 1, chosen)[At(s, i + 1, chosen) - 1]
    ensures forall k :: 1 <= k < i + 1 && s[k] in chosen ==> s[k].next == null && s[k].prev == null
  {
    ghost var mid, at := Mid(s, i, chosen), At(s, i, chosen);
    MidStep(s, i, chosen);
    LinksStayInside(s, i, chosen);
    var removed;
    cursor, removed := ListPop(pos, mid, at);
  }

  /** The body of that loop and its step: pop or not, the cursor ends on the next original node. */
  method VisitOne(pos: Node, chosen: set<Node>, ghost s: seq<Node>, ghost i: nat) returns (next: Node)
    requires 1 <= i < |s| && s[i] == pos && s[0] !in chosen && Distinct(s)
    requires Circle(Mid(s, i, chosen))
    requires forall k :: 1 <= k < i && s[k] in chosen ==> s[k].next == null && s[k].prev == null
    modifies s
    ensures Circle(Mid(s, i + 1, chosen)) && next == if i + 1 < |s| then s[i + 1] else s[0]
    ensures forall k :: 1 <= k < i + 1 && s[k] in chosen ==> s[k].next == null && s[k].prev == null
  {
    var cursor := pos;
    if pos in chosen {
      cursor := PopVisited(pos, chosen, s, i);
    } else {
      MidStep(s, i, chosen);
    }
    NextOfMid(s, i + 1, chosen);
    next := cursor.next;
  }
}
