/**
 * The sorted integer list of lab2: a chain of nodes under a head record,
 * kept in non-decreasing order. Each operation is modelled as one atomic
 * step: the per-node and head mutexes are not part of this model.
 *
 * The C functions take a `list*` that may be NULL; so do the methods here
 * (a `List?`), and a NULL handle makes each of them return with no effect.
 */
module SortedList {
  import opened CText

  // ---------------------------------------------------------------------
  // Specification on sequences
  // ---------------------------------------------------------------------

  ghost predicate Sorted(s: seq<int>) {
    forall i, j :: 0 <= i < j < |s| ==> s[i] <= s[j]
  }

  /** The sequence insert_value produces: v goes before the first element >= v. */
  function InsertSorted(s: seq<int>, v: int): seq<int>
    decreases |s|
  {
    if s == [] then [v]
    else if s[0] >= v then [v] + s
    else [s[0]] + InsertSorted(s[1..], v)
  }

  /** Index of the first element >= v, or |s| when there is none. */
  function FirstAtLeast(s: seq<int>, v: int): (k: nat)
    ensures k <= |s|
    ensures forall i :: 0 <= i < k ==> s[i] < v
    ensures k < |s| ==> s[k] >= v
    decreases |s|
  {
    if s == [] || s[0] >= v then 0 else 1 + FirstAtLeast(s[1..], v)
  }

  /** The sequence remove_value produces: only the first element equal to v goes. */
  function RemoveFirst(s: seq<int>, v: int): seq<int>
    decreases |s|
  {
    if s == [] then []
    else if s[0] == v then s[1..]
    else [s[0]] + RemoveFirst(s[1..], v)
  }

  /** How many elements of s satisfy p (what count_list counts). */
  function CountMatching(s: seq<int>, p: int -> bool): (n: nat)
    ensures n <= |s|
    decreases |s|
  {
    if s == [] then 0
    else CountMatching(s[..|s| - 1], p) + (if p(s[|s| - 1]) then 1 else 0)
  }

  /** What print_list writes before its final newline: each value and a space. */
  function Render(s: seq<int>): (out: string)
    ensures s != [] ==> |out| > 0 && out[|out| - 1] == ' '
    decreases |s|
  {
    if s == [] then "" else Render(s[..|s| - 1]) + IntToString(s[|s| - 1]) + " "
  }

  // ---------------------------------------------------------------------
  // Properties of the specification
  // ---------------------------------------------------------------------

  /** Insertion at k: all before k are < v and the element at k (if any) is >= v. */
  lemma {:induction false} InsertSortedAt(s: seq<int>, v: int, k: nat)
    requires k <= |s|
    requires forall i :: 0 <= i < k ==> s[i] < v
    requires k < |s| ==> s[k] >= v
    ensures InsertSorted(s, v) == s[..k] + [v] + s[k..]
    decreases k
  {
    if k == 0 {
      assert s[k..] == s;
    } else {
      InsertSortedAt(s[1..], v, k - 1);
      assert s[..k] == [s[0]] + s[1..][..k - 1];
      assert s[k..] == s[1..][k - 1..];
    }
  }

  /**
   * insert_value turns s into prefix + [v] + suffix with s == prefix + suffix,
   * every element of prefix < v, and suffix empty or starting with one >= v.
   */
  lemma InsertSortedShape(s: seq<int>, v: int)
    ensures exists k :: 0 <= k <= |s| && InsertSorted(s, v) == s[..k] + [v] + s[k..]
                        && (forall i :: 0 <= i < k ==> s[i] < v)
                        && (k < |s| ==> s[k] >= v)
  {
    var k := FirstAtLeast(s, v);
    InsertSortedAt(s, v, k);
  }

  /** Inserting adds exactly one v and loses nothing. */
  lemma {:induction false} InsertSortedMultiset(s: seq<int>, v: int)
    ensures multiset(InsertSorted(s, v)) == multiset(s) + multiset{v}
    decreases |s|
  {
    if s != [] && s[0] < v {
      InsertSortedMultiset(s[1..], v);
      assert s == [s[0]] + s[1..];
    }
  }

  /** After insert_value a sorted chain is still sorted. */
  lemma InsertPreservesSorted(s: seq<int>, v: int)
    requires Sorted(s)
    ensures Sorted(InsertSorted(s, v))
  {
    var k := FirstAtLeast(s, v);
    InsertSortedAt(s, v, k);
    SortedWith(s, v, k);
  }

  /** Putting v between the elements below it and the rest keeps a sorted sequence sorted. */
  lemma SortedWith(s: seq<int>, v: int, k: nat)
    requires Sorted(s) && k <= |s|
    requires forall i :: 0 <= i < k ==> s[i] < v
    requires k < |s| ==> s[k] >= v
    ensures Sorted(s[..k] + [v] + s[k..])
  {
    var r := s[..k] + [v] + s[k..];
    forall i, j | 0 <= i < j < |r| ensures r[i] <= r[j] {
      if j < k {
        assert r[i] == s[i] && r[j] == s[j];
      } else if j == k {
        assert r[i] == s[i] && r[j] == v;
      } else if i < k {
        assert r[i] == s[i] && r[j] == s[j - 1];
        assert s[i] <= s[j - 1];
      } else if i == k {
        assert r[i] == v && r[j] == s[j - 1];
        assert s[k] <= s[j - 1];
      } else {
        assert r[i] == s[i - 1] && r[j] == s[j - 1];
      }
    }
  }

  /** Removal at k: k holds the first v. */
  lemma {:induction false} RemoveFirstAt(s: seq<int>, v: int, k: nat)
    requires k < |s| && s[k] == v
    requires forall i :: 0 <= i < k ==> s[i] != v
    ensures RemoveFirst(s, v) == s[..k] + s[k + 1..]
    decreases k
  {
    if k > 0 {
      RemoveFirstAt(s[1..], v, k - 1);
      assert s[..k] == [s[0]] + s[1..][..k - 1];
      assert s[k + 1..] == s[1..][k..];
    }
  }

  /** remove_value for a value not in the list changes nothing. */
  lemma {:induction false} RemoveFirstAbsent(s: seq<int>, v: int)
    requires v !in s
    ensures RemoveFirst(s, v) == s
    decreases |s|
  {
    if s != [] {
      RemoveFirstAbsent(s[1..], v);
    }
  }

  /** Removing takes out exactly one v when there is one (duplicates beyond it stay). */
  lemma {:induction false} RemoveFirstMultiset(s: seq<int>, v: int)
    ensures multiset(RemoveFirst(s, v)) == multiset(s) - multiset{v}
    decreases |s|
  {
    if s != [] {
      assert s == [s[0]] + s[1..];
      if s[0] != v {
        RemoveFirstMultiset(s[1..], v);
      }
    }
  }

  /** Removing from a sorted chain leaves it sorted. */
  lemma RemovePreservesSorted(s: seq<int>, v: int)
    requires Sorted(s)
    ensures Sorted(RemoveFirst(s, v))
  {
    if v in s {
      var k :| 0 <= k < |s| && s[k] == v && forall i :: 0 <= i < k ==> s[i] != v
        by { FirstIndexExists(s, v); }
      RemoveFirstAt(s, v, k);
      SortedWithout(s, k);
    } else {
      RemoveFirstAbsent(s, v);
    }
  }

  /** Leaving one element out of a sorted sequence keeps it sorted. */
  lemma SortedWithout(s: seq<int>, k: nat)
    requires Sorted(s) && k < |s|
    ensures Sorted(s[..k] + s[k + 1..])
  {
    var r := s[..k] + s[k + 1..];
    assert forall m :: 0 <= m < |r| ==> r[m] == s[if m < k then m else m + 1];
    forall i, j | 0 <= i < j < |r| ensures r[i] <= r[j] {
      var i' := if i < k then i else i + 1;
      var j' := if j < k then j else j + 1;
      assert r[i] == s[i'] && r[j] == s[j'];
    }
  }

  lemma FirstIndexExists(s: seq<int>, v: int)
    requires v in s
    ensures exists k :: 0 <= k < |s| && s[k] == v && forall i :: 0 <= i < k ==> s[i] != v
  {
    var k :| 0 <= k < |s| && s[k] == v;
    FirstIndexBelow(s, v, k);
  }

  /** Some index at or below an occurrence k of v is the first occurrence. */
  lemma {:induction false} FirstIndexBelow(s: seq<int>, v: int, k: nat)
    requires k < |s| && s[k] == v
    ensures exists f :: 0 <= f <= k && s[f] == v && forall i :: 0 <= i < f ==> s[i] != v
    decreases k
  {
    if i :| 0 <= i < k && s[i] == v {
      FirstIndexBelow(s, v, i);
    }
  }

  /**
   * insert_value(v) then remove_value(v) restores the contents: the new node
   * is placed before every existing v, so it is the first v removal finds.
   */
  lemma {:induction false} InsertThenRemove(s: seq<int>, v: int)
    ensures RemoveFirst(InsertSorted(s, v), v) == s
    decreases |s|
  {
    if s != [] && s[0] < v {
      InsertThenRemove(s[1..], v);
    }
  }

  /** A predicate true everywhere counts every node. */
  lemma {:induction false} CountMatchingAll(s: seq<int>, p: int -> bool)
    requires forall i :: 0 <= i < |s| ==> p(s[i])
    ensures CountMatching(s, p) == |s|
    decreases |s|
  {
    if s != [] {
      var pre := s[..|s| - 1];
      assert forall i :: 0 <= i < |pre| ==> pre[i] == s[i];
      CountMatchingAll(pre, p);
    }
  }

  /** The decimal text of each value, in order. */
  function Formatted(s: seq<int>): (r: seq<string>)
    ensures |r| == |s|
    decreases |s|
  {
    if s == [] then [] else Formatted(s[..|s| - 1]) + [IntToString(s[|s| - 1])]
  }

  lemma {:induction false} FormattedAt(s: seq<int>, i: nat)
    requires i < |s|
    ensures Formatted(s)[i] == IntToString(s[i])
    decreases |s|
  {
    if i < |s| - 1 {
      FormattedAt(s[..|s| - 1], i);
    }
  }

  /** The printed line splits back (on spaces) into the values, in list order. */
  lemma {:induction false} RenderTokens(s: seq<int>)
    ensures Tokens(Render(s)) == Formatted(s)
    decreases |s|
  {
    if s != [] {
      var pre := s[..|s| - 1];
      var w := IntToString(s[|s| - 1]);
      RenderTokens(pre);
      TokensWordSpace(w);
      TokensAfterDelim(Render(pre), w + " ");
      assert Render(s) == Render(pre) + (w + " ");
    }
  }

  /** Render extends one value at a time. */
  lemma RenderPrefix(s: seq<int>, i: nat)
    requires i < |s|
    ensures Render(s[..i + 1]) == Render(s[..i]) + IntToString(s[i]) + " "
  {
    assert s[..i + 1][..i] == s[..i];
  }

  /** Reading back print_list's output (values up to the newline) yields the list. */
  lemma PrintedValues(s: seq<int>)
    ensures |Tokens(Render(s) + "\n")| == |s|
    ensures forall i :: 0 <= i < |s| ==> ParseInt(Tokens(Render(s) + "\n")[i]) == s[i]
  {
    RenderTokens(s);
    TokensSplit(Render(s), '\n', "");
    assert Render(s) + ['\n'] + "" == Render(s) + "\n";
    forall i | 0 <= i < |s| ensures ParseInt(Tokens(Render(s) + "\n")[i]) == s[i] {
      FormattedAt(s, i);
      ParseIntToString(s[i]);
    }
  }

  // ---------------------------------------------------------------------
  // The linked structure
  // ---------------------------------------------------------------------

  /** `struct node` without its mutex. */
  class Node {
    const value: int
    var next: Node?

    constructor (value: int)
      ensures this.value == value && next == null
    {
      this.value := value;
      next := null;
    }
  }

  /** The node that follows ns[i] in a chain laid out as ns, or null after the last. */
  function NextOf(ns: seq<Node>, i: nat): Node?
    requires i < |ns|
  {
    if i + 1 < |ns| then ns[i + 1] else null
  }

  /** Each node of ns points to the next one, and the last one to null. */
  ghost predicate Chained(ns: seq<Node>)
    reads ns
  {
    forall i :: 0 <= i < |ns| ==> ns[i].next == NextOf(ns, i)
  }

  /** No node occurs twice in ns: the chain has no cycle. */
  ghost predicate Distinct(ns: seq<Node>) {
    forall i, j :: 0 <= i < j < |ns| ==> ns[i] != ns[j]
  }

  /** A chain that ends in null cannot visit a node twice. */
  lemma ChainDistinct(ns: seq<Node>)
    requires Chained(ns)
    ensures Distinct(ns)
  {
    forall i, j | 0 <= i < j < |ns| ensures ns[i] != ns[j] {
      ChainNoRepeat(ns, i, j);
    }
  }

  /** Two positions of a chain hold different nodes: their successors differ, down to the final null. */
  lemma {:induction false} ChainNoRepeat(ns: seq<Node>, i: nat, j: nat)
    requires Chained(ns) && i < j < |ns|
    ensures ns[i] != ns[j]
    decreases |ns| - j
  {
    if j + 1 < |ns| {
      ChainNoRepeat(ns, i + 1, j + 1);
    }
    assert ns[i].next != ns[j].next;
  }

  /** `struct list`: the head pointer, with the chain as ghost state. */
  class List {
    var head: Node?
    ghost var nodes: seq<Node>    // the chain reachable from head, in order
    ghost var Contents: seq<int>  // the values along the chain
    ghost var Repr: set<object>

    ghost predicate Valid()
      reads this, Repr
    {
      && this in Repr
      && (forall i :: 0 <= i < |nodes| ==> nodes[i] in Repr)
      && |Contents| == |nodes|
      && head == (if nodes == [] then null else nodes[0])
      && (forall i :: 0 <= i < |nodes| ==> nodes[i].value == Contents[i])
      && Chained(nodes)
    }

    /** The node at index i of the chain, or null past its end. */
    ghost function NodeAt(i: nat): Node?
      reads this
    {
      if i < |nodes| then nodes[i] else null
    }

    /** create_list: a list with no nodes. */
    constructor ()
      ensures Valid() && fresh(Repr)
      ensures Contents == []
    {
      head := null;
      nodes := [];
      Contents := [];
      Repr := {this};
    }
  }

  /** print_node: the value and a space, or nothing for NULL. */
  function PrintNode(n: Node?): (out: string)
    reads n
    ensures n == null <==> out == ""
    ensures n != null ==> out[|out| - 1] == ' '
  {
    if n != null then IntToString(n.value) + " " else ""
  }

  /** What print_node writes for a node is one token, and it reads back as the node's value. */
  lemma PrintNodeReadsBack(n: Node)
    ensures Tokens(PrintNode(n)) == [IntToString(n.value)]
    ensures ParseInt(Tokens(PrintNode(n))[0]) == n.value
  {
    TokensWordSpace(IntToString(n.value));
    ParseIntToString(n.value);
  }

  /** insert_value: place a new node before the first node whose value is >= value. */
  method InsertValue(lst: List?, value: int)
    requires lst != null ==> lst.Valid()
    modifies if lst != null then lst.Repr else {}
    ensures lst != null ==> lst.Valid() && fresh(lst.Repr - old(lst.Repr))
    ensures lst != null ==> lst.Contents == InsertSorted(old(lst.Contents), value)
  {
    if lst == null {
      return;
    }
    var p := new Node(value);
    var pHead := lst.head;
    if pHead == null {
      // empty list: the new node becomes the only one
      lst.head := p;
      lst.nodes, lst.Contents, lst.Repr := [p], [value], lst.Repr + {p};
      assert Chained(lst.nodes) by {
        assert NextOf([p], 0) == null;
      }
      return;
    }
    var prev, curr, i := FindInsertPoint(lst, value);
    if curr.value >= value {
      if pHead == curr {
        LinkAtHead(lst, p);
      } else {
        ChainDistinct(lst.nodes);
        LinkBetween(lst, p, prev, curr, i);
      }
    } else {
      LinkAfter(lst, p, curr);
    }
  }

  /**
   * insert_value's traversal of a non-empty list: it stops at the first node
   * whose value is >= value, or at the last node. Returns that node (at
   * index i of the chain) and the one before it (the head when i is 0).
   */
  method FindInsertPoint(lst: List, value: int) returns (prev: Node, curr: Node, ghost i: nat)
    requires lst.Valid() && lst.head != null
    ensures i < |lst.nodes| && curr == lst.nodes[i] && prev == lst.nodes[if i == 0 then 0 else i - 1]
    ensures forall j :: 0 <= j < i ==> lst.Contents[j] < value
    ensures lst.Contents[i] >= value || i == |lst.nodes| - 1
  {
    prev, curr, i := lst.head, lst.head, 0;
    while true
      invariant i < |lst.nodes| && curr == lst.nodes[i] && prev == lst.nodes[if i == 0 then 0 else i - 1]
      invariant forall j :: 0 <= j < i ==> lst.Contents[j] < value
      decreases |lst.nodes| - i
    {
      if curr.value >= value {
        return;
      }
      var pNext := curr.next;
      if pNext == null {
        return;
      }
      assert curr.next == NextOf(lst.nodes, i);
      prev, curr, i := curr, pNext, i + 1;
    }
  }

  /** insert_value's branch for a new smallest value: p becomes the head. */
  method LinkAtHead(lst: List, p: Node)
    requires lst.Valid() && p !in lst.Repr && lst.nodes != [] && p.value <= lst.Contents[0]
    modifies lst, p
    ensures lst.Valid() && lst.Repr == old(lst.Repr) + {p}
    ensures lst.Contents == InsertSorted(old(lst.Contents), p.value)
  {
    ghost var s, ns := lst.Contents, lst.nodes;
    ChainDistinct(ns);
    assert forall j :: 0 <= j < |ns| ==> ns[j].next == NextOf(ns, j);
    p.next := lst.head;
    lst.head := p;
    Relinked(lst, ns, s, p, 0);
  }

  /** insert_value's branch for a value between prev (at i - 1) and curr (at i). */
  method LinkBetween(lst: List, p: Node, prev: Node, curr: Node, ghost i: nat)
    requires lst.Valid() && p !in lst.Repr
    requires 0 < i < |lst.nodes| && prev == lst.nodes[i - 1] && curr == lst.nodes[i]
    requires forall j :: 0 <= j < i ==> lst.Contents[j] < p.value
    requires lst.Contents[i] >= p.value
    modifies lst, prev, p
    ensures lst.Valid() && lst.Repr == old(lst.Repr) + {p}
    ensures lst.Contents == InsertSorted(old(lst.Contents), p.value)
  {
    ghost var s, ns := lst.Contents, lst.nodes;
    ChainDistinct(ns);
    assert forall j :: 0 <= j < |ns| ==> ns[j].next == NextOf(ns, j);
    prev.next := p;
    p.next := curr;
    Relinked(lst, ns, s, p, i);
  }

  /** insert_value's branch for a value above all others: p goes after the last node. */
  method LinkAfter(lst: List, p: Node, last: Node)
    requires lst.Valid() && p !in lst.Repr
    requires lst.nodes != [] && last == lst.nodes[|lst.nodes| - 1]
    requires forall j :: 0 <= j < |lst.Contents| ==> lst.Contents[j] < p.value
    modifies lst, last, p
    ensures lst.Valid() && lst.Repr == old(lst.Repr) + {p}
    ensures lst.Contents == InsertSorted(old(lst.Contents), p.value)
  {
    ghost var s, ns := lst.Contents, lst.nodes;
    ChainDistinct(ns);
    assert forall j :: 0 <= j < |ns| ==> ns[j].next == NextOf(ns, j);
    p.next := null;
    last.next := p;
    Relinked(lst, ns, s, p, |ns|);
  }

  /**
   * The ghost bookkeeping for a node p linked in at position i of the chain
   * ns: once the pointers are set, the list is valid again and its contents
   * are InsertSorted of the old ones.
   */
  ghost method Relinked(lst: List, ns: seq<Node>, s: seq<int>, p: Node, i: nat)
    requires i <= |ns| && |s| == |ns|
    requires forall j :: 0 <= j < |ns| ==> ns[j].value == s[j]
    requires forall j :: 0 <= j < i ==> s[j] < p.value
    requires i < |ns| ==> s[i] >= p.value
    requires lst in lst.Repr && forall j :: 0 <= j < |ns| ==> ns[j] in lst.Repr
    requires p !in lst.Repr
    requires Distinct(ns)
    requires i > 0 ==> ns[i - 1].next == p
    requires p.next == if i < |ns| then ns[i] else null
    requires forall j :: 0 <= j < |ns| && j != i - 1 ==> ns[j].next == NextOf(ns, j)
    requires lst.head == if i == 0 then p else ns[0]
    modifies lst
    ensures lst.nodes == ns[..i] + [p] + ns[i..] && lst.Repr == old(lst.Repr) + {p}
    ensures lst.Valid() && lst.Contents == InsertSorted(s, p.value)
  {
    InsertSortedAt(s, p.value, i);
    Spliced(ns, p, i);
    var ns' := ns[..i] + [p] + ns[i..];
    var s' := s[..i] + [p.value] + s[i..];
    var repr' := lst.Repr + {p};
    forall j | 0 <= j < |ns'| ensures ns'[j].value == s'[j] && ns'[j] in repr' {
      if j < i {
        assert ns'[j] == ns[j] && s'[j] == s[j];
      } else if i < j {
        assert ns'[j] == ns[j - 1] && s'[j] == s[j - 1];
      }
    }
    assert ns'[0] == if i == 0 then p else ns[0];
    lst.nodes, lst.Contents, lst.Repr := ns', s', repr';
  }

  /** Splicing p into the chain ns at i keeps it a chain. */
  lemma Spliced(ns: seq<Node>, p: Node, i: nat)
    requires i <= |ns|
    requires Distinct(ns) && p !in ns
    requires i > 0 ==> ns[i - 1].next == p
    requires p.next == if i < |ns| then ns[i] else null
    requires forall j :: 0 <= j < |ns| && j != i - 1 ==> ns[j].next == NextOf(ns, j)
    ensures Chained(ns[..i] + [p] + ns[i..])
  {
    var ns' := ns[..i] + [p] + ns[i..];
    assert |ns'| == |ns| + 1;
    assert forall j :: 0 <= j < i ==> ns'[j] == ns[j];
    assert ns'[i] == p;
    assert forall j :: i < j < |ns'| ==> ns'[j] == ns[j - 1];
    forall j | 0 <= j < |ns'| ensures ns'[j].next == NextOf(ns', j) {
      if j < i - 1 {
        assert ns'[j + 1] == ns[j + 1];
      } else if j == i - 1 || j == i {
      } else {
        assert j + 1 < |ns'| ==> ns'[j + 1] == ns[j];
      }
    }
  }

  /**
   * remove_value: unlink the first node whose value equals value, if there is
   * one. The unlinked node, which the source destroys and frees, is returned
   * as reclaimed (ghost): it held value and is no longer in the chain.
   */
  method RemoveValue(lst: List?, value: int) returns (ghost reclaimed: Node?)
    requires lst != null ==> lst.Valid()
    modifies if lst != null then lst.Repr else {}
    ensures lst != null ==> lst.Valid() && lst.Repr == old(lst.Repr)
    ensures lst != null ==> lst.Contents == RemoveFirst(old(lst.Contents), value)
    ensures lst != null && value in old(lst.Contents) ==>
      reclaimed != null && reclaimed in old(lst.nodes) && reclaimed !in lst.nodes && reclaimed.value == value
    ensures lst == null || value !in old(lst.Contents) ==> reclaimed == null
  {
    reclaimed := null;
    if lst == null {
      return;
    }
    var pHead := lst.head;
    if pHead == null {
      // empty list: nothing to remove
      return;
    }
    ghost var s := lst.Contents;
    ghost var ns := lst.nodes;
    var prev: Node := pHead;
    var curr: Node? := pHead;
    ghost var i := 0;
    while curr != null
      invariant lst.Valid() && lst.nodes == ns && lst.Contents == s && lst.Repr == old(lst.Repr)
      invariant 0 <= i <= |ns| && curr == lst.NodeAt(i)
      invariant prev == ns[if i == 0 then 0 else i - 1]
      invariant forall j :: 0 <= j < i ==> s[j] != value
      decreases |ns| - i
    {
      if curr.value == value {
        assert forall j :: 0 <= j < |ns| ==> ns[j].next == NextOf(ns, j);
        ChainDistinct(ns);
        if curr == pHead {
          // the head node goes: the head now points past it
          lst.head := curr.next;
        } else {
          // a node in between goes: its predecessor now points past it
          var pNext := curr.next;
          prev.next := pNext;
        }
        Unlinked(lst, ns, s, value, i);
        reclaimed := curr;
        break;
      } else {
        var pNext := curr.next;
        prev := curr;
        curr := pNext;
        i := i + 1;
      }
    }
    if i == |ns| {
      // the value is not in the list
      RemoveFirstAbsent(s, value);
    }
  }

  /**
   * The ghost bookkeeping for unlinking ns[i], the first node holding value:
   * once the pointer around it is set, the list is valid again and its
   * contents are RemoveFirst of the old ones.
   */
  ghost method Unlinked(lst: List, ns: seq<Node>, s: seq<int>, value: int, i: nat)
    requires i < |ns| && |s| == |ns| && s[i] == value
    requires forall j :: 0 <= j < |ns| ==> ns[j].value == s[j]
    requires forall j :: 0 <= j < i ==> s[j] != value
    requires lst in lst.Repr && forall j :: 0 <= j < |ns| ==> ns[j] in lst.Repr
    requires Distinct(ns)
    requires i > 0 ==> ns[i - 1].next == NextOf(ns, i)
    requires forall j :: 0 <= j < |ns| && j != i - 1 ==> ns[j].next == NextOf(ns, j)
    requires lst.head == if i == 0 then NextOf(ns, 0) else ns[0]
    modifies lst
    ensures lst.nodes == ns[..i] + ns[i + 1..] && lst.Repr == old(lst.Repr)
    ensures lst.Valid() && lst.Contents == RemoveFirst(s, value)
    ensures ns[i] !in lst.nodes
  {
    RemoveFirstAt(s, value, i);
    Bypassed(ns, i);
    var ns' := ns[..i] + ns[i + 1..];
    var s' := s[..i] + s[i + 1..];
    forall j | 0 <= j < |ns'| ensures ns'[j].value == s'[j] && ns'[j] in lst.Repr {
      if j < i {
        assert ns'[j] == ns[j] && s'[j] == s[j];
      } else {
        assert ns'[j] == ns[j + 1] && s'[j] == s[j + 1];
      }
    }
    lst.nodes, lst.Contents := ns', s';
  }

  /** Leaving ns[i] out of the chain ns keeps it a chain. */
  lemma Bypassed(ns: seq<Node>, i: nat)
    requires i < |ns|
    requires Distinct(ns)
    requires i > 0 ==> ns[i - 1].next == NextOf(ns, i)
    requires forall j :: 0 <= j < |ns| && j != i - 1 ==> ns[j].next == NextOf(ns, j)
    ensures Chained(ns[..i] + ns[i + 1..])
  {
    var ns' := ns[..i] + ns[i + 1..];
    assert |ns'| == |ns| - 1;
    assert forall j :: 0 <= j < i ==> ns'[j] == ns[j];
    assert forall j :: i <= j < |ns'| ==> ns'[j] == ns[j + 1];
    forall j | 0 <= j < |ns'| ensures ns'[j].next == NextOf(ns', j) {
      if j < i - 1 {
        assert ns'[j + 1] == ns[j + 1];
      } else if j == i - 1 {
        assert j + 1 < |ns'| ==> ns'[j + 1] == ns[j + 2];
      } else {
        assert j + 1 < |ns'| ==> ns'[j + 1] == ns[j + 2];
      }
    }
  }

  /** print_list: every value followed by a space, in list order, then a newline. */
  method PrintList(lst: List?) returns (out: string)
    requires lst != null ==> lst.Valid()
    ensures lst == null ==> out == ""
    ensures lst != null ==> out == Render(lst.Contents) + "\n"
  {
    if lst == null {
      return "";
    }
    out := "";
    var node := lst.head;
    ghost var i := 0;
    while node != null
      invariant 0 <= i <= |lst.nodes| && node == lst.NodeAt(i)
      invariant out == Render(lst.Contents[..i])
      decreases |lst.nodes| - i
    {
      RenderPrefix(lst.Contents, i);
      assert node.value == lst.Contents[i] && node.next == lst.NodeAt(i + 1);
      out := out + PrintNode(node);
      node := node.next;
      i := i + 1;
    }
    assert lst.Contents[..i] == lst.Contents;
    out := out + "\n";
  }

  /**
   * count_list: the number of values satisfying pred, together with the
   * line it prints ("N items were counted").
   */
  method CountList(lst: List?, pred: int -> bool) returns (count: nat, out: string)
    requires lst != null ==> lst.Valid()
    ensures count == if lst == null then 0 else CountMatching(lst.Contents, pred)
    ensures out == IntToString(count) + " items were counted\n"
  {
    count := 0;
    if lst != null {
      var node := lst.head;
      ghost var i := 0;
      while node != null
        invariant 0 <= i <= |lst.nodes| && node == lst.NodeAt(i)
        invariant count == CountMatching(lst.Contents[..i], pred)
        decreases |lst.nodes| - i
      {
        assert lst.Contents[..i + 1][..i] == lst.Contents[..i];
        if pred(node.value) {
          count := count + 1;
        }
        node := node.next;
        i := i + 1;
      }
      assert lst.Contents[..i] == lst.Contents;
    }
    out := IntToString(count) + " items were counted\n";
  }

  /**
   * delete_list: detach the chain from the head, then walk it reclaiming
   * every node once. Returns how many nodes were reclaimed, and (as ghost)
   * which ones, in order.
   */
  method DeleteList(lst: List?) returns (freed: nat, ghost reclaimed: seq<Node>)
    requires lst != null ==> lst.Valid()
    modifies lst
    ensures lst != null ==> lst.Valid() && lst.head == null && lst.Contents == []
    ensures lst != null ==> reclaimed == old(lst.nodes) && Distinct(reclaimed) && freed == |old(lst.Contents)|
    ensures lst == null ==> freed == 0
  {
    freed, reclaimed := 0, [];
    if lst == null {
      return;
    }
    var pHead := lst.head;
    ghost var ns := lst.nodes;
    ChainDistinct(ns);
    lst.head := null;
    lst.nodes, lst.Contents := [], [];
    while pHead != null
      invariant Chained(ns)
      invariant 0 <= freed <= |ns| && pHead == (if freed < |ns| then ns[freed] else null)
      invariant reclaimed == ns[..freed]
      decreases |ns| - freed
    {
      reclaimed := reclaimed + [pHead];
      pHead := pHead.next;
      freed := freed + 1;
    }
    assert ns[..freed] == ns;
  }
}
