/** The binary heap shared by the search algorithms. Entries are ordered by priority and, when the
    heap was built with a tie-breaker, by item id among equal priorities. */
module MinHeaps {

  import opened Graphs

  datatype Entry = Entry(item: NodeId, priority: real)

  /** `a` may leave the heap before `b`. Without a tie-breaker only the priorities are compared. */
  predicate EntryLeq(tieBreak: bool, a: Entry, b: Entry) {
    a.priority < b.priority || (a.priority == b.priority && (!tieBreak || a.item <= b.item))
  }

  function Parent(i: nat): nat
    requires i > 0
  {
    (i - 1) / 2
  }

  /** The entry at `i` is at least its parent. */
  predicate Ordered(tie: bool, s: seq<Entry>, i: int)
    requires 0 < i < |s|
  {
    EntryLeq(tie, s[Parent(i)], s[i])
  }

  /** The entry at `i` is at least its grandparent. */
  predicate OrderedTwice(tie: bool, s: seq<Entry>, i: int)
    requires 0 < i < |s| && Parent(i) > 0
  {
    EntryLeq(tie, s[Parent(Parent(i))], s[i])
  }

  predicate IsHeap(tie: bool, s: seq<Entry>) {
    forall i :: 0 < i < |s| ==> Ordered(tie, s, i)
  }

  /** A heap, except that the entry at `hole` may be smaller than its parent. */
  predicate HeapExceptAbove(tie: bool, s: seq<Entry>, hole: nat) {
    && (forall i :: 0 < i < |s| && i != hole ==> Ordered(tie, s, i))
    && (hole > 0 ==> forall i :: 0 < i < |s| && Parent(i) == hole ==> OrderedTwice(tie, s, i))
  }

  /** A heap, except that the entry at `hole` may be larger than its children. */
  predicate HeapExceptBelow(tie: bool, s: seq<Entry>, hole: nat) {
    && (forall i :: 0 < i < |s| && Parent(i) != hole ==> Ordered(tie, s, i))
    && (hole > 0 ==> forall i :: 0 < i < |s| && Parent(i) == hole ==> OrderedTwice(tie, s, i))
  }

  /** The root of a heap is a least entry. */
  lemma {:induction false} RootIsLeast(tie: bool, s: seq<Entry>, i: nat)
    requires IsHeap(tie, s)
    requires i < |s|
    ensures EntryLeq(tie, s[0], s[i])
    decreases i
  {
    if i > 0 {
      RootIsLeast(tie, s, Parent(i));
      assert Ordered(tie, s, i);
    }
  }

  function Swap(s: seq<Entry>, i: nat, j: nat): (r: seq<Entry>)
    requires i < |s| && j < |s|
  {
    s[i := s[j]][j := s[i]]
  }

  lemma SwapKeepsContents(s: seq<Entry>, i: nat, j: nat)
    requires i < |s| && j < |s|
    ensures multiset(Swap(s, i, j)) == multiset(s)
  {
  }

  /** One step of sifting up: the hole moves to the parent. */
  lemma SwapUp(tie: bool, s: seq<Entry>, c: nat)
    requires 0 < c < |s|
    requires HeapExceptAbove(tie, s, c)
    requires !EntryLeq(tie, s[Parent(c)], s[c])
    ensures HeapExceptAbove(tie, Swap(s, Parent(c), c), Parent(c))
  {
    var p, t := Parent(c), Swap(s, Parent(c), c);
    forall i | 0 < i < |t| && i != p
      ensures Ordered(tie, t, i)
    {
      if i != c {
        assert Ordered(tie, s, i);
        if Parent(i) == c {
          assert OrderedTwice(tie, s, i);
        }
      }
    }
    if p > 0 {
      assert Ordered(tie, s, p);
      forall i | 0 < i < |t| && Parent(i) == p
        ensures OrderedTwice(tie, t, i)
      {
        assert i == c || Ordered(tie, s, i);
      }
    }
  }

  /** One step of sifting down: the hole moves to the smaller child. */
  lemma SwapDown(tie: bool, s: seq<Entry>, c: nat, m: nat)
    requires 0 < m < |s| && c == Parent(m)
    requires HeapExceptBelow(tie, s, c)
    requires !EntryLeq(tie, s[c], s[m])
    requires forall k :: 0 < k < |s| && Parent(k) == c ==> EntryLeq(tie, s[m], s[k])
    ensures HeapExceptBelow(tie, Swap(s, c, m), m)
  {
    var t := Swap(s, c, m);
    forall i | 0 < i < |t| && Parent(i) != m
      ensures Ordered(tie, t, i)
    {
      if Parent(i) != c {
        assert Ordered(tie, s, i);
        if i == c {
          assert OrderedTwice(tie, s, m);
        }
      }
    }
    forall i | 0 < i < |t| && Parent(i) == m
      ensures OrderedTwice(tie, t, i)
    {
      assert Ordered(tie, s, i);
    }
  }

  /** With no child below `c` smaller than it, the hole at `c` is closed. */
  lemma HoleClosed(tie: bool, s: seq<Entry>, c: nat)
    requires c < |s| && HeapExceptBelow(tie, s, c)
    requires 2 * c + 1 < |s| ==> EntryLeq(tie, s[c], s[2 * c + 1])
    requires 2 * c + 2 < |s| ==> EntryLeq(tie, s[c], s[2 * c + 2])
    ensures IsHeap(tie, s)
  {
    forall i | 0 < i < |s|
      ensures Ordered(tie, s, i)
    {
      if Parent(i) == c {
        assert i == 2 * c + 1 || i == 2 * c + 2;
      }
    }
  }

  lemma AppendOpensHole(tie: bool, s: seq<Entry>, e: Entry)
    requires IsHeap(tie, s)
    ensures HeapExceptAbove(tie, s + [e], |s|)
  {
    var t := s + [e];
    forall i | 0 < i < |t| && i != |s|
      ensures Ordered(tie, t, i)
    {
      assert Ordered(tie, s, i);
    }
  }

  /** The heap with its last entry moved over the removed root. */
  function LastToRoot(s: seq<Entry>): (t: seq<Entry>)
    requires |s| > 1
  {
    s[..|s| - 1][0 := s[|s| - 1]]
  }

  lemma LastToRootOpensHole(tie: bool, s: seq<Entry>)
    requires |s| > 1 && IsHeap(tie, s)
    ensures HeapExceptBelow(tie, LastToRoot(s), 0)
    ensures multiset(LastToRoot(s)) == multiset(s) - multiset{s[0]}
  {
    var n := |s| - 1;
    assert s == [s[0]] + s[1..n] + [s[n]];
    assert LastToRoot(s) == [s[n]] + s[1..n];
    forall i | 0 < i < n && Parent(i) != 0
      ensures Ordered(tie, LastToRoot(s), i)
    {
      assert Ordered(tie, s, i);
    }
  }

  /** `e` is one of the entries that may leave first. */
  ghost predicate IsFirst(tie: bool, entries: multiset<Entry>, e: Entry) {
    e in entries && forall x :: x in entries ==> EntryLeq(tie, e, x)
  }

  class MinHeap {
    const tieBreak: bool
    var heap: seq<Entry>

    ghost predicate Valid()
      reads this
    {
      IsHeap(tieBreak, heap)
    }

    ghost function Contents(): multiset<Entry>
      reads this
    {
      multiset(heap)
    }

    constructor (tieBreak: bool)
      ensures Valid() && Contents() == multiset{} && this.tieBreak == tieBreak
    {
      this.tieBreak := tieBreak;
      heap := [];
    }

    method IsEmpty() returns (b: bool)
      ensures b <==> Contents() == multiset{}
    {
      b := |heap| == 0;
      assert |heap| > 0 ==> heap[0] in multiset(heap);
    }

    /** The least priority, or None where the original answers Infinity. */
    method PeekPriority() returns (r: Option<real>)
      requires Valid()
      ensures r.None? <==> Contents() == multiset{}
      ensures r.Some? ==> (exists e :: e in Contents() && e.priority == r.value)
                          && forall e :: e in Contents() ==> r.value <= e.priority
    {
      if |heap| == 0 {
        return None;
      }
      assert heap[0] in multiset(heap);
      forall e | e in multiset(heap) ensures heap[0].priority <= e.priority {
        var i :| 0 <= i < |heap| && heap[i] == e;
        RootIsLeast(tieBreak, heap, i);
      }
      r := Some(heap[0].priority);
    }

    method Insert(item: NodeId, priority: real)
      requires Valid()
      modifies this
      ensures Valid()
      ensures Contents() == old(Contents()) + multiset{Entry(item, priority)}
    {
      AppendOpensHole(tieBreak, heap, Entry(item, priority));
      heap := heap + [Entry(item, priority)];
      BubbleUp(|heap| - 1);
    }

    /** Removes a least entry; None exactly on the empty heap. */
    method ExtractMin() returns (r: Option<Entry>)
      requires Valid()
      modifies this
      ensures Valid()
      ensures r.None? <==> old(Contents()) == multiset{}
      ensures r.None? ==> Contents() == old(Contents())
      ensures r.Some? ==> IsFirst(tieBreak, old(Contents()), r.value)
      ensures r.Some? ==> Contents() == old(Contents()) - multiset{r.value}
      ensures r.Some? ==> |Contents()| < |old(Contents())|
    {
      if |heap| == 0 {
        return None;
      }
      var min := heap[0];
      assert min in multiset(heap);
      forall e | e in multiset(heap) ensures EntryLeq(tieBreak, min, e) {
        var i :| 0 <= i < |heap| && heap[i] == e;
        RootIsLeast(tieBreak, heap, i);
      }
      r := Some(min);
      if |heap| == 1 {
        assert heap == [min];
        heap := [];
        return;
      }
      LastToRootOpensHole(tieBreak, heap);
      heap := LastToRoot(heap);
      BubbleDown(0);
    }

    method BubbleUp(pos: nat)
      requires pos < |heap|
      requires HeapExceptAbove(tieBreak, heap, pos)
      modifies this
      ensures Valid() && Contents() == old(Contents())
    {
      var current: nat := pos;
      while current > 0
        invariant current < |heap|
        invariant HeapExceptAbove(tieBreak, heap, current)
        invariant multiset(heap) == old(multiset(heap))
        decreases current
      {
        var parent := (current - 1) / 2;
        if EntryLeq(tieBreak, heap[parent], heap[current]) {
          break;
        }
        SwapKeepsContents(heap, parent, current);
        SwapUp(tieBreak, heap, current);
        heap := Swap(heap, parent, current);
        current := parent;
      }
    }

    method BubbleDown(pos: nat)
      requires pos < |heap|
      requires HeapExceptBelow(tieBreak, heap, pos)
      modifies this
      ensures Valid() && Contents() == old(Contents())
    {
      var length := |heap|;
      var current: nat := pos;
      while true
        invariant |heap| == length && current < length
        invariant HeapExceptBelow(tieBreak, heap, current)
        invariant multiset(heap) == old(multiset(heap))
        decreases length - current
      {
        var left := 2 * current + 1;
        var right := 2 * current + 2;
        var smallest := current;
        // The original swaps only on a strict comparison, so an equal child stays below.
        if left < length && !EntryLeq(tieBreak, heap[smallest], heap[left]) {
          smallest := left;
        }
        if right < length && !EntryLeq(tieBreak, heap[smallest], heap[right]) {
          smallest := right;
        }
        if smallest == current {
          HoleClosed(tieBreak, heap, current);
          break;
        }
        SwapKeepsContents(heap, current, smallest);
        forall k | 0 < k < |heap| && Parent(k) == current
          ensures EntryLeq(tieBreak, heap[smallest], heap[k])
        {
          assert k == left || k == right;
        }
        SwapDown(tieBreak, heap, current, smallest);
        heap := Swap(heap, current, smallest);
        current := smallest;
      }
    }
  }
}
