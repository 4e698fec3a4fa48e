/** The binary heap of the heapq module: a list changed in place. */
module Heapq {

  /** `less(x, y)` is `key(x) < key(y)`: a total order, in which different items may be equal. */
  type Key<!T> = T -> int

  function Parent(i: int): int { (i - 1) / 2 }

  /** Every item whose parent is at `start` or later is no smaller than its parent. */
  ghost predicate HeapFrom<T>(key: Key<T>, s: seq<T>, start: int) {
    forall i :: 0 < i < |s| && start <= Parent(i) ==> key(s[Parent(i)]) <= key(s[i])
  }

  /** `pos` is `start` or below it in the tree. */
  predicate Below(start: int, pos: int)
    decreases pos
  {
    pos == start || (pos > start && pos > 0 && Below(start, Parent(pos)))
  }

  /** The heap order from `start` on holds except between `pos` and its parent, and the children of `pos` are
      no smaller than that parent. */
  ghost predicate HoleUp<T>(key: Key<T>, s: seq<T>, start: int, pos: int) {
    && 0 <= start <= pos < |s| && Below(start, pos)
    && (forall i :: 0 < i < |s| && start <= Parent(i) && i != pos ==> key(s[Parent(i)]) <= key(s[i]))
    && (pos > start ==> forall i :: 0 < i < |s| && Parent(i) == pos ==> key(s[Parent(pos)]) <= key(s[i]))
  }

  /** The heap order from `start` on holds except between `pos` and its children, and these are no smaller
      than the parent of `pos`. */
  ghost predicate HoleDown<T>(key: Key<T>, s: seq<T>, start: int, pos: int) {
    && 0 <= start <= pos < |s| && Below(start, pos)
    && (forall i :: 0 < i < |s| && start <= Parent(i) && i != pos && Parent(i) != pos ==>
        key(s[Parent(i)]) <= key(s[i]))
    && (pos > start ==> forall i :: 0 < i < |s| && Parent(i) == pos ==> key(s[Parent(pos)]) <= key(s[i]))
  }

  function Swap<T>(s: seq<T>, i: int, j: int): seq<T>
    requires 0 <= i < |s| && 0 <= j < |s|
  {
    s[i := s[j]][j := s[i]]
  }

  lemma SwapKeepsItems<T>(s: seq<T>, i: int, j: int)
    requires 0 <= i < |s| && 0 <= j < |s|
    ensures multiset(Swap(s, i, j)) == multiset(s)
  {
  }

  lemma SwapFillsHole<T>(s: seq<T>, held: seq<T>, item: T, i: int, j: int)
    requires 0 <= i < |s| && 0 <= j < |s| && i != j && held == s[i := item]
    ensures Swap(held, i, j) == s[i := s[j]][j := item]
  {
  }

  lemma ParentIsSmaller(i: int)
    requires 0 < i
    ensures 0 <= Parent(i) < i
  {
  }

  lemma UpStep<T>(key: Key<T>, s: seq<T>, start: int, pos: int)
    requires HoleUp(key, s, start, pos) && start < pos && key(s[pos]) < key(s[Parent(pos)])
    ensures HoleUp(key, Swap(s, pos, Parent(pos)), start, Parent(pos))
  {
    var p := Parent(pos);
    var t := Swap(s, pos, p);
    forall i | 0 < i < |t| && start <= Parent(i) && i != p
      ensures key(t[Parent(i)]) <= key(t[i])
    {
      ParentIsSmaller(i);
    }
    assert Below(start, p);
    if p > start {
      assert Below(start, Parent(p));
      assert key(s[Parent(p)]) <= key(s[p]);
      forall i | 0 < i < |t| && Parent(i) == p
        ensures key(t[Parent(p)]) <= key(t[i])
      {
        ParentIsSmaller(p);
      }
    }
  }

  lemma UpEnds<T>(key: Key<T>, s: seq<T>, start: int, pos: int)
    requires HoleUp(key, s, start, pos) && (pos == start || key(s[Parent(pos)]) <= key(s[pos]))
    ensures HeapFrom(key, s, start)
  {
    forall i | 0 < i < |s| && start <= Parent(i)
      ensures key(s[Parent(i)]) <= key(s[i])
    {
      ParentIsSmaller(i);
    }
  }

  lemma DownStep<T>(key: Key<T>, s: seq<T>, start: int, pos: int, c: int)
    requires HoleDown(key, s, start, pos) && 0 < c < |s| && Parent(c) == pos
    requires forall i :: 0 < i < |s| && Parent(i) == pos ==> key(s[c]) <= key(s[i])
    ensures HoleDown(key, Swap(s, pos, c), start, c)
  {
    var t := Swap(s, pos, c);
    ParentIsSmaller(c);
    forall i | 0 < i < |t| && start <= Parent(i) && i != c && Parent(i) != c
      ensures key(t[Parent(i)]) <= key(t[i])
    {
      ParentIsSmaller(i);
    }
  }

  lemma DownEnds<T>(key: Key<T>, s: seq<T>, start: int, pos: int)
    requires HoleDown(key, s, start, pos) && |s| <= 2 * pos + 1
    ensures HoleUp(key, s, start, pos)
  {
    assert forall i :: 0 < i < |s| ==> Parent(i) != pos;
  }

  lemma DownStarts<T>(key: Key<T>, s: seq<T>, pos: int)
    requires 0 <= pos < |s| && HeapFrom(key, s, pos + 1)
    ensures HoleDown(key, s, pos, pos)
  {
    forall i | 0 < i < |s| && pos <= Parent(i) && i != pos && Parent(i) != pos
      ensures key(s[Parent(i)]) <= key(s[i])
    {
      assert pos + 1 <= Parent(i);
    }
  }

  lemma LeafAdded<T>(key: Key<T>, s: seq<T>, x: T)
    requires HeapFrom(key, s, 0)
    ensures HoleUp(key, s + [x], 0, |s|)
  {
    BelowRoot(|s|);
    var t := s + [x];
    forall i | 0 < i < |t| && i != |s|
      ensures key(t[Parent(i)]) <= key(t[i])
    {
      ParentIsSmaller(i);
    }
    assert forall i :: 0 < i < |t| ==> Parent(i) != |s|;
  }

  lemma {:induction false} BelowRoot(pos: int)
    requires 0 <= pos
    ensures Below(0, pos)
  {
    if pos > 0 {
      BelowRoot(Parent(pos));
    }
  }

  lemma {:induction false} RootIsLeast<T>(key: Key<T>, s: seq<T>, i: int)
    requires HeapFrom(key, s, 0) && 0 <= i < |s|
    ensures key(s[0]) <= key(s[i])
  {
    if i > 0 {
      RootIsLeast(key, s, Parent(i));
    }
  }

  class HeapList<T> {
    const key: Key<T>
    var items: seq<T>

    constructor (k: Key<T>, xs: seq<T>)
      ensures key == k && items == xs
    {
      key, items := k, xs;
    }

    /** `heapq_heap_siftdown`: moves the item at `pos` towards `startPos` while it is smaller than its parent. */
    method SiftDown(startPos: int, pos: int)
      requires HoleUp(key, items, startPos, pos)
      modifies this
      ensures HeapFrom(key, items, startPos)
      ensures multiset(items) == multiset(old(items)) && |items| == |old(items)|
    {
      hide HoleUp, HeapFrom, Swap;
      HoleBounds(key, items, startPos, pos);
      var item, p := items[pos], pos;
      // `held` is the list with the item put back into the hole
      ghost var held := items;
      while p > startPos
        invariant 0 <= startPos <= p < |items| == |held| == |old(items)| && held == items[p := item]
        invariant HoleUp(key, held, startPos, p) && multiset(held) == multiset(old(items))
      {
        var parentPos := (p - 1) / 2;
        var parent := items[parentPos];
        if key(item) < key(parent) {
          UpStep(key, held, startPos, p);
          SwapKeepsItems(held, p, parentPos);
          SwapFillsHole(items, held, item, p, parentPos);
          HoleBounds(key, Swap(held, p, parentPos), startPos, parentPos);
          held := Swap(held, p, parentPos);
          items := items[p := parent];
          p := parentPos;
        } else {
          break;
        }
      }
      UpEnds(key, held, startPos, p);
      items := items[p := item];
    }

    /** `heapq_heap_siftup`: lets the smaller children move up along a path to a leaf, then moves the item back
        up from there. */
    method SiftUp(pos: int)
      requires 0 <= pos < |items| && HeapFrom(key, items, pos + 1)
      modifies this
      ensures HeapFrom(key, items, pos)
      ensures multiset(items) == multiset(old(items)) && |items| == |old(items)|
    {
      hide HoleDown, HeapFrom, HoleUp, Swap;
      var endPos := |items|;
      var item, p := items[pos], pos;
      ghost var held := items;
      DownStarts(key, held, pos);
      var childPos := 2 * p + 1;
      while childPos < endPos
        invariant 0 <= pos <= p < endPos == |items| == |held| && held == items[p := item] && childPos == 2 * p + 1
        invariant HoleDown(key, held, pos, p) && multiset(held) == multiset(old(items))
        decreases endPos - p
      {
        if childPos + 1 < endPos && !(key(items[childPos]) < key(items[childPos + 1])) {
          childPos := childPos + 1;
        }
        SmallerChild(key, held, p, childPos);
        DownStep(key, held, pos, p, childPos);
        SwapKeepsItems(held, p, childPos);
        SwapFillsHole(items, held, item, p, childPos);
        held := Swap(held, p, childPos);
        items := items[p := items[childPos]];
        p := childPos;
        childPos := 2 * p + 1;
      }
      items := items[p := item];
      DownEnds(key, items, pos, p);
      SiftDown(pos, p);
    }

    method HeapPush(x: T)
      requires HeapFrom(key, items, 0)
      modifies this
      ensures HeapFrom(key, items, 0)
      ensures multiset(items) == multiset(old(items)) + multiset{x}
    {
      LeafAdded(key, items, x);
      items := items + [x];
      SiftDown(0, |items| - 1);
    }

    /** Returns a least item, or nothing from an empty heap. */
    method HeapPop() returns (r: Popped<T>)
      requires HeapFrom(key, items, 0)
      modifies this
      ensures HeapFrom(key, items, 0)
      ensures r.IndexError? <==> old(items) == []
      ensures r.IndexError? ==> items == []
      ensures r.Item? ==> multiset(old(items)) == multiset(items) + multiset{r.value}
      ensures r.Item? ==> forall i :: 0 <= i < |old(items)| ==> key(r.value) <= key(old(items)[i])
    {
      if |items| == 0 {
        return IndexError;
      }
      var item := items[0];
      forall i | 0 <= i < |items|
        ensures key(item) <= key(items[i])
      {
        RootIsLeast(key, items, i);
      }
      var last := items[|items| - 1];
      LastMoved(key, items);
      items := items[..|items| - 1];
      if |items| > 0 {
        items := items[0 := last];
        SiftUp(0);
      }
      r := Item(item);
    }

    method Heapify()
      modifies this
      ensures HeapFrom(key, items, 0)
      ensures multiset(items) == multiset(old(items))
    {
      for i := |items| / 2 downto 0
        invariant HeapFrom(key, items, i) && |items| == |old(items)|
        invariant multiset(items) == multiset(old(items))
      {
        SiftUp(i);
      }
    }
  }

  datatype Popped<T> = Item(value: T) | IndexError

  lemma HoleBounds<T>(key: Key<T>, s: seq<T>, start: int, pos: int)
    requires HoleUp(key, s, start, pos)
    ensures 0 <= start <= pos < |s|
  {
  }

  lemma SmallerChild<T>(key: Key<T>, s: seq<T>, p: int, c: int)
    requires 0 <= p && (c == 2 * p + 1 || c == 2 * p + 2) && c < |s|
    requires c == 2 * p + 1 && c + 1 < |s| ==> key(s[c]) < key(s[c + 1])
    requires c == 2 * p + 2 ==> key(s[c]) <= key(s[c - 1])
    ensures Parent(c) == p
    ensures forall i :: 0 < i < |s| && Parent(i) == p ==> key(s[c]) <= key(s[i])
  {
    assert forall i :: 0 < i < |s| && Parent(i) == p ==> i == 2 * p + 1 || i == 2 * p + 2;
  }

  /** Taking the last item to the root leaves the two subtrees of the root in order. */
  lemma LastMoved<T>(key: Key<T>, s: seq<T>)
    requires HeapFrom(key, s, 0) && s != []
    ensures var t := s[..|s| - 1];
            if |t| > 0 then
              HeapFrom(key, t[0 := s[|s| - 1]], 1) && multiset(s) == multiset(t[0 := s[|s| - 1]]) + multiset{s[0]}
            else multiset(s) == multiset{s[0]} && HeapFrom(key, t, 0)
  {
    var n := |s| - 1;
    var t := s[..n];
    assert s == t + [s[n]];
    if n > 0 {
      var u := t[0 := s[n]];
      forall i | 0 < i < |u| && 1 <= Parent(i)
        ensures key(u[Parent(i)]) <= key(u[i])
      {
        ParentIsSmaller(i);
        assert key(s[Parent(i)]) <= key(s[i]);
      }
    }
  }

  ghost predicate SortedBy<T>(key: Key<T>, s: seq<T>) {
    forall i, j :: 0 <= i < j < |s| ==> key(s[i]) <= key(s[j])
  }

  /** Heapify, then pop until nothing is left: the list in order. */
  method SortByHeap<T>(key: Key<T>, xs: seq<T>) returns (out: seq<T>)
    ensures SortedBy(key, out) && multiset(out) == multiset(xs)
  {
    var h := new HeapList(key, xs);
    h.Heapify();
    out := [];
    while true
      invariant fresh(h) && h.key == key && HeapFrom(key, h.items, 0) && SortedBy(key, out)
      invariant multiset(out) + multiset(h.items) == multiset(xs)
      invariant forall i, j :: 0 <= i < |out| && 0 <= j < |h.items| ==> key(out[i]) <= key(h.items[j])
      decreases |h.items|
    {
      ghost var before := h.items;
      var r := h.HeapPop();
      if r.IndexError? {
        break;
      }
      RestIsLater(before, h.items, r.value);
      out := out + [r.value];
    }
  }

  lemma RestIsLater<T>(before: seq<T>, after: seq<T>, x: T)
    requires multiset(before) == multiset(after) + multiset{x}
    ensures |after| < |before| && x in before
    ensures forall j :: 0 <= j < |after| ==> after[j] in before
  {
    assert |before| == |multiset(before)| && |after| == |multiset(after)|;
    assert x in multiset(before);
    forall j | 0 <= j < |after|
      ensures after[j] in before
    {
      assert after[j] in multiset(after);
      assert after[j] in multiset(before);
    }
  }
}
