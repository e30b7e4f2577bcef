/** Heap<V,P> (app/src/main/java/graph/Heap.java): a binary min-heap of entries
    stored in an AList, with integer priorities. */
module Heaps {
  import opened Outcomes
  import opened Lists
  import opened HeapOrder

  class Heap<V(==)> {
    /** The entries, as a complete binary tree rooted at slot 0. */
    const c: AList<Entry<V>>
    /** The value-to-index map of invariants 3-5. No method of the source writes it. */
    var positions: map<V, int>

    /** Invariant 1: the slots in use are all non-null. The capacity stays at least the
        10 the constructor gives it, so appending can always grow the array. */
    ghost predicate Complete()
      reads c, c.a
    {
      c.Valid() && c.a.Length > 0 && AllPresent(c.Elements())
    }

    /** The heap's entries in array order. */
    ghost function Entries(): seq<Entry<V>>
      reads c, c.a
      requires Complete()
    {
      Unwrap(c.Elements())
    }

    /** Invariants 1 and 2. */
    ghost predicate Valid()
      reads c, c.a
    {
      Complete() && IsHeap(Entries())
    }

    /** Heap(): empty, over an AList of capacity 10, with an empty map. */
    constructor ()
      ensures Valid() && Entries() == [] && positions == map[]
      ensures fresh(c) && fresh(c.a) && c.a.Length == 10
    {
      c := new AList.WithCapacity(10);
      positions := map[];
    }

    /** size(): the number of entries. */
    function Size(): (n: nat)
      reads c, c.a
      requires Complete()
      ensures n == |Entries()|
    {
      c.Size()
    }

    /** Entry k of the tree, read with c.get(k). */
    method At(k: nat) returns (e: Entry<V>)
      requires Complete() && k < |Entries()|
      ensures e == Entries()[k]
    {
      var r := c.Get(k);
      e := r.value.value;
    }

    /** swap(h, k): exchange c[h] and c[k]; nothing else changes. */
    method Swap(h: nat, k: nat)
      requires Complete() && h < |Entries()| && k < |Entries()|
      modifies c.a
      ensures Complete() && Entries() == Swapped(old(Entries()), h, k)
      ensures multiset(Entries()) == multiset(old(Entries()))
    {
      ghost var s := Entries();
      var swapVal := c.Get(h);
      var atK := c.Get(k);
      var ok := c.Put(h, atK.value);
      ok := c.Put(k, swapVal.value);
      assert c.Elements() == old(c.Elements())[h := Some(s[k])][k := Some(s[h])];
      assert Entries() == Swapped(s, h, k);
      SwappedPermutes(s, h, k);
    }

    /** bubbleUp(k): swap c[k] with its parent while its priority is strictly smaller.
        At k == 0 the source compares the root with itself ((0-1)/2 is 0) and stops. */
    method BubbleUp(k: nat)
      requires Complete() && HeapExceptUp(Entries(), k)
      modifies c.a
      ensures Valid() && multiset(Entries()) == multiset(old(Entries()))
      ensures |Entries()| == |old(Entries())|
      decreases k
    {
      var ek := At(k);
      var ep := At(Parent(k));
      if ek.priority < ep.priority {
        UpStep(Entries(), k);
        Swap(k, Parent(k));
        BubbleUp(Parent(k));
      } else {
        UpDone(Entries(), k);
      }
    }

    /** add(v, p): append Entry(v, p) and bubble it up. Duplicate values are not
        rejected and the map is not written. */
    method Add(v: V, p: int)
      requires Valid()
      modifies c, c.a
      ensures Valid() && positions == old(positions)
      ensures multiset(Entries()) == multiset(old(Entries())) + multiset{Entry(v, p)}
      ensures |Entries()| == |old(Entries())| + 1
      ensures c.a == old(c.a) || fresh(c.a)
    {
      ghost var s := Entries();
      AppendEntry(Entry(v, p));
      AppendedExceptUp(s, Entry(v, p));
      BubbleUp(c.size - 1);
    }

    /** The first part of add: c.append(e). */
    method AppendEntry(e: Entry<V>)
      requires Valid()
      modifies c, c.a
      ensures Complete() && Entries() == old(Entries()) + [e]
      ensures c.a == old(c.a) || fresh(c.a)
    {
      c.Append(Some(e));
      assert c.Elements() == old(c.Elements()) + [Some(e)];
    }

    /** peek(): the root's value, which has the minimum priority; nothing changes.
        NoSuchElementException on an empty heap. */
    method Peek() returns (r: Result<V>)
      requires Valid()
      ensures |Entries()| == 0 ==> r == Err(NoSuchElement)
      ensures |Entries()| > 0 ==>
                r == Ok(Entries()[0].value) &&
                forall e :: e in multiset(Entries()) ==> Entries()[0].priority <= e.priority
    {
      if c.Size() == 0 {
        return Err(NoSuchElement);
      }
      forall e | e in multiset(Entries())
        ensures Entries()[0].priority <= e.priority
      {
        var i :| 0 <= i < |Entries()| && Entries()[i] == e;
        RootIsMinimum(Entries(), i);
      }
      var root := c.Get(0);
      return Ok(root.value.value.value);
    }

    /** poll(): remove the root, move the last entry to the root and bubble it down;
        return the removed root's value. NoSuchElementException on an empty heap. */
    method Poll() returns (r: Result<V>)
      requires Valid()
      modifies c, c.a
      ensures Valid() && c.a == old(c.a) && positions == old(positions)
      ensures |old(Entries())| == 0 ==> r == Err(NoSuchElement) && Entries() == old(Entries())
      ensures |old(Entries())| > 0 ==>
                r == Ok(old(Entries())[0].value) &&
                |Entries()| == |old(Entries())| - 1 &&
                multiset(Entries()) == multiset(old(Entries())) - multiset{old(Entries())[0]}
    {
      if Size() == 0 {
        return Err(NoSuchElement);
      }
      ghost var s := Entries();
      var answer := TakeRoot();
      AfterPollExceptDown(s);
      BubbleDown(0);
      return Ok(answer);
    }

    /** The first part of poll: read the root, move the last entry to slot 0 and pop
        the last slot. */
    method TakeRoot() returns (v: V)
      requires Valid() && |Entries()| > 0
      modifies c, c.a
      ensures Complete() && c.a == old(c.a) && positions == old(positions)
      ensures v == old(Entries())[0].value && Entries() == AfterPoll(old(Entries()))
    {
      ghost var s := Entries();
      var root := c.Get(0);
      v := root.value.value.value;
      var last := c.Get(Size() - 1);
      var ok := c.Put(0, last.value);
      var popped := c.Pop();
      assert c.Elements() == old(c.Elements())[0 := Some(s[|s| - 1])][..|s| - 1];
    }

    /** bubbleDown(k): while c[k] has a child, swap it with its smaller child when that
        child's priority is strictly smaller. */
    method BubbleDown(k: nat)
      requires Complete() && HeapExceptDown(Entries(), k)
      modifies c.a
      ensures Valid() && multiset(Entries()) == multiset(old(Entries()))
      ensures |Entries()| == |old(Entries())|
      decreases c.size - k
    {
      if 2 * k + 1 < Size() || 2 * k + 2 < Size() {
        var newIndex := SmallerChild(k);
        var ek := At(k);
        var en := At(newIndex);
        if ek.priority > en.priority {
          DownStep(Entries(), k, newIndex);
          Swap(newIndex, k);
          BubbleDown(newIndex);
        } else {
          DownDone(Entries(), k);
        }
      } else {
        DownDone(Entries(), k);
      }
    }

    /** contains(v): the source returns true whatever v is. */
    function Contains(v: V): (b: bool)
      ensures b
    {
      true
    }

    /** changePriority(v, p): overwrite slot positions[v] with Entry(v, p), then bubble up if
        p is smaller than the priority there and down otherwise.
        IllegalArgumentException when map has no entry for v; IndexOutOfBoundsException
        (from c.get) when positions[v] is not an index of the heap; both change nothing. */
    method ChangePriority(v: V, p: int) returns (r: Outcome)
      requires Valid()
      modifies c.a
      ensures Valid() && |Entries()| == |old(Entries())|
      ensures v !in positions ==> r == Fail(IllegalArgument) && Entries() == old(Entries())
      ensures v in positions && !(0 <= positions[v] < |Entries()|) ==>
                r == Fail(IndexOutOfBounds) && Entries() == old(Entries())
      ensures v in positions && 0 <= positions[v] < |Entries()| ==>
                r == Pass &&
                multiset(Entries()) ==
                  multiset(old(Entries())) - multiset{old(Entries())[positions[v]]} + multiset{Entry(v, p)}
    {
      if v !in positions {
        return Fail(IllegalArgument);
      }
      var index := positions[v];
      var found := c.Get(index);
      if found.Err? {
        return Fail(IndexOutOfBounds);
      }
      ghost var s := Entries();
      var oldPriority := found.value.value.priority;
      var ok := c.Put(index, Some(Entry(v, p)));
      assert c.Elements() == old(c.Elements())[index := Some(Entry(v, p))];
      assert Entries() == s[index := Entry(v, p)];
      if p < oldPriority {
        LoweredExceptUp(s, index, Entry(v, p));
        BubbleUp(index);
      } else {
        RaisedExceptDown(s, index, Entry(v, p));
        BubbleDown(index);
      }
      return Pass;
    }

    /** smallerChild(k): the child of k to bubble down to. The only child when just one
        exists; of two, the left one only when its priority is strictly smaller, so a
        tie picks the right one. */
    method SmallerChild(k: nat) returns (m: int)
      requires Complete() && (2 * k + 1 < |Entries()| || 2 * k + 2 < |Entries()|)
      ensures 0 <= m && SmallestChild(Entries(), k, m)
      ensures m == 2 * k + 2 <==>
                2 * k + 2 < |Entries()| && !(Entries()[2 * k + 1].priority < Entries()[2 * k + 2].priority)
    {
      var n := Size();
      if 2 * k + 1 >= n && 2 * k + 2 < n {
        return 2 * k + 2;
      } else if 2 * k + 1 < n && 2 * k + 2 >= n {
        return 2 * k + 1;
      } else {
        var left := At(2 * k + 1);
        var right := At(2 * k + 2);
        if left.priority < right.priority {
          return 2 * k + 1;
        } else {
          return 2 * k + 2;
        }
      }
    }
  }
}
