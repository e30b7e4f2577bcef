/** The complete-binary-tree ordering that Heap keeps over its entries
    (class invariants 1 and 2 of app/src/main/java/graph/Heap.java): the entries
    are a sequence, c[2i+1] and c[2i+2] are the children of c[i]. */
module HeapOrder {

  /** An entry of the heap: a value with its priority. */
  datatype Entry<V> = Entry(value: V, priority: int)

  /** Java's (k-1)/2, which truncates toward zero: the parent of k > 0, and 0 for k == 0. */
  function Parent(k: nat): (p: nat)
    ensures k > 0 ==> p < k && (p * 2 + 1 == k || p * 2 + 2 == k)
    ensures k == 0 ==> p == 0
  {
    if k == 0 then 0 else (k - 1) / 2
  }

  /** s with the entries at h and k exchanged. */
  function Swapped<V>(s: seq<Entry<V>>, h: nat, k: nat): seq<Entry<V>>
    requires h < |s| && k < |s|
  {
    s[h := s[k]][k := s[h]]
  }

  /** Invariant 2, with duplicate priorities allowed: no entry has a priority
      below its parent's. */
  ghost predicate IsHeap<V>(s: seq<Entry<V>>) {
    forall i :: 0 < i < |s| ==> s[Parent(i)].priority <= s[i].priority
  }

  /** bubbleUp's precondition: the heap property holds except perhaps between c[k]
      and its parent, and c[k]'s parent is no greater than c[k]'s children. */
  ghost predicate HeapExceptUp<V>(s: seq<Entry<V>>, k: nat) {
    k < |s| &&
    (forall i :: 0 < i < |s| && i != k ==> s[Parent(i)].priority <= s[i].priority) &&
    (0 < k ==> forall i :: 0 < i < |s| && Parent(i) == k ==> s[Parent(k)].priority <= s[i].priority)
  }

  /** bubbleDown's precondition: the heap property holds except perhaps between c[k]
      and its children, and c[k]'s parent is no greater than c[k]'s children. */
  ghost predicate HeapExceptDown<V>(s: seq<Entry<V>>, k: nat) {
    (forall i :: 0 < i < |s| && Parent(i) != k ==> s[Parent(i)].priority <= s[i].priority) &&
    (0 < k < |s| ==> forall i :: 0 < i < |s| && Parent(i) == k ==> s[Parent(k)].priority <= s[i].priority)
  }

  /** m is a child of k whose priority is no greater than that of any child of k. */
  ghost predicate SmallestChild<V>(s: seq<Entry<V>>, k: nat, m: nat) {
    (m == 2 * k + 1 || m == 2 * k + 2) && m < |s| &&
    forall j :: (j == 2 * k + 1 || j == 2 * k + 2) && j < |s| ==> s[m].priority <= s[j].priority
  }

  /** The root of a heap has the minimum priority. */
  lemma {:induction false} RootIsMinimum<V>(s: seq<Entry<V>>, i: nat)
    requires IsHeap(s) && i < |s|
    ensures s[0].priority <= s[i].priority
    decreases i
  {
    if i > 0 {
      RootIsMinimum(s, Parent(i));
    }
  }

  /** Exchanging two entries keeps the multiset of entries. */
  lemma SwappedPermutes<V>(s: seq<Entry<V>>, h: nat, k: nat)
    requires h < |s| && k < |s|
    ensures multiset(Swapped(s, h, k)) == multiset(s)
    ensures |Swapped(s, h, k)| == |s|
  {
    if h != k {
      var t := s[h := s[k]];
      assert multiset(t) == multiset(s) - multiset{s[h]} + multiset{s[k]};
      assert multiset(t[k := s[h]]) == multiset(t) - multiset{t[k]} + multiset{s[h]};
    }
  }

  /** One step of bubbleUp: swapping c[k] with a parent of larger priority moves the
      one possible violation up to the parent. */
  lemma UpStep<V>(s: seq<Entry<V>>, k: nat)
    requires HeapExceptUp(s, k) && 0 < k && s[k].priority < s[Parent(k)].priority
    ensures HeapExceptUp(Swapped(s, k, Parent(k)), Parent(k))
  {
    var p := Parent(k);
    var t := Swapped(s, k, p);
    forall i | 0 < i < |t| && i != p
      ensures t[Parent(i)].priority <= t[i].priority
    {
      if i == k {
      } else if Parent(i) == k {
      } else if Parent(i) == p {
        assert s[p].priority <= s[i].priority;
      } else {
        assert t[Parent(i)] == s[Parent(i)] && t[i] == s[i];
      }
    }
    if 0 < p {
      forall i | 0 < i < |t| && Parent(i) == p
        ensures t[Parent(p)].priority <= t[i].priority
      {
        assert s[Parent(p)].priority <= s[p].priority;
        if i != k {
          assert s[p].priority <= s[i].priority;
        }
      }
    }
  }

  /** bubbleUp stops where the heap property already holds: at the root, or where the
      entry is no smaller than its parent. */
  lemma UpDone<V>(s: seq<Entry<V>>, k: nat)
    requires HeapExceptUp(s, k) && !(s[k].priority < s[Parent(k)].priority)
    ensures IsHeap(s)
  {
  }

  /** One step of bubbleDown: swapping c[k] with its smallest child of smaller
      priority moves the one possible violation down to that child. */
  lemma DownStep<V>(s: seq<Entry<V>>, k: nat, m: nat)
    requires HeapExceptDown(s, k) && k < |s| && SmallestChild(s, k, m)
    requires s[m].priority < s[k].priority
    ensures HeapExceptDown(Swapped(s, m, k), m)
  {
    var t := Swapped(s, m, k);
    assert Parent(m) == k;
    forall i | 0 < i < |t| && Parent(i) != m
      ensures t[Parent(i)].priority <= t[i].priority
    {
      if i == m {
      } else if Parent(i) == k {
        assert s[m].priority <= s[i].priority;
      } else if i == k {
        assert s[Parent(k)].priority <= s[m].priority;
      } else {
        assert t[Parent(i)] == s[Parent(i)] && t[i] == s[i];
      }
    }
    forall i | 0 < i < |t| && Parent(i) == m
      ensures t[Parent(m)].priority <= t[i].priority
    {
      assert s[m].priority <= s[i].priority;
    }
  }

  /** bubbleDown stops where the heap property already holds: no child, or no child
      of smaller priority. */
  lemma DownDone<V>(s: seq<Entry<V>>, k: nat)
    requires HeapExceptDown(s, k)
    requires forall j :: 0 < j < |s| && Parent(j) == k ==> s[k].priority <= s[j].priority
    ensures IsHeap(s)
  {
  }

  /** add's starting point: an entry appended to a heap may only violate the order
      with its parent. */
  lemma AppendedExceptUp<V>(s: seq<Entry<V>>, e: Entry<V>)
    requires IsHeap(s)
    ensures HeapExceptUp(s + [e], |s|)
  {
    var t := s + [e];
    forall i | 0 < i < |t| && i != |s|
      ensures t[Parent(i)].priority <= t[i].priority
    {
      assert t[i] == s[i] && t[Parent(i)] == s[Parent(i)];
    }
  }

  /** The entries poll leaves behind: the last entry moved to the root, the last slot gone. */
  function AfterPoll<V>(s: seq<Entry<V>>): seq<Entry<V>>
    requires |s| > 0
  {
    s[0 := s[|s| - 1]][..|s| - 1]
  }

  /** poll removes exactly the root from the multiset of entries and leaves at most one
      violation, at the root. */
  lemma AfterPollExceptDown<V>(s: seq<Entry<V>>)
    requires IsHeap(s) && |s| > 0
    ensures |AfterPoll(s)| == |s| - 1
    ensures multiset(AfterPoll(s)) == multiset(s) - multiset{s[0]}
    ensures HeapExceptDown(AfterPoll(s), 0)
  {
    var n := |s|;
    var t := AfterPoll(s);
    if n == 1 {
      assert t == [];
    } else {
      assert t == [s[n - 1]] + s[1..n - 1];
      assert s == [s[0]] + s[1..n - 1] + [s[n - 1]];
      assert multiset(s) == multiset{s[0]} + multiset(s[1..n - 1]) + multiset{s[n - 1]};
    }
    forall i | 0 < i < |t| && Parent(i) != 0
      ensures t[Parent(i)].priority <= t[i].priority
    {
      assert t[i] == s[i] && t[Parent(i)] == s[Parent(i)];
    }
  }

  /** changePriority to a smaller priority may only violate the order above c[i]. */
  lemma LoweredExceptUp<V>(s: seq<Entry<V>>, i: nat, e: Entry<V>)
    requires IsHeap(s) && i < |s| && e.priority < s[i].priority
    ensures HeapExceptUp(s[i := e], i)
  {
    var t := s[i := e];
    forall j | 0 < j < |t| && j != i
      ensures t[Parent(j)].priority <= t[j].priority
    {
      assert t[j] == s[j];
      if Parent(j) != i {
        assert t[Parent(j)] == s[Parent(j)];
      }
    }
    if 0 < i {
      forall j | 0 < j < |t| && Parent(j) == i
        ensures t[Parent(i)].priority <= t[j].priority
      {
        assert s[Parent(i)].priority <= s[i].priority <= s[j].priority;
      }
    }
  }

  /** changePriority to an equal or larger priority may only violate the order
      below c[i]. */
  lemma RaisedExceptDown<V>(s: seq<Entry<V>>, i: nat, e: Entry<V>)
    requires IsHeap(s) && i < |s| && e.priority >= s[i].priority
    ensures HeapExceptDown(s[i := e], i)
  {
    var t := s[i := e];
    forall j | 0 < j < |t| && Parent(j) != i
      ensures t[Parent(j)].priority <= t[j].priority
    {
      assert t[Parent(j)] == s[Parent(j)];
      if j != i {
        assert t[j] == s[j];
      }
    }
    if 0 < i {
      forall j | 0 < j < |t| && Parent(j) == i
        ensures t[Parent(i)].priority <= t[j].priority
      {
        assert s[Parent(i)].priority <= s[i].priority <= s[j].priority;
      }
    }
  }
}
