/** The growable array AList<T> (app/src/main/java/graph/AList.java). */
module Lists {
  import opened Outcomes

  /** 2^k. */
  function Pow2(k: nat): (r: nat)
    ensures r >= 1
  {
    if k == 0 then 1 else 2 * Pow2(k - 1)
  }

  /** The capacity growIfNeeded(n) leaves behind when it starts from capacity cap:
      it doubles while n does not fit. From capacity 0 the doubling never makes
      room, so the source's recursion ends only when n already fits. */
  function Grown(cap: nat, n: int): (r: nat)
    requires cap > 0 || n <= cap
    ensures r >= cap && r >= n
    decreases n - cap
  {
    if n <= cap then cap else Grown(2 * cap, n)
  }

  /** How many doublings growIfNeeded(n) performs from capacity cap. */
  function Doublings(cap: nat, n: int): nat
    requires cap > 0 || n <= cap
    decreases n - cap
  {
    if n <= cap then 0 else 1 + Doublings(2 * cap, n)
  }

  /** The grown capacity is the old capacity doubled Doublings times... */
  lemma {:induction false} GrownIsDoubling(cap: nat, n: int)
    requires cap > 0 || n <= cap
    ensures Grown(cap, n) == cap * Pow2(Doublings(cap, n))
    ensures Doublings(cap, n) > 0 ==> cap * Pow2(Doublings(cap, n) - 1) < n
    decreases n - cap
  {
    if n > cap {
      var k := Doublings(2 * cap, n);
      GrownIsDoubling(2 * cap, n);
      assert cap * Pow2(k + 1) == (2 * cap) * Pow2(k);
      if k > 0 {
        assert cap * Pow2(k) == (2 * cap) * Pow2(k - 1);
      }
    }
  }

  /** ... and it is no larger than any doubling of cap that holds n, so it is the
      smallest one. */
  lemma {:induction false} GrownIsLeast(cap: nat, n: int, k: nat)
    requires cap > 0 && cap * Pow2(k) >= n
    ensures Grown(cap, n) <= cap * Pow2(k)
    decreases n - cap
  {
    if n > cap {
      assert k > 0;
      assert cap * Pow2(k) == (2 * cap) * Pow2(k - 1);
      GrownIsLeast(2 * cap, n, k - 1);
    } else {
      assert cap * 1 <= cap * Pow2(k);
    }
  }

  /** A dynamic array: the slots a[0..size) are the list; the rest is spare capacity.
      A slot holds None where the Java array holds null. */
  class AList<T> {
    var size: nat
    var a: array<Option<T>>

    /** 0 <= size <= a.length. */
    ghost predicate Valid()
      reads this
    {
      size <= a.Length
    }

    /** The list's contents. */
    ghost function Elements(): seq<Option<T>>
      reads this, a
      requires Valid()
    {
      a[..size]
    }

    /** size(): the number of elements. */
    function Size(): (n: nat)
      reads this, a
      requires Valid()
      ensures n == |Elements()|
    {
      size
    }

    /** getCap(): the length of the backing array, never below the size. */
    function GetCap(): (cap: nat)
      reads this, a
      requires Valid()
      ensures cap == a.Length && cap >= |Elements()|
    {
      a.Length
    }

    /** AList(): empty, with capacity 8. */
    constructor ()
      ensures Valid() && fresh(a) && a.Length == 8 && Elements() == []
      ensures forall i :: 0 <= i < a.Length ==> a[i] == None
    {
      a := new Option<T>[8](_ => None);
      size := 0;
    }

    /** AList(capacity): empty, with the given capacity. */
    constructor WithCapacity(capacity: nat)
      ensures Valid() && fresh(a) && a.Length == capacity && Elements() == []
      ensures forall i :: 0 <= i < a.Length ==> a[i] == None
    {
      a := new Option<T>[capacity](_ => None);
      size := 0;
    }

    /** growIfNeeded(newSize): while newSize exceeds the capacity, copy the list into
        an array of twice the length. The size and the list do not change. */
    method GrowIfNeeded(newSize: int)
      requires Valid() && (newSize <= a.Length || a.Length > 0)
      modifies this
      ensures Valid() && size == old(size)
      ensures a.Length == Grown(old(a.Length), newSize)
      ensures Elements() == old(Elements())
      ensures newSize <= old(a.Length) ==> a == old(a)
      ensures newSize > old(a.Length) ==>
                fresh(a) && forall i :: size <= i < a.Length ==> a[i] == None
      decreases newSize - a.Length
    {
      if newSize <= a.Length {
        return;
      }
      var b := new Option<T>[a.Length * 2](_ => None);
      for i := 0 to size
        invariant size == old(size) && a == old(a)
        invariant b[..i] == a[..i]
        invariant forall j :: i <= j < b.Length ==> b[j] == None
      {
        b[i] := a[i];
      }
      assert b[..size] == a[..size];
      a := b;
      GrowIfNeeded(newSize);
    }

    /** resize(newSize): grow as needed, then set the size; slots below both sizes keep
        their contents, slots past the old size show what the array holds there. */
    method Resize(newSize: nat)
      requires Valid() && (newSize <= a.Length || a.Length > 0)
      modifies this
      ensures Valid() && size == newSize
      ensures a.Length == Grown(old(a.Length), newSize)
      ensures newSize <= old(a.Length) ==> a == old(a) && Elements() == old(a[..newSize])
      ensures newSize > old(a.Length) ==>
                fresh(a) && Elements() == old(Elements()) + seq(newSize - old(size), _ => None)
    {
      GrowIfNeeded(newSize);
      size := newSize;
      if newSize > old(a.Length) {
        assert a[..newSize] == a[..old(size)] + a[old(size)..newSize];
      }
    }

    /** get(i): element i, or IndexOutOfBoundsException unless 0 <= i < size. */
    method Get(i: int) returns (r: Result<Option<T>>)
      requires Valid()
      ensures 0 <= i < |Elements()| ==> r == Ok(Elements()[i])
      ensures !(0 <= i < |Elements()|) ==> r == Err(IndexOutOfBounds)
    {
      if i >= size || i < 0 {
        return Err(IndexOutOfBounds);
      }
      return Ok(a[i]);
    }

    /** put(i, value): overwrite slot i only, or IndexOutOfBoundsException unless
        0 <= i < size. Size and capacity never change. */
    method Put(i: int, value: Option<T>) returns (r: Outcome)
      requires Valid()
      modifies a
      ensures r == (if 0 <= i < size then Pass else Fail(IndexOutOfBounds))
      ensures 0 <= i < size ==> a[..] == old(a[..])[i := value]
      ensures !(0 <= i < size) ==> a[..] == old(a[..])
    {
      if i >= size || i < 0 {
        return Fail(IndexOutOfBounds);
      }
      a[i] := value;
      return Pass;
    }

    /** append(value): put value last, growing to twice the capacity when full. */
    method Append(value: Option<T>)
      requires Valid() && a.Length > 0
      modifies this, a
      ensures Valid() && Elements() == old(Elements()) + [value]
      ensures old(size) < old(a.Length) ==> a == old(a) && a[..] == old(a[..])[old(size) := value]
      ensures old(size) == old(a.Length) ==>
                fresh(a) && a.Length == 2 * old(a.Length) &&
                forall j :: size <= j < a.Length ==> a[j] == None
    {
      if size == a.Length {
        GrowIfNeeded(a.Length + 1);
      }
      a[size] := value;
      size := size + 1;
    }

    /** pop(): remove and return the last element, nulling its slot; the capacity
        never changes. NoSuchElementException when the list is empty. */
    method Pop() returns (r: Result<Option<T>>)
      requires Valid()
      modifies this, a
      ensures Valid() && a == old(a)
      ensures old(size) == 0 ==> r == Err(NoSuchElement) && size == 0 && a[..] == old(a[..])
      ensures old(size) > 0 ==>
                r == Ok(old(a[size - 1])) && size == old(size) - 1 &&
                a[..] == old(a[..])[size := None]
    {
      if size == 0 {
        return Err(NoSuchElement);
      }
      var answer := a[size - 1];
      a[size - 1] := None;
      size := size - 1;
      return Ok(answer);
    }
  }
}
