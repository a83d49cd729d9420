/**
  Vector<T> (vector.h): a growable array. The buffer data_ is an array whose
  length is capacity_ (the empty array stands for the null buffer), and the
  first size_ slots hold the elements. Raw allocation, placement new and
  destruction are not modelled; moving or copying an element is an
  assignment of its value.
 */
module Vectors {

  /** What At returns: the element, or the ArrayOutOfRange it throws. */
  datatype Lookup<T> = Element(value: T) | OutOfRange

  function Min(a: nat, b: nat): nat {
    if a < b then a else b
  }

  /** The capacity AllocateMoreBuffer(minCap) chooses: double (1 from empty), at least minCap. */
  function NewCapacity(capacity: nat, minCap: nat): (c: nat)
    ensures c >= minCap && c >= 1 && c >= 2 * capacity
    ensures c == minCap || c == (if capacity == 0 then 1 else 2 * capacity)
  {
    var grown := if capacity == 0 then 1 else capacity * 2;
    if grown < minCap then minCap else grown
  }

  /** Moves the first count elements of from into to, one at a time (the `moved` loops). */
  method MoveElements<T>(from: array<T>, to: array<T>, count: nat)
    requires count <= from.Length && count <= to.Length && from != to
    modifies to
    ensures to[..count] == from[..count] && to[count..] == old(to[count..])
  {
    var moved := 0;
    while moved < count
      invariant 0 <= moved <= count
      invariant to[..moved] == from[..moved] && to[count..] == old(to[count..])
    {
      to[moved] := from[moved];
      moved := moved + 1;
    }
  }

  /** Constructs value into slots lo..hi-1. */
  method Fill<T>(buf: array<T>, lo: nat, hi: nat, value: T)
    requires lo <= hi <= buf.Length
    modifies buf
    ensures buf[..lo] == old(buf[..lo]) && buf[hi..] == old(buf[hi..])
    ensures forall k :: lo <= k < hi ==> buf[k] == value
  {
    var i := lo;
    while i < hi
      invariant lo <= i <= hi
      invariant buf[..lo] == old(buf[..lo]) && buf[hi..] == old(buf[hi..])
      invariant forall k :: lo <= k < i ==> buf[k] == value
    {
      buf[i] := value;
      i := i + 1;
    }
  }

  class Vector<T(0)> {
    /** data_: capacity_ slots, the first size_ of them constructed. */
    var data: array<T>
    var size: nat
    var capacity: nat

    /** size_ <= capacity_, and the buffer has exactly capacity_ slots. */
    predicate Valid()
      reads this
    {
      size <= capacity && data.Length == capacity
    }

    /** The elements in order. */
    function Elements(): (s: seq<T>)
      requires Valid()
      reads this, data
      ensures |s| == size
    {
      data[..size]
    }

    /** Vector(): no buffer, no elements. */
    constructor ()
      ensures Valid() && size == 0 && capacity == 0 && fresh(data)
    {
      data := new T[0];
      size, capacity := 0, 0;
    }

    /**
      Vector(n, value), and Vector(n) with value standing for T(): a buffer
      of exactly n slots, all holding value.
     */
    constructor OfSize(n: nat, value: T)
      ensures Valid() && size == n && capacity == n && fresh(data)
      ensures forall k :: 0 <= k < n ==> Elements()[k] == value
    {
      var buf := new T[n];
      Fill(buf, 0, n, value);
      data := buf;
      size, capacity := n, n;
    }

    /**
      Vector(first, last) and Vector(std::initializer_list): count the range,
      allocate exactly that many slots and copy the range in.
     */
    constructor OfSeq(items: seq<T>)
      ensures Valid() && Elements() == items && capacity == |items| && fresh(data)
    {
      var count := 0;
      while count < |items|
        invariant count <= |items|
      {
        count := count + 1;
      }
      var buf := new T[count];
      var i := 0;
      while i < count
        invariant i <= count && buf[..i] == items[..i]
      {
        buf[i] := items[i];
        i := i + 1;
      }
      data := buf;
      size, capacity := count, count;
    }

    /**
      The copy constructor: the elements of other in a new buffer of
      other's capacity; an empty other gives no buffer at all.
     */
    constructor Copy(other: Vector<T>)
      requires other.Valid()
      ensures Valid() && Elements() == other.Elements() && fresh(data)
      ensures capacity == if other.size > 0 then other.capacity else 0
    {
      if other.size > 0 {
        var buf := new T[other.capacity];
        MoveElements(other.data, buf, other.size);
        data := buf;
        size, capacity := other.size, other.capacity;
      } else {
        data := new T[0];
        size, capacity := 0, 0;
      }
    }

    /** The move constructor: takes other's buffer and leaves other empty with no buffer. */
    constructor Take(other: Vector<T>)
      requires other.Valid()
      modifies other
      ensures Valid() && data == old(other.data) && Elements() == old(other.Elements())
      ensures size == old(other.size) && capacity == old(other.capacity)
      ensures other.Valid() && other.size == 0 && other.capacity == 0 && fresh(other.data)
    {
      data, size, capacity := other.data, other.size, other.capacity;
      new;
      other.data := new T[0];
      other.size, other.capacity := 0, 0;
    }

    /** Copy assignment: copy-and-swap, a no-op on self-assignment. */
    method CopyAssign(other: Vector<T>)
      requires Valid() && other.Valid()
      modifies this
      ensures Valid() && Elements() == old(other.Elements())
      ensures this != other ==> capacity == if old(other.size) > 0 then old(other.capacity) else 0
      ensures this != other ==> fresh(data)
      ensures this == other ==> capacity == old(capacity) && data == old(data)
    {
      if this != other {
        var tmp := new Vector.Copy(other);
        Swap(tmp);
      }
    }

    /** Move assignment: drop the own buffer, take other's, leave other empty. */
    method MoveAssign(other: Vector<T>)
      requires Valid() && other.Valid()
      modifies this, other
      ensures Valid() && other.Valid()
      ensures this != other ==> data == old(other.data) && Elements() == old(other.Elements())
      ensures this != other ==> capacity == old(other.capacity) && other.size == 0 && other.capacity == 0
      ensures this != other ==> fresh(other.data)
      ensures this == other ==> Elements() == old(Elements()) && capacity == old(capacity) && data == old(data)
    {
      if this != other {
        Clear();
        Deallocate();
        data, size, capacity := other.data, other.size, other.capacity;
        other.data := new T[0];
        other.size, other.capacity := 0, 0;
      }
    }

    function Size(): (n: nat)
      requires Valid()
      reads this, data
      ensures n == |Elements()|
    {
      size
    }

    function Capacity(): (n: nat)
      requires Valid()
      reads this
      ensures n == capacity && n >= Size()
    {
      capacity
    }

    function Empty(): (b: bool)
      requires Valid()
      reads this, data
      ensures b <==> Elements() == []
    {
      size == 0
    }

    /** operator[]: unchecked, so the index must be in range. */
    function Get(idx: nat): (x: T)
      requires Valid() && idx < size
      reads this, data
      ensures x == Elements()[idx]
    {
      data[idx]
    }

    /** At: the element, or ArrayOutOfRange exactly when idx >= size_. */
    function At(idx: nat): (r: Lookup<T>)
      requires Valid()
      reads this, data
      ensures r == OutOfRange <==> idx >= |Elements()|
      ensures r.Element? ==> r.value == Elements()[idx]
    {
      if idx >= size then OutOfRange else Element(data[idx])
    }

    function Front(): (x: T)
      requires Valid() && size > 0
      reads this, data
      ensures x == Elements()[0]
    {
      data[0]
    }

    function Back(): (x: T)
      requires Valid() && size > 0
      reads this, data
      ensures x == Elements()[|Elements()| - 1]
    {
      data[size - 1]
    }

    /** Swap: exchanges buffers, sizes and capacities. */
    method Swap(other: Vector<T>)
      requires Valid() && other.Valid()
      modifies this, other
      ensures Valid() && other.Valid()
      ensures data == old(other.data) && size == old(other.size) && capacity == old(other.capacity)
      ensures other.data == old(data) && other.size == old(size) && other.capacity == old(capacity)
    {
      data, other.data := other.data, data;
      size, other.size := other.size, size;
      capacity, other.capacity := other.capacity, capacity;
    }

    /** Deallocate: drops the buffer, so the capacity becomes 0. */
    method Deallocate()
      requires Valid() && size == 0
      modifies this
      ensures Valid() && size == 0 && capacity == 0
      ensures if old(capacity) == 0 then data == old(data) else fresh(data)
    {
      if capacity > 0 {
        data := new T[0];
        capacity := 0;
      }
    }

    /** AllocateMoreBuffer: a fresh buffer of NewCapacity(capacity_, minCap) slots. */
    method AllocateMoreBuffer(minCap: nat) returns (buf: array<T>, newCap: nat)
      ensures fresh(buf) && buf.Length == newCap && newCap == NewCapacity(capacity, minCap)
    {
      newCap := if capacity == 0 then 1 else capacity * 2;
      if newCap < minCap {
        newCap := minCap;
      }
      buf := new T[newCap];
    }

    /**
      Resize(n, value), and Resize(n) with value standing for T(): keeps the
      first min(size, n) elements and puts value into every new slot;
      shrinking or growing within the capacity keeps the buffer, growing
      beyond it moves the elements into an AllocateMoreBuffer(n) buffer.
     */
    method Resize(newSize: nat, value: T)
      requires Valid()
      modifies this, data
      ensures Valid() && size == newSize
      ensures Elements()[..Min(old(size), newSize)] == old(Elements())[..Min(old(size), newSize)]
      ensures forall k :: old(size) <= k < newSize ==> Elements()[k] == value
      ensures capacity == if newSize <= old(capacity) then old(capacity) else NewCapacity(old(capacity), newSize)
      ensures if newSize <= old(capacity) then data == old(data) else fresh(data)
    {
      if newSize < size {
        size := newSize;
        return;
      }
      if newSize <= capacity {
        Fill(data, size, newSize, value);
        size := newSize;
        return;
      }
      var buf, newCap := AllocateMoreBuffer(newSize);
      MoveElements(data, buf, size);
      Fill(buf, size, newSize, value);
      data, capacity, size := buf, newCap, newSize;
    }

    /** Reserve: a no-op unless n exceeds the capacity; then the elements move to a larger buffer. */
    method Reserve(n: nat)
      requires Valid()
      modifies this
      ensures Valid() && Elements() == old(Elements())
      ensures n <= old(capacity) ==> capacity == old(capacity) && data == old(data)
      ensures n > old(capacity) ==> capacity == NewCapacity(old(capacity), n) && capacity >= n && fresh(data)
    {
      if n <= capacity {
        return;
      }
      var buf, newCap := AllocateMoreBuffer(n);
      MoveElements(data, buf, size);
      data, capacity := buf, newCap;
    }

    /** ShrinkToFit: the capacity becomes the size, with no buffer at all when empty. */
    method ShrinkToFit()
      requires Valid()
      modifies this
      ensures Valid() && Elements() == old(Elements()) && capacity == size
      ensures if old(size) == old(capacity) then data == old(data) else fresh(data)
    {
      if size == 0 {
        Deallocate();
        return;
      }
      if capacity == size {
        return;
      }
      var buf := new T[size];
      MoveElements(data, buf, size);
      data, capacity := buf, size;
    }

    /** Clear: no elements, same buffer. */
    method Clear()
      requires Valid()
      modifies this
      ensures Valid() && Elements() == [] && capacity == old(capacity) && data == old(data)
    {
      size := 0;
    }

    /**
      PushBack (both overloads) and EmplaceBack, whose value is the T built
      from its arguments: the value goes last; a full vector first moves its
      elements into an AllocateMoreBuffer(size + 1) buffer.
     */
    method PushBack(value: T)
      requires Valid()
      modifies this, data
      ensures Valid() && Elements() == old(Elements()) + [value]
      ensures capacity == if old(size) < old(capacity) then old(capacity) else NewCapacity(old(capacity), old(size) + 1)
      ensures if old(size) < old(capacity) then data == old(data) else fresh(data)
    {
      if size < capacity {
        data[size] := value;
        size := size + 1;
        return;
      }
      var buf, newCap := AllocateMoreBuffer(size + 1);
      MoveElements(data, buf, size);
      buf[size] := value;
      data, capacity, size := buf, newCap, size + 1;
    }

    /** PopBack: drops the last element of a nonempty vector, does nothing on an empty one. */
    method PopBack()
      requires Valid()
      modifies this
      ensures Valid() && capacity == old(capacity) && data == old(data)
      ensures Elements() == if old(size) == 0 then old(Elements()) else old(Elements())[..old(size) - 1]
    {
      if size > 0 {
        size := size - 1;
      }
    }
  }

  /** operator==: equal sizes and equal elements, compared front to back. */
  method Equal<T(0, ==)>(a: Vector<T>, b: Vector<T>) returns (r: bool)
    requires a.Valid() && b.Valid()
    ensures r <==> a.Elements() == b.Elements()
  {
    if a.size != b.size {
      return false;
    }
    var i := 0;
    while i < a.size
      invariant 0 <= i <= a.size && a.data[..i] == b.data[..i]
    {
      if a.data[i] != b.data[i] {
        assert a.Elements()[i] != b.Elements()[i];
        return false;
      }
      i := i + 1;
    }
    assert a.Elements() == a.data[..i];
    r := true;
  }

  method NotEqual<T(0, ==)>(a: Vector<T>, b: Vector<T>) returns (r: bool)
    requires a.Valid() && b.Valid()
    ensures r <==> a.Elements() != b.Elements()
  {
    var e := Equal(a, b);
    r := !e;
  }

  /**
    Lexicographic order over the element order less (T's operator<): the
    first position where one element is less than the other decides, and
    otherwise the shorter sequence is less.
   */
  function LexLess<T>(s: seq<T>, t: seq<T>, less: (T, T) -> bool): bool
    decreases |s|
  {
    if s == [] || t == [] then |s| < |t|
    else if less(s[0], t[0]) then true
    else if less(t[0], s[0]) then false
    else LexLess(s[1..], t[1..], less)
  }

  /** operator<: the scan over the common length, then the sizes. */
  method Less<T(0)>(a: Vector<T>, b: Vector<T>, less: (T, T) -> bool) returns (r: bool)
    requires a.Valid() && b.Valid()
    ensures r == LexLess(a.Elements(), b.Elements(), less)
  {
    var n := if a.size < b.size then a.size else b.size;
    var i := 0;
    while i < n
      invariant 0 <= i <= n
      invariant LexLess(a.Elements(), b.Elements(), less) == LexLess(a.Elements()[i..], b.Elements()[i..], less)
    {
      if less(a.data[i], b.data[i]) {
        return true;
      }
      if less(b.data[i], a.data[i]) {
        return false;
      }
      assert a.Elements()[i..][1..] == a.Elements()[i + 1..];
      assert b.Elements()[i..][1..] == b.Elements()[i + 1..];
      i := i + 1;
    }
    r := a.size < b.size;
  }

  method LessEq<T(0)>(a: Vector<T>, b: Vector<T>, less: (T, T) -> bool) returns (r: bool)
    requires a.Valid() && b.Valid()
    ensures r == !LexLess(b.Elements(), a.Elements(), less)
  {
    var ba := Less(b, a, less);
    r := !ba;
  }

  method Greater<T(0)>(a: Vector<T>, b: Vector<T>, less: (T, T) -> bool) returns (r: bool)
    requires a.Valid() && b.Valid()
    ensures r == LexLess(b.Elements(), a.Elements(), less)
  {
    r := Less(b, a, less);
  }

  method GreaterEq<T(0)>(a: Vector<T>, b: Vector<T>, less: (T, T) -> bool) returns (r: bool)
    requires a.Valid() && b.Valid()
    ensures r == !LexLess(a.Elements(), b.Elements(), less)
  {
    var ab := Less(a, b, less);
    r := !ab;
  }

  /** less is a strict total order: irreflexive, transitive, and any two distinct values are comparable. */
  ghost predicate StrictTotalOrder<T(!new)>(less: (T, T) -> bool) {
    (forall x :: !less(x, x)) &&
    (forall x, y, z :: less(x, y) && less(y, z) ==> less(x, z)) &&
    (forall x, y :: x == y || less(x, y) || less(y, x))
  }

  /** No sequence is less than itself when no element is less than itself. */
  lemma {:induction false} LexLessIrreflexive<T>(s: seq<T>, less: (T, T) -> bool)
    requires forall x :: !less(x, x)
    ensures !LexLess(s, s, less)
  {
    if s != [] {
      LexLessIrreflexive(s[1..], less);
    }
  }

  /** A proper prefix is less than the longer sequence, and never the other way round. */
  lemma {:induction false} ProperPrefixIsLess<T>(s: seq<T>, t: seq<T>, less: (T, T) -> bool)
    requires forall x :: !less(x, x)
    requires |s| < |t| && t[..|s|] == s
    ensures LexLess(s, t, less) && !LexLess(t, s, less)
  {
    if s != [] {
      assert s[0] == t[0];
      assert t[1..][..|s[1..]|] == s[1..];
      ProperPrefixIsLess(s[1..], t[1..], less);
    }
  }

  /**
    Over a strict total order, s < t exactly when at the first position
    where they differ t has the greater element, or s ends there first.
   */
  lemma {:induction false} LexLessFirstDifference<T(!new)>(s: seq<T>, t: seq<T>, k: nat, less: (T, T) -> bool)
    requires StrictTotalOrder(less)
    requires k <= |s| && k <= |t| && s[..k] == t[..k]
    requires k == |s| || k == |t| || s[k] != t[k]
    ensures LexLess(s, t, less) <==> (k == |s| && k < |t|) || (k < |s| && k < |t| && less(s[k], t[k]))
  {
    if k > 0 {
      assert s[0] == t[0] by {
        assert s[..k][0] == t[..k][0];
      }
      assert !less(s[0], t[0]);
      assert s[1..][..k - 1] == t[1..][..k - 1] by {
        assert s[1..][..k - 1] == s[..k][1..];
        assert t[1..][..k - 1] == t[..k][1..];
      }
      LexLessFirstDifference(s[1..], t[1..], k - 1, less);
    } else if k < |s| && k < |t| {
      assert less(s[0], t[0]) || less(t[0], s[0]);
    }
  }

  /** Over a strict total order exactly one of s < t, s == t, t < s holds. */
  lemma {:induction false} LexLessTrichotomy<T(!new)>(s: seq<T>, t: seq<T>, less: (T, T) -> bool)
    requires StrictTotalOrder(less)
    ensures s == t ==> !LexLess(s, t, less) && !LexLess(t, s, less)
    ensures s != t ==> LexLess(s, t, less) != LexLess(t, s, less)
  {
    if s == t {
      LexLessIrreflexive(s, less);
    } else if s != [] && t != [] {
      if s[0] == t[0] {
        assert s[1..] != t[1..] by {
          assert s == [s[0]] + s[1..] && t == [t[0]] + t[1..];
        }
        LexLessTrichotomy(s[1..], t[1..], less);
      }
    }
  }

  /** Over a strict total order, lexicographic order is transitive. */
  lemma {:induction false} LexLessTransitive<T(!new)>(s: seq<T>, t: seq<T>, u: seq<T>, less: (T, T) -> bool)
    requires StrictTotalOrder(less)
    requires LexLess(s, t, less) && LexLess(t, u, less)
    ensures LexLess(s, u, less)
    decreases |s|
  {
    if s != [] && t != [] && u != [] {
      if s[0] == t[0] && t[0] == u[0] {
        LexLessTransitive(s[1..], t[1..], u[1..], less);
      }
    }
  }
}
