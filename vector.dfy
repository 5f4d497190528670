/** `aisdi::Vector`: a growable array buffer (`tab`, `csize`, `maxsize`) with index positions. */
module Vectors {
  import opened Outcomes
  import opened Sequences

  /** The 64-bit range of `std::size_t`, used where the source relies on unsigned wrap-around. */
  const SizeRange: nat := 0x1_0000_0000_0000_0000

  class Vector<T(0)> {
    /** The buffer; `tab[..size]` are the live elements, the rest are don't-care. */
    var tab: array<T>
    /** `csize`: the number of live elements. */
    var size: nat
    /** `maxsize`: the capacity, always the length of `tab`. */
    var maxsize: nat

    ghost predicate Valid()
      reads this
    {
      maxsize == tab.Length && 1 <= maxsize && size <= maxsize
    }

    /** The abstract sequence the vector holds. */
    ghost function Contents(): (s: seq<T>)
      reads this, tab
      requires Valid()
      ensures |s| == size
    {
      tab[..size]
    }

    /** `Vector()`: empty, with capacity 2. */
    constructor ()
      ensures Valid() && fresh(tab)
      ensures Contents() == [] && maxsize == 2
    {
      size := 0;
      maxsize := 2;
      tab := new T[2];
    }

    /** `Vector(std::initializer_list)`: reserves twice the list's length (an empty list
        goes through `realloc(0)` and doubles the initial capacity), then copies the list. */
    constructor FromSeq(l: seq<T>)
      ensures Valid() && fresh(tab)
      ensures Contents() == l
      ensures maxsize == if |l| == 0 then 4 else 2 * |l|
    {
      size := 0;
      maxsize := 2;
      tab := new T[2];
      new;
      var grown := Realloc(2 * |l|);
      assert grown.Pass?;
      size := |l|;
      for i := 0 to |l|
        invariant Valid() && size == |l| && fresh(tab)
        invariant maxsize == if |l| == 0 then 4 else 2 * |l|
        invariant tab[..i] == l[..i]
      {
        tab[i] := l[i];
      }
      assert tab[..size] == l[..|l|];
    }

    /** Copy constructor: same size and capacity, elements copied into a fresh buffer. */
    constructor Copy(other: Vector<T>)
      requires other.Valid()
      ensures Valid() && fresh(tab)
      ensures maxsize == other.maxsize
      ensures Contents() == other.Contents()
    {
      size := other.size;
      maxsize := other.maxsize;
      tab := new T[other.maxsize];
      new;
      for i := 0 to other.size
        invariant Valid() && fresh(tab) && size == other.size && maxsize == other.maxsize
        invariant tab[..i] == other.tab[..i]
      {
        tab[i] := other.tab[i];
      }
    }

    /** Copy assignment as the source writes it: it reallocates when `maxsize <= other.csize`,
        and `realloc(other.maxsize)` then throws whenever `other.maxsize <= csize`. */
    method AssignAsWritten(other: Vector<T>) returns (r: Outcome)
      requires Valid() && other.Valid()
      modifies this, tab
      ensures Valid()
      ensures r.Fail? <==> old(maxsize <= other.size && other.maxsize <= size)
      ensures r.Fail? ==> r.error == BadArrayNewLength && tab == old(tab) && unchanged(this)
                          && unchanged(tab)
      ensures r.Pass? ==> Contents() == old(other.Contents())
      ensures tab == old(tab) || fresh(tab)
    {
      if maxsize <= other.size {
        r := Realloc(other.maxsize);
        if r.Fail? {
          return;
        }
      }
      CopyFrom(other);
      r := Pass;
    }

    /** Copy assignment with the growth guard it evidently intends (`maxsize < other.csize`):
        it never fails, and the vector then holds the other's elements. */
    method Assign(other: Vector<T>)
      requires Valid() && other.Valid()
      modifies this, tab
      ensures Valid()
      ensures Contents() == old(other.Contents())
      ensures maxsize == if old(maxsize) < old(other.size) then old(other.maxsize) else old(maxsize)
      ensures tab == old(tab) || fresh(tab)
    {
      if maxsize < other.size {
        var grown := Realloc(other.maxsize);
        assert grown.Pass?;
      }
      CopyFrom(other);
    }

    /** The copy loop shared by both forms of assignment; `other` may be this very vector. */
    method CopyFrom(other: Vector<T>)
      requires Valid() && other.Valid() && other.size <= maxsize
      modifies this`size, tab
      ensures Valid() && size == old(other.size)
      ensures Contents() == old(other.Contents())
    {
      ghost var src := other.Contents();
      for i := 0 to other.size
        modifies tab
        invariant other.size == |src| <= tab.Length
        invariant forall k :: 0 <= k < i ==> tab[k] == src[k]
        invariant forall k :: i <= k < other.size ==> other.tab[k] == src[k]
      {
        tab[i] := other.tab[i];
      }
      size := other.size;
      assert tab[..size] == src;
    }

    /** `isEmpty()`. */
    function IsEmpty(): (b: bool)
      reads this, tab
      requires Valid()
      ensures b <==> Contents() == []
    {
      size == 0
    }

    /** `getSize()`. */
    function GetSize(): (n: nat)
      reads this, tab
      requires Valid()
      ensures n == |Contents()|
    {
      size
    }

    /** `realloc(size)`: `0` asks for double the capacity; any other request must exceed the
        element count or it throws `bad_array_new_length`. The live elements are copied in order
        into a fresh buffer. */
    method Realloc(n: nat) returns (r: Outcome)
      requires Valid()
      modifies this
      ensures Valid() && size == old(size)
      ensures r.Fail? <==> n != 0 && n <= old(size)
      ensures r.Fail? ==> r.error == BadArrayNewLength && unchanged(this)
      ensures r.Pass? ==> fresh(tab) && maxsize == (if n == 0 then 2 * old(maxsize) else n)
      ensures Contents() == old(Contents())
    {
      var newSize := n;
      if newSize == 0 {
        newSize := 2 * maxsize;
      } else if newSize <= size {
        return Fail(BadArrayNewLength);
      }
      var newtab := new T[newSize];
      for i := 0 to size
        modifies newtab
        invariant size <= newSize == newtab.Length
        invariant newtab[..i] == tab[..i]
      {
        newtab[i] := tab[i];
      }
      maxsize := newSize;
      tab := newtab;
      r := Pass;
    }

    /** `append(item)`: doubles the capacity only when full, then stores at index `csize`. */
    method Append(v: T)
      requires Valid()
      modifies this, tab
      ensures Valid()
      ensures Contents() == old(Contents()) + [v]
      ensures maxsize == if old(size) >= old(maxsize) then 2 * old(maxsize) else old(maxsize)
      ensures tab == old(tab) || fresh(tab)
    {
      if size >= maxsize {
        var grown := Realloc(0);
      }
      tab[size] := v;
      size := size + 1;
    }

    /** `insert(position, item)`: grows when full, shifts `[index, csize)` one slot up, stores
        the item at `index`. An index beyond `csize` is undefined behaviour in the source. */
    method Insert(p: Iter<T>, v: T)
      requires Valid() && p.index <= size
      modifies this, tab
      ensures Valid()
      ensures Contents() == InsertAt(old(Contents()), p.index, v)
      ensures maxsize == if old(size) >= old(maxsize) then 2 * old(maxsize) else old(maxsize)
      ensures tab == old(tab) || fresh(tab)
    {
      if size >= maxsize {
        var grown := Realloc(0);
      }
      ghost var s := Contents();
      var i := size;
      while i > p.index
        modifies tab
        invariant p.index <= i <= size < tab.Length
        invariant Valid() && |s| == size && (tab == old(tab) || fresh(tab))
        invariant forall k :: 0 <= k < i ==> tab[k] == s[k]
        invariant forall k :: i < k <= size ==> tab[k] == s[k - 1]
      {
        tab[i] := tab[i - 1];
        i := i - 1;
      }
      tab[p.index] := v;
      size := size + 1;
      assert Contents() == InsertAt(s, p.index, v);
    }

    /** `prepend(item)`: insertion at index 0. */
    method Prepend(v: T)
      requires Valid()
      modifies this, tab
      ensures Valid()
      ensures Contents() == [v] + old(Contents())
      ensures tab == old(tab) || fresh(tab)
    {
      Insert(Iter(this, 0), v);
      InsertAtEnds(old(Contents()), v);
    }

    /** `popFirst()`: throws on an empty vector; otherwise returns `tab[0]` and shifts the rest
        one slot down. */
    method PopFirst() returns (r: Result<T>)
      requires Valid()
      modifies this, tab
      ensures Valid() && tab == old(tab) && maxsize == old(maxsize)
      ensures r.Err? <==> old(Contents()) == []
      ensures r.Err? ==> r.error == OutOfRange && unchanged(this) && unchanged(tab)
      ensures r.Ok? ==> r.value == old(Contents())[0] && Contents() == old(Contents())[1..]
    {
      if IsEmpty() {
        return Err(OutOfRange);
      }
      var w := tab[0];
      ShiftDown(0);
      r := Ok(w);
    }

    /** `popLast()`: throws on an empty vector; otherwise returns `tab[csize-1]` and drops it. */
    method PopLast() returns (r: Result<T>)
      requires Valid()
      modifies this
      ensures Valid() && tab == old(tab) && maxsize == old(maxsize)
      ensures r.Err? <==> old(Contents()) == []
      ensures r.Err? ==> r.error == OutOfRange && unchanged(this)
      ensures r.Ok? ==> r.value == old(Contents())[|old(Contents())| - 1]
      ensures r.Ok? ==> Contents() == old(Contents())[..|old(Contents())| - 1]
    {
      if IsEmpty() {
        return Err(OutOfRange);
      }
      var w := tab[size - 1];
      size := size - 1;
      r := Ok(w);
    }

    /** `erase(position)`: throws when `index >= csize`; otherwise removes that element. */
    method Erase(p: Iter<T>) returns (r: Outcome)
      requires Valid()
      modifies this, tab
      ensures Valid() && tab == old(tab) && maxsize == old(maxsize)
      ensures r.Fail? <==> p.index >= old(size)
      ensures r.Fail? ==> r.error == OutOfRange && unchanged(this) && unchanged(tab)
      ensures r.Pass? ==> Contents() == RemoveRange(old(Contents()), p.index, p.index + 1)
    {
      if size <= p.index {
        return Fail(OutOfRange);
      }
      ShiftDown(p.index);
      r := Pass;
    }

    /** The shifting loop of `erase(position)` and `popFirst()`: drops the element at `k`. */
    method ShiftDown(k: nat)
      requires Valid() && k < size
      modifies this`size, tab
      ensures Valid() && tab == old(tab) && size == old(size) - 1
      ensures Contents() == RemoveRange(old(Contents()), k, k + 1)
    {
      ghost var s := Contents();
      size := size - 1;
      for i := k to size
        modifies tab
        invariant size == |s| - 1 <= tab.Length
        invariant forall j :: 0 <= j < k ==> tab[j] == s[j]
        invariant forall j :: k <= j < i ==> tab[j] == s[j + 1]
        invariant forall j :: i < j <= size ==> tab[j] == s[j]
      {
        tab[i] := tab[i + 1];
      }
      assert Contents() == RemoveRange(s, k, k + 1);
    }

    /** `erase(firstIncluded, lastExcluded)`: an empty or inverted range is a no-op; a non-empty
        range starting at or past `csize` throws; otherwise `[first, last)` is removed. A
        non-empty range that starts inside but ends past `csize` is undefined behaviour. */
    method EraseRange(first: Iter<T>, last: Iter<T>) returns (r: Outcome)
      requires Valid()
      requires first.index < last.index && first.index < size ==> last.index <= size
      modifies this, tab
      ensures Valid() && tab == old(tab) && maxsize == old(maxsize)
      ensures r.Fail? <==> first.index < last.index && first.index >= old(size)
      ensures r.Fail? ==> r.error == OutOfRange && unchanged(this) && unchanged(tab)
      ensures r.Pass? && last.index <= first.index ==> Contents() == old(Contents())
      ensures r.Pass? && first.index < last.index ==>
                Contents() == RemoveRange(old(Contents()), first.index, last.index)
    {
      if last.index <= first.index {
        return Pass;
      }
      if first.index >= size || IsEmpty() {
        return Fail(OutOfRange);
      }
      ghost var s := Contents();
      var gap := last.index - first.index;
      for i := last.index to size
        modifies tab
        invariant Valid() && |s| == size
        invariant forall j :: 0 <= j < first.index ==> tab[j] == s[j]
        invariant forall j :: last.index <= j < i ==> tab[j - gap] == s[j]
        invariant forall j :: i <= j < size ==> tab[j] == s[j]
      {
        tab[i + first.index - last.index] := tab[i];
      }
      size := size - gap;
      assert Contents() == RemoveRange(s, first.index, last.index);
      r := Pass;
    }

    /** `begin()` / `cbegin()`: index 0, which addresses the first element if there is one. */
    function Begin(): (it: Iter<T>)
      reads this, tab
      requires Valid()
      ensures it.vec == this
      ensures it.Deref() == if Contents() == [] then Err(OutOfRange) else Ok(Contents()[0])
    {
      Iter(this, 0)
    }

    /** `end()` / `cend()`: index `csize`, which cannot be dereferenced and equals `begin()`
        exactly when the vector is empty. */
    function End(): (it: Iter<T>)
      reads this, tab
      requires Valid()
      ensures it.vec == this && it.Deref() == Err(OutOfRange)
      ensures it.Equals(Begin()) <==> Contents() == []
      ensures it.Next() == Err(OutOfRange)
    {
      Iter(this, size)
    }
  }

  /** `Vector::ConstIterator` (and `Iterator`, the same position type): the vector it belongs
      to (`vptr`, null for a default-constructed iterator) and an index. */
  datatype Iter<T(0)> = Iter(vec: Vector?<T>, index: nat)
  {
    /** `operator*`: throws for a null vector or an index at or past `csize`. */
    function Deref(): (r: Result<T>)
      reads vec, if vec != null then {vec.tab} else {}
      requires vec != null ==> vec.Valid()
      ensures r.Ok? <==> vec != null && index < |vec.Contents()|
      ensures r.Ok? ==> r.value == vec.Contents()[index]
      ensures r.Err? ==> r.error == OutOfRange
    {
      if vec == null then Err(OutOfRange)
      else if index >= vec.size then Err(OutOfRange)
      else Ok(vec.tab[index])
    }

    /** `operator++`: may reach `csize` (the end) but not go beyond it. */
    function Next(): (r: Result<Iter<T>>)
      reads vec
      requires vec != null
      ensures r.Ok? <==> index < vec.size
      ensures r.Ok? ==> r.value.vec == vec && r.value.index == index + 1
      ensures r.Err? ==> r.error == OutOfRange
    {
      if index + 1 > vec.size then Err(OutOfRange) else Ok(Iter(vec, index + 1))
    }

    /** `operator--`: throws at index 0. */
    function Prev(): (r: Result<Iter<T>>)
      ensures r.Ok? <==> index > 0
      ensures r.Ok? ==> r.value.vec == vec && r.value.index + 1 == index
      ensures r.Err? ==> r.error == OutOfRange
    {
      if index == 0 then Err(OutOfRange) else Ok(Iter(vec, index - 1))
    }

    /** `operator+(d)` for `d >= 0`: a single bounds check against `csize`. */
    function Plus(d: nat): (r: Result<Iter<T>>)
      reads vec
      requires vec != null
      ensures r.Ok? <==> index + d <= vec.size
      ensures r.Ok? ==> r.value.vec == vec && r.value.index == index + d
      ensures r.Err? ==> r.error == OutOfRange
    {
      if index + d > vec.size then Err(OutOfRange) else Ok(Iter(vec, index + d))
    }

    /** `operator-(d)` as the source writes it: its guard `index-d<0` compares an unsigned
        value and never holds, so the subtraction wraps modulo 2^64 and never throws. */
    function MinusAsWritten(d: nat): (r: Result<Iter<T>>)
      requires index < SizeRange
      ensures r.Ok? && r.value.vec == vec
      ensures d <= index ==> r.value.index == index - d
      ensures index < d <= index + 0x8000_0000 ==> r.value.index == SizeRange - (d - index)
    {
      Ok(Iter(vec, (index - d) % SizeRange))
    }

    /** `operator-(d)` as its guard intends: throws when it would move before index 0. */
    function Minus(d: nat): (r: Result<Iter<T>>)
      ensures r.Ok? <==> d <= index
      ensures r.Ok? && index < SizeRange ==> r == MinusAsWritten(d)
      ensures r.Err? ==> r.error == OutOfRange
    {
      if d > index then Err(OutOfRange) else Ok(Iter(vec, index - d))
    }

    /** `operator==`: the same vector and the same index. */
    function Equals(other: Iter<T>): (b: bool)
      ensures b <==> this == other
    {
      vec == other.vec && index == other.index
    }
  }

  /** `d` successive `operator++` steps from `it`, stopping at the first failure. */
  function Advance<T(0)>(it: Iter<T>, d: nat): Result<Iter<T>>
    reads it.vec
    requires it.vec != null
    decreases d
  {
    if d == 0 then Ok(it)
    else match it.Next()
      case Err(e) => Err(e)
      case Ok(next) => Advance(next, d - 1)
  }

  /** The O(1) offset `it + d` agrees with `d` successive `++` steps. */
  lemma {:induction false} PlusIsRepeatedNext<T(0)>(it: Iter<T>, d: nat)
    requires it.vec != null && it.index <= it.vec.size
    ensures it.Plus(d) == Advance(it, d)
    decreases d
  {
    if d > 0 && it.index < it.vec.size {
      var next := Iter(it.vec, it.index + 1);
      assert it.Next() == Ok(next);
      PlusIsRepeatedNext(next, d - 1);
    }
  }

  /** A traversal from `begin()` reaches every element in order and arrives at `end()` after
      exactly `csize` steps; one more step fails. */
  lemma TraversalVisitsContents<T(0)>(v: Vector<T>, k: nat)
    requires v.Valid()
    ensures k <= v.size ==> Advance(v.Begin(), k) == Ok(Iter(v, k))
    ensures k < v.size ==> Iter(v, k).Deref() == Ok(v.Contents()[k])
    ensures Advance(v.Begin(), v.size) == Ok(v.End())
    ensures Advance(v.Begin(), v.size + 1).Err?
  {
    PlusIsRepeatedNext(v.Begin(), k);
    PlusIsRepeatedNext(v.Begin(), v.size);
    PlusIsRepeatedNext(v.Begin(), v.size + 1);
  }

  /** `++` then `--` returns to the starting position. */
  lemma NextThenPrev<T(0)>(it: Iter<T>)
    requires it.vec != null && it.index < it.vec.size
    ensures it.Next().Ok? && it.Next().value.Prev() == Ok(it)
  {
  }

  /** `begin() - 1` on any vector: the source yields index 2^64 - 1, the intended guard throws. */
  lemma BeginMinusOneWraps<T(0)>(v: Vector?<T>)
    ensures Iter(v, 0).MinusAsWritten(1) == Ok(Iter(v, SizeRange - 1))
    ensures Iter(v, 0).Minus(1) == Err(OutOfRange)
  {
  }

  /** Two vectors that are both full at the same capacity: copy assignment as written throws. */
  method FullAssignmentThrows() returns (r: Outcome)
    ensures r == Fail(BadArrayNewLength)
  {
    var a := new Vector<int>();
    a.Append(1);
    a.Append(2);
    var b := new Vector<int>();
    b.Append(3);
    b.Append(4);
    r := a.AssignAsWritten(b);
  }

  /** The same assignment with the intended guard copies the elements. */
  method FullAssignmentCopies() returns (first: Result<int>, second: Result<int>)
    ensures first == Ok(3) && second == Ok(4)
  {
    var a := new Vector<int>();
    a.Append(1);
    a.Append(2);
    var b := new Vector<int>();
    b.Append(3);
    b.Append(4);
    a.Assign(b);
    first := a.Begin().Deref();
    second := Iter(a, 1).Deref();
  }

  /** `append(v)` then `popLast()` returns `v` and restores the contents. */
  method AppendThenPopLast<T(0)>(v: Vector<T>, x: T) returns (r: Result<T>)
    requires v.Valid()
    modifies v, v.tab
    ensures v.Valid() && r == Ok(x) && v.Contents() == old(v.Contents())
  {
    v.Append(x);
    r := v.PopLast();
  }

  /** `prepend(v)` then `popFirst()` returns `v` and restores the contents. */
  method PrependThenPopFirst<T(0)>(v: Vector<T>, x: T) returns (r: Result<T>)
    requires v.Valid()
    modifies v, v.tab
    ensures v.Valid() && r == Ok(x) && v.Contents() == old(v.Contents())
  {
    v.Prepend(x);
    r := v.PopFirst();
  }
}
