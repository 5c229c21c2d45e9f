// The element buffer manager that matrices share. A manager owns (or, when
// built without cloning, borrows) a run of size elements; matrices hold a
// reference to it next to their own start offset.

module Data {
  import opened Errors

  class MatrixData<T(0)> {
    /** The storage; null for a manager without storage. */
    var data: array?<T>
    /** The element the data pointer addresses is data[origin]. */
    var origin: nat
    var size: nat

    ghost predicate Valid()
      reads this
    {
      data != null ==> origin + size <= data.Length
    }

    /** The elements the manager holds. */
    ghost function Contents(): seq<T>
      reads this, data
      requires Valid() && data != null
    {
      data[origin..origin + size]
    }

    /** MatrixData(size, args...): fresh storage of size elements, each built from the same argument. */
    constructor Filled(size: nat, v: T)
      ensures Valid() && data != null && fresh(data) && origin == 0 && this.size == size
      ensures data.Length == size && Contents() == seq(size, _ => v)
    {
      this.size := size;
      origin := 0;
      data := new T[size];
      new;
      ConstructInRange(0, size, v);
    }

    /** MatrixData(): no storage. */
    constructor Empty()
      ensures Valid() && data == null && origin == 0 && size == 0
    {
      data, origin, size := null, 0, 0;
    }

    /** Builds every element of data[lo..hi) from v, one position after the other. */
    method ConstructInRange(lo: nat, hi: nat, v: T)
      requires data != null && lo <= hi <= data.Length
      modifies data
      ensures data[..] == old(data[..lo]) + seq(hi - lo, _ => v) + old(data[hi..])
    {
      var p := lo;
      while p != hi
        invariant lo <= p <= hi
        invariant data[..] == old(data[..lo]) + seq(p - lo, _ => v) + old(data[p..])
      {
        data[p] := v;
        assert old(data[p..])[1..] == old(data[p + 1..]);
        assert seq(p - lo, _ => v) + [v] == seq(p + 1 - lo, _ => v);
        p := p + 1;
      }
    }

    /**
     * MatrixData(size, const T* src): a null source is refused with a runtime
     * error; otherwise the size elements at the source are copied into fresh
     * storage.
     */
    static method FromConst(size: nat, src: array?<T>, off: nat) returns (r: Result<MatrixData<T>>)
      requires src != null ==> off + size <= src.Length
      ensures src == null <==> r.Failure?
      ensures r.Failure? ==> r.error == RuntimeError
      ensures r.Success? ==> fresh(r.value) && fresh(r.value.data) && r.value.Valid() && r.value.data != null
      ensures r.Success? ==> r.value.size == size && r.value.origin == 0 && r.value.Contents() == src[off..off + size]
    {
      if src == null {
        return Failure(RuntimeError);
      }
      var m := new MatrixData.Empty();
      m.AllocateUninitialized(size);
      m.CopyIn(src, off);
      return Success(m);
    }

    /**
     * MatrixData(size, T* src, clone): a null source is refused with a runtime
     * error; with clone the elements are copied into fresh storage, without
     * it the manager aliases the caller's storage.
     */
    static method FromPointer(size: nat, src: array?<T>, off: nat, clone: bool) returns (r: Result<MatrixData<T>>)
      requires src != null ==> off + size <= src.Length
      ensures src == null <==> r.Failure?
      ensures r.Failure? ==> r.error == RuntimeError
      ensures r.Success? ==> fresh(r.value) && r.value.Valid() && r.value.data != null && r.value.size == size
      ensures r.Success? ==> r.value.Contents() == src[off..off + size]
      ensures r.Success? && clone ==> fresh(r.value.data) && r.value.origin == 0
      ensures r.Success? && !clone ==> r.value.data == src && r.value.origin == off
    {
      if src == null {
        return Failure(RuntimeError);
      }
      var m := new MatrixData.Empty();
      if clone {
        m.AllocateUninitialized(size);
        m.CopyIn(src, off);
      } else {
        m.data, m.origin, m.size := src, off, size;
      }
      return Success(m);
    }

    /** std::copy of size source elements into the front of the storage. */
    method CopyIn(src: array<T>, off: nat)
      requires data != null && src != data && origin == 0 && size <= data.Length && off + size <= src.Length
      modifies data
      ensures data[..size] == src[off..off + size] && data[size..] == old(data[size..])
    {
      var i := 0;
      while i < size
        invariant 0 <= i <= size
        invariant data[..i] == src[off..off + i] && data[size..] == old(data[size..])
      {
        data[i] := src[off + i];
        i := i + 1;
      }
    }

    /** clone(): a new manager holding an element-wise equal copy in storage of its own. */
    method Clone() returns (r: Result<MatrixData<T>>)
      requires Valid()
      ensures data == null <==> r.Failure?
      ensures r.Failure? ==> r.error == RuntimeError
      ensures r.Success? ==> fresh(r.value) && fresh(r.value.data) && r.value.Valid() && r.value.data != null
      ensures r.Success? ==> r.value.size == size && r.value.Contents() == Contents()
    {
      r := FromPointer(size, data, origin, true);
    }

    /** allocate_uninitialized(n): fresh storage of n elements whose values are unspecified. */
    method AllocateUninitialized(n: nat)
      modifies this
      ensures Valid() && data != null && fresh(data) && data.Length == n && size == n && origin == 0
    {
      size := n;
      data := new T[n];
      origin := 0;
    }
  }

  /** make_manager(size, v): a manager of size copies of v. */
  method MakeManager<T(0)>(size: nat, v: T) returns (m: MatrixData<T>)
    ensures fresh(m) && fresh(m.data) && m.Valid() && m.data != null && m.size == size && m.origin == 0
    ensures m.data.Length == size && m.Contents() == seq(size, _ => v)
  {
    m := new MatrixData.Filled(size, v);
  }

  /** make_manager_uninit(size): a manager of size unspecified elements. */
  method MakeManagerUninit<T(0)>(size: nat) returns (m: MatrixData<T>)
    ensures fresh(m) && fresh(m.data) && m.Valid() && m.data != null && m.size == size && m.origin == 0
    ensures m.data.Length == size
  {
    m := new MatrixData.Empty();
    m.AllocateUninitialized(size);
  }
}
