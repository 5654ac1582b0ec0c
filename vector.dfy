/** `struct vector` of vector.h and its operations in vector.c: a growable
    array whose first `len` slots hold the items and whose allocation holds
    `cap` slots. Allocation failures are not something Dafny can produce, so
    every operation that allocates takes the allocator's answer as a
    parameter. */
module Vectors {

  class Vector<T(0)> {
    var data: array<T>
    var cap: nat
    var len: nat

    /** The representation invariant: every item lies within the allocation,
        and `cap` is the allocation's size. */
    ghost predicate Valid()
      reads this
    {
      len <= cap && cap == data.Length
    }

    /** The items held, in insertion order. */
    function Items(): seq<T>
      reads this, data
      requires len <= data.Length
    {
      data[..len]
    }

    /** A zero-initialised `struct vector` (`= { 0 }`): no allocation. The
        empty array stands for the NULL `data` pointer. */
    constructor Zero()
      ensures Valid() && cap == 0 && len == 0 && Items() == []
    {
      data := new T[0];
      cap := 0;
      len := 0;
    }

    /** vector_init: allocate `capacity` slots. On failure `cap` is set to 0
        and `data` is NULL (here: an empty array). */
    method Init(capacity: nat, allocOk: bool) returns (ok: bool)
      requires capacity > 0
      modifies this
      ensures ok == allocOk
      ensures Valid() && fresh(data) && Items() == []
      ensures cap == if ok then capacity else 0
    {
      len := 0;
      if !allocOk {
        data := new T[0];
        cap := 0;
        return false;
      }
      data := new T[capacity];
      cap := capacity;
      ok := true;
    }

    /** vector_append, with the capacity doubled only once the reallocation
        has succeeded. A full vector grows to twice its capacity, keeping its
        items; when that reallocation fails the vector is left exactly as it
        was, so it still satisfies `Valid()`. */
    method Append(item: T, reallocOk: bool) returns (ok: bool)
      requires Valid() && cap > 0
      modifies this, data
      ensures Valid() && cap > 0
      ensures ok <==> old(len) < old(cap) || reallocOk
      ensures ok ==> Items() == old(Items()) + [item]
      ensures !ok ==> Items() == old(Items()) && data == old(data)
      ensures cap == if ok && old(len) == old(cap) then 2 * old(cap) else old(cap)
      ensures old(len) < old(cap) ==> data == old(data)
      ensures data == old(data) || fresh(data)
    {
      if len == cap {
        if !reallocOk {
          return false;
        }
        var grown := new T[2 * cap];
        forall i | 0 <= i < len {
          grown[i] := data[i];
        }
        data := grown;
        cap := 2 * cap;
      }
      data[len] := item;
      len := len + 1;
      ok := true;
    }

    /** The store of vector_append stays inside the allocation: a vector
        that is not full has a free allocated slot at index `len`. */
    ghost predicate StoreInBounds()
      reads this
    {
      len <= data.Length && (len < cap ==> len < data.Length)
    }

    /** vector_append as written: `cap` is doubled BEFORE the reallocation
        is attempted, so a failed reallocation leaves `cap` at twice the
        allocation's size and the vector no longer `Valid()`. */
    method AppendAsWritten(item: T, reallocOk: bool) returns (ok: bool)
      requires Valid() && cap > 0
      modifies this, data
      ensures ok <==> old(len) < old(cap) || reallocOk
      ensures ok ==> Valid() && Items() == old(Items()) + [item]
      ensures ok ==> cap == if old(len) == old(cap) then 2 * old(cap) else old(cap)
      ensures !ok ==> cap == 2 * old(cap) && data == old(data) && len == old(len)
      ensures !ok ==> Items() == old(Items())
      ensures !ok ==> !StoreInBounds()
      ensures data == old(data) || fresh(data)
    {
      if len == cap {
        cap := 2 * cap;
        if !reallocOk {
          return false;
        }
        var grown := new T[cap];
        forall i | 0 <= i < len {
          grown[i] := data[i];
        }
        data := grown;
      }
      data[len] := item;
      len := len + 1;
      ok := true;
    }

    /** vector_free: releases the items `data[0..len-1]`, in order, and then
        the allocation; `len` and `cap` are left as they are. The released
        items are returned in the order they are freed. */
    method Free() returns (released: seq<T>)
      requires len <= data.Length
      ensures released == data[..len]
    {
      released := [];
      var i := 0;
      while i < len
        invariant 0 <= i <= len
        invariant released == data[..i]
      {
        released := released + [data[i]];
        i := i + 1;
      }
    }
  }

  /** The input that shows the defect of vector_append as written: a vector
      of capacity 1 holding one item, whose growth fails. Afterwards `cap` is
      2 while only one slot is allocated, so the next append takes the
      no-growth path and stores at index 1, past the end of `data`. */
  method FailedGrowthOverflowsNextStore() returns (v: Vector<string>)
    ensures v.len == 1 && v.cap == 2 && v.data.Length == 1
    ensures !v.StoreInBounds()
  {
    v := new Vector<string>.Zero();
    var ok := v.Init(1, true);
    ok := v.AppendAsWritten("shared_buffers", true);
    ok := v.AppendAsWritten("work_mem", false);
  }
}
