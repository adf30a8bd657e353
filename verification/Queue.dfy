/** QUEUE_DECL of base/queue.h: a window of an array that is a queue at its front and a stack at its back. */
module Queues {
  const QUEUE_INIT_SIZE: nat := 16

  class Queue<T(0)> {
    var ptr: array<T>
    var size: nat
    var offset: nat

    ghost predicate Valid()
      reads this
    {
      offset + size <= ptr.Length && (offset == ptr.Length ==> ptr.Length == 0)
    }

    ghost function Contents(): seq<T>
      requires Valid()
      reads this, ptr
    {
      ptr[offset..offset + size]
    }

    constructor (maxsize: nat)
      ensures Valid() && Contents() == [] && fresh(ptr) && ptr.Length == maxsize
    {
      ptr := new T[maxsize];
      size, offset := 0, 0;
    }

    predicate Empty()
      requires Valid()
      reads this, ptr
      ensures Empty() <==> Contents() == []
    {
      assert Contents() == [] <==> |Contents()| == 0;
      size == 0
    }

    method Front() returns (x: T)
      requires Valid() && Contents() != []
      ensures x == Contents()[0]
    {
      x := ptr[offset];
    }

    /** Assignment through the pointer that front returns. */
    method SetFront(x: T)
      requires Valid() && Contents() != []
      modifies ptr
      ensures Valid() && Contents() == [x] + old(Contents()[1..])
    {
      ghost var rest := ptr[offset + 1..offset + size];
      ptr[offset] := x;
      assert ptr[offset + 1..offset + size] == rest;
      assert old(Contents()[1..]) == rest;
    }

    /** hv_realloc keeps the first elements and clears the new ones; the queue survives exactly when its window does. */
    method Resize(maxsize: nat)
      requires Valid()
      modifies `ptr
      ensures fresh(ptr) && ptr.Length == if maxsize == 0 then QUEUE_INIT_SIZE else maxsize
      ensures Valid() <==> offset + size <= ptr.Length && offset < ptr.Length
      ensures Valid() ==> Contents() == old(Contents())
    {
      var n := if maxsize == 0 then QUEUE_INIT_SIZE else maxsize;
      var keep := if ptr.Length < n then ptr.Length else n;
      var p := new T[n];
      for i := 0 to keep
        invariant forall j :: 0 <= j < i ==> p[j] == ptr[j]
        modifies p
      {
        p[i] := ptr[i];
      }
      assert offset + size <= n ==> p[offset..offset + size] == ptr[offset..offset + size];
      ptr := p;
    }

    /** Appends, after doubling a full array or moving the window back to the front. */
    method PushBack(x: T)
      requires Valid()
      modifies this, ptr
      ensures Valid() && Contents() == old(Contents()) + [x] && (ptr == old(ptr) || fresh(ptr))
      ensures ptr.Length == if old(size) < old(ptr.Length) then old(ptr.Length)
                            else if old(ptr.Length) == 0 then QUEUE_INIT_SIZE else 2 * old(ptr.Length)
    {
      if size == ptr.Length {
        Resize(ptr.Length * 2);
      } else if offset + size == ptr.Length {
        MoveToFront();
      }
      ghost var was := Contents();
      ptr[offset + size] := x;
      assert ptr[offset..offset + size] == was;
      size := size + 1;
      assert Contents() == was + [x];
    }

    method MoveToFront()
      requires Valid() && size < ptr.Length
      modifies `offset, ptr
      ensures Valid() && Contents() == old(Contents()) && offset == 0
    {
      for i := 0 to size
        invariant forall j :: 0 <= j < i ==> ptr[j] == old(ptr[offset + j])
        invariant forall k :: offset + i <= k < offset + size ==> ptr[k] == old(ptr[k])
        modifies ptr
      {
        ptr[i] := ptr[offset + i];
      }
      offset := 0;
    }

    method PopFront()
      requires Valid() && Contents() != []
      modifies this
      ensures Valid() && ptr == old(ptr) && Contents() == old(Contents()[1..])
    {
      size := size - 1;
      offset := offset + 1;
      if offset == ptr.Length { offset := 0; }
    }

    method PopBack()
      requires Valid() && Contents() != []
      modifies this
      ensures Valid() && ptr == old(ptr) && Contents() == old(Contents()[..|Contents()| - 1])
    {
      size := size - 1;
    }

    /** The cleanup that frees the array. */
    method Cleanup()
      modifies this
      ensures Valid() && Contents() == [] && fresh(ptr)
    {
      ptr := new T[0];
      size, offset := 0, 0;
    }
  }
}
