/** HVLBuf of base/hbuf.h: a window of bytes that grows at both ends of a buffer. */
module VLBufs {
  type Str = seq<bv8>

  function Max(a: nat, b: nat): nat { if a > b then a else b }

  class VLBuf {
    var base: array<bv8>
    var offset: nat
    var size: nat

    ghost predicate Valid()
      reads this
    {
      offset + size <= base.Length
    }

    ghost function Contents(): Str
      requires Valid()
      reads this, base
    {
      base[offset..offset + size]
    }

    constructor (cap: nat)
      ensures Valid() && Contents() == [] && fresh(base) && base.Length == cap
    {
      base := new bv8[cap];
      offset, size := 0, 0;
    }

    /** HBuf::resize, to more bytes. */
    method Resize(cap: nat)
      requires Valid() && base.Length <= cap
      modifies `base
      ensures Valid() && Contents() == old(Contents()) && base.Length == cap && (base == old(base) || fresh(base))
    {
      if cap == base.Length { return; }
      var b := new bv8[cap];
      for i := 0 to base.Length
        invariant forall j :: 0 <= j < i ==> b[j] == base[j]
        modifies b
      {
        b[i] := base[i];
      }
      assert b[offset..offset + size] == base[offset..offset + size];
      base := b;
    }

    /** memmove of the window to `dst`: upwards from its last byte, downwards from its first. */
    method Move(dst: nat)
      requires Valid() && dst + size <= base.Length
      modifies base, `offset
      ensures Valid() && Contents() == old(Contents()) && offset == dst
    {
      if dst <= offset { MoveDown(dst); } else { MoveUp(dst); }
      offset := dst;
    }

    method MoveDown(dst: nat)
      requires Valid() && dst <= offset
      modifies base
      ensures base[dst..dst + size] == old(Contents())
    {
      ghost var was := Contents();
      for i := 0 to size
        invariant forall k :: dst <= k < dst + i ==> base[k] == was[k - dst]
        invariant forall k :: offset + i <= k < offset + size ==> base[k] == was[k - offset]
        modifies base
      {
        base[dst + i] := base[offset + i];
      }
    }

    method MoveUp(dst: nat)
      requires Valid() && offset <= dst && dst + size <= base.Length
      modifies base
      ensures base[dst..dst + size] == old(Contents())
    {
      ghost var was := Contents();
      for i := size downto 0
        invariant forall k :: dst + i <= k < dst + size ==> base[k] == was[k - dst]
        invariant forall k :: offset <= k < offset + i ==> base[k] == was[k - offset]
        modifies base
      {
        base[dst + i] := base[offset + i];
      }
    }

    /** memcpy of `s` to `dst`, next to the window. */
    method Copy(dst: nat, s: Str)
      requires Valid() && dst + |s| <= base.Length && (dst + |s| <= offset || offset + size <= dst)
      modifies base
      ensures Contents() == old(Contents()) && base[dst..dst + |s|] == s
    {
      ghost var was := base[..];
      for i := 0 to |s|
        invariant forall k :: dst <= k < dst + i ==> base[k] == s[k - dst]
        invariant forall k :: 0 <= k < base.Length && (k < dst || dst + |s| <= k) ==> base[k] == was[k]
        modifies base
      {
        base[dst + i] := s[i];
      }
      assert base[offset..offset + size] == was[offset..offset + size];
    }

    method PushFront(s: Str)
      requires Valid()
      modifies this, base
      ensures Valid() && Contents() == s + old(Contents()) && (base == old(base) || fresh(base))
      ensures base.Length == if |s| > old(base.Length - size) then 2 * Max(old(base.Length), |s|) else old(base.Length)
    {
      RoomBefore(|s|);
      PutBefore(s);
    }

    method PutBefore(s: Str)
      requires Valid() && |s| <= offset
      modifies `offset, `size, base
      ensures Valid() && Contents() == s + old(Contents())
    {
      Copy(offset - |s|, s);
      Joined(base, offset - |s|, offset, offset + size);
      offset := offset - |s|;
      size := size + |s|;
    }

    method RoomBefore(len: nat)
      requires Valid()
      modifies `base, `offset, base
      ensures Valid() && len <= offset && Contents() == old(Contents()) && (base == old(base) || fresh(base))
      ensures base.Length == if len > old(base.Length - size) then 2 * Max(old(base.Length), len) else old(base.Length)
    {
      if len > base.Length - size {
        Resize(Max(base.Length, len) * 2);
      }
      if offset < len {
        Move(base.Length - size);
      }
    }

    method PushBack(s: Str)
      requires Valid()
      modifies this, base
      ensures Valid() && Contents() == old(Contents()) + s && (base == old(base) || fresh(base))
      ensures base.Length == if |s| > old(base.Length - size) then 2 * Max(old(base.Length), |s|) else old(base.Length)
    {
      RoomBehind(|s|);
      PutBehind(s);
    }

    method PutBehind(s: Str)
      requires Valid() && offset + size + |s| <= base.Length
      modifies `size, base
      ensures Valid() && Contents() == old(Contents()) + s
    {
      Copy(offset + size, s);
      Joined(base, offset, offset + size, offset + size + |s|);
      size := size + |s|;
    }

    method RoomBehind(len: nat)
      requires Valid()
      modifies `base, `offset, base
      ensures Valid() && offset + size + len <= base.Length
      ensures Contents() == old(Contents()) && (base == old(base) || fresh(base))
      ensures base.Length == if len > old(base.Length - size) then 2 * Max(old(base.Length), len) else old(base.Length)
    {
      if len > base.Length - size {
        Resize(Max(base.Length, len) * 2);
      } else if len > base.Length - offset - size {
        Move(0);
      }
    }

    /** Takes `len` bytes from the front, when there are so many. */
    method PopFront(len: nat) returns (s: Str)
      requires Valid()
      modifies `offset, `size
      ensures Valid()
      ensures if len <= old(size) then s + Contents() == old(Contents()) && |s| == len
              else s == [] && Contents() == old(Contents())
    {
      s := [];
      if len <= size {
        s := base[offset..offset + len];
        Joined(base, offset, offset + len, offset + size);
        offset := offset + len;
        if offset >= base.Length { offset := 0; }
        size := size - len;
      }
    }

    method PopBack(len: nat) returns (s: Str)
      requires Valid()
      modifies `size
      ensures Valid()
      ensures if len <= old(size) then Contents() + s == old(Contents()) && |s| == len
              else s == [] && Contents() == old(Contents())
    {
      s := [];
      if len <= size {
        s := base[offset + size - len..offset + size];
        Joined(base, offset, offset + size - len, offset + size);
        size := size - len;
      }
    }
  }

  lemma Joined(a: array<bv8>, i: nat, j: nat, k: nat)
    requires i <= j <= k <= a.Length
    ensures a[i..k] == a[i..j] + a[j..k]
  {
  }
}
