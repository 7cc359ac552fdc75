/** The sliding byte buffer of libevent: data is appended at the end, drained from the front by
    moving an offset, and moved back to the start only when room runs out. */
module EvBuffer {
  import opened Octets

  /** Double, from at least 256, until the need is met. */
  method NewLength(length: nat, need: nat) returns (r: nat)
    ensures r >= need && r >= length && r >= 256
  {
    r := if length < 256 then 256 else length;
    while r < need
      invariant r >= length && r >= 256
      decreases need - r
    {
      r := 2 * r;
    }
  }

  lemma PutSlice(b: Bytes, at: nat, bytes: Bytes, from: nat)
    requires from <= at && at + |bytes| <= |b|
    ensures Put(b, at, bytes)[from..at + |bytes|] == b[from..at] + bytes
  {}

  class Buffer {
    var store: array<byte>  // the allocation; its length is `totallen`
    var misalign: nat
    var off: nat

    ghost predicate Valid()
      reads this
    {
      misalign + off <= store.Length
    }

    /** The bytes the buffer stands for. */
    ghost function Content(): Bytes
      requires Valid()
      reads this, store
    {
      store[misalign..misalign + off]
    }

    constructor ()
      ensures Valid() && Content() == [] && fresh(store)
    {
      store := new byte[0];
      misalign, off := 0, 0;
    }

    /** Move the data back to the start of the allocation. */
    method Align()
      requires Valid()
      modifies this`misalign, store
      ensures Valid() && misalign == 0 && off == old(off) && store == old(store) && Content() == old(Content())
    {
      MoveToFront(store, misalign, off);
      misalign := 0;
    }

    /** Make room for `n` more bytes; `granted` is the answer of the allocator. */
    method Expand(n: nat, granted: bool) returns (ok: bool)
      requires Valid()
      modifies this`store, this`misalign, store
      ensures Valid() && off == old(off) && Content() == old(Content())
      ensures ok ==> misalign + off + n <= store.Length
      ensures !ok ==> !granted && store == old(store)
      ensures store == old(store) || fresh(store)
    {
      var need := misalign + off + n;
      if store.Length >= need { return true; }
      if misalign >= n {
        Align();
        return true;
      }
      var length := NewLength(store.Length, need);
      if misalign != 0 { Align(); }
      if !granted { return false; }
      var bigger := Enlarge(store, length);
      assert bigger[..off] == bigger[..store.Length][..off] == store[..off];
      store := bigger;
      return true;
    }

    method Add(data: Bytes, granted: bool) returns (ok: bool)
      requires Valid()
      modifies this, store
      ensures Valid() && (store == old(store) || fresh(store))
      ensures Content() == if ok then old(Content()) + data else old(Content())
      ensures granted ==> ok
    {
      if store.Length < misalign + off + |data| {
        ok := Expand(|data|, granted);
        if !ok { return; }
      }
      Append(data);
      ok := true;
    }

    method Append(data: Bytes)
      requires Valid() && misalign + off + |data| <= store.Length
      modifies this`off, store
      ensures Valid() && Content() == old(Content()) + data
    {
      hide Put;
      PutSlice(store[..], misalign + off, data, misalign);
      Copy(store, misalign + off, data);
      off := off + |data|;
      assert Content() == store[..][misalign..misalign + off];
      assert old(Content()) == old(store[..])[old(misalign)..old(misalign + off)];
    }

    /** EVBUFFER_DATA and EVBUFFER_LENGTH. */
    method Data() returns (s: Bytes)
      requires Valid()
      ensures s == Content()
    {
      s := store[misalign..misalign + off];
    }

    /** Drop bytes from the front; draining all of them also resets the offset. */
    method Drain(n: nat)
      requires Valid()
      modifies this`misalign, this`off
      ensures Valid() && Content() == if n >= |old(Content())| then [] else old(Content())[n..]
      ensures n >= old(off) ==> misalign == 0
    {
      if n >= off {
        off, misalign := 0, 0;
        return;
      }
      misalign := misalign + n;
      off := off - n;
    }

    method Remove(n: nat) returns (data: Bytes)
      requires Valid()
      modifies this`misalign, this`off
      ensures Valid() && data + Content() == old(Content())
      ensures |data| == if n >= |old(Content())| then |old(Content())| else n
    {
      var k := if n >= off then off else n;
      data := store[misalign..misalign + k];
      Drain(k);
    }

    /** Move everything from another buffer to the end of this one; when this one is empty the
        two simply exchange their allocations. A buffer added to itself ends up empty. */
    method AddBuffer(src: Buffer, granted: bool) returns (ok: bool)
      requires Valid() && src.Valid() && (src != this ==> src.store != store)
      modifies this, store, src, src.store
      ensures Valid() && src.Valid() && (src != this ==> src.store != store)
      ensures ok ==> src.Content() == [] && (src != this ==> Content() == old(Content()) + old(src.Content()))
      ensures !ok ==> Content() == old(Content()) && src.Content() == old(src.Content())
      ensures granted ==> ok
      ensures store in {old(store), old(src.store)} || fresh(store)
      ensures src.store in {old(store), old(src.store)} || fresh(src.store)
    {
      if off == 0 {
        var s, m, o := store, misalign, off;
        store, misalign, off := src.store, src.misalign, src.off;
        src.store, src.misalign, src.off := s, m, o;
        return true;
      }
      ghost var c, d := Content(), src.Content();
      ok := Add(src.store[src.misalign..src.misalign + src.off], granted);
      assert src != this ==> src.Content() == d;
      if ok { src.Drain(src.off); }
    }
  }
}
