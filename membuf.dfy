/** membuf: an auto-enlarging contiguous byte buffer whose first
    MEMBUF_INLINE_CAPACITY bytes of storage live inside the struct itself. */
module Membuf {
  import opened Bytes

  /** MEMBUF_INLINE_CAPACITY. */
  const INLINE_CAPACITY: nat := 512

  /** Every growth keeps `size + n` at or below 2^31, so that the doubled buffer
      size always fits in an `unsigned int`. */
  const MAX_DATA_SIZE: nat := 0x8000_0000

  function Pow2(j: nat): (r: nat)
    ensures 1 <= r
  {
    if j == 0 then 1 else 2 * Pow2(j - 1)
  }

  /** The doubling loop of membuf_ensure_new_size: double `start` until it
      is at least `need`. */
  function Doubled(start: nat, need: nat): (r: nat)
    requires 0 < start
    ensures start <= r && need <= r
    decreases if start >= need then 0 else need - start
  {
    if start >= need then start else Doubled(2 * start, need)
  }

  /** Growing from `cap` to hold `need` bytes gives cap * 2^j for the smallest
      j >= 1 with cap * 2^j >= need. */
  lemma GrowthIsMinimalDoubling(cap: nat, need: nat)
    requires 0 < cap < need
    ensures exists j: nat :: 1 <= j && Doubled(2 * cap, need) == cap * Pow2(j)
                            && need <= cap * Pow2(j) && cap * Pow2(j - 1) < need
  {
    DoublingSteps(cap, 1, need);
  }

  lemma {:induction false} DoublingSteps(cap: nat, i: nat, need: nat)
    requires 0 < cap && 1 <= i && cap * Pow2(i - 1) < need
    ensures exists j: nat :: i <= j && Doubled(cap * Pow2(i), need) == cap * Pow2(j)
                            && need <= cap * Pow2(j) && cap * Pow2(j - 1) < need
    decreases need - cap * Pow2(i - 1)
  {
    var c := cap * Pow2(i);
    assert c == 2 * (cap * Pow2(i - 1));
    assert 0 < cap * Pow2(i - 1) < c;
    if c < need {
      assert cap * Pow2(i + 1) == 2 * c;
      DoublingSteps(cap, i + 1, need);
    }
  }

  /** The doubling overshoots by less than a factor of two. */
  lemma {:induction false} DoubledBelowTwiceNeed(start: nat, need: nat)
    requires 0 < start < 2 * need
    ensures Doubled(start, need) < 2 * need
    decreases if start >= need then 0 else need - start
  {
    if start < need {
      DoubledBelowTwiceNeed(2 * start, need);
    }
  }

  /** The abstract state of a buffer: what exchange swaps. */
  datatype BufView = BufView(contents: seq<byte>, size: nat, bufferSize: nat, inline: bool)

  class MemBuf {
    /** inline_buffer[MEMBUF_INLINE_CAPACITY], embedded in the struct. */
    const inlineBuffer: array<byte>
    /** Points at inlineBuffer or at heap storage; null once uninitialised. */
    var data: array?<byte>
    var size: nat
    var bufferSize: nat

    /** The bytes the buffer holds. */
    ghost var contents: seq<byte>
    ghost var Repr: set<object>

    /** `data == inline_buffer`. */
    predicate IsInline()
      reads this
    {
      data == inlineBuffer
    }

    ghost predicate Valid()
      reads this, Repr
    {
      && data != null
      && Repr == {this, inlineBuffer, data}
      && inlineBuffer.Length == INLINE_CAPACITY
      && data.Length == bufferSize
      && size <= bufferSize <= UINT_MAX
      && (IsInline() ==> bufferSize == INLINE_CAPACITY)
      && (!IsInline() ==> INLINE_CAPACITY < bufferSize)
      && contents == data[..size]
    }

    ghost function View(): BufView
      reads this
    {
      BufView(contents, size, bufferSize, IsInline())
    }

    /** Every byte of the storage past `size` is zero. */
    ghost predicate ZeroTail()
      reads this, Repr
      requires Valid()
    {
      forall i :: size <= i < bufferSize ==> data[i] == 0
    }

    /** membuf_init: zeroes the struct; the storage is inline when the requested
        size fits in it (the buffer size is then the inline capacity, whatever was
        asked for), and otherwise a heap block of exactly the requested size. */
    constructor Init(initialBufferSize: nat)
      requires initialBufferSize <= UINT_MAX
      ensures Valid() && fresh(Repr)
      ensures contents == [] && size == 0
      ensures IsInline() <==> initialBufferSize <= INLINE_CAPACITY
      ensures bufferSize == if initialBufferSize <= INLINE_CAPACITY then INLINE_CAPACITY else initialBufferSize
      ensures forall i :: 0 <= i < INLINE_CAPACITY ==> inlineBuffer[i] == 0
      ensures IsInline() ==> ZeroTail()
    {
      var ib := new byte[INLINE_CAPACITY](_ => NUL);
      var d := ib;
      if initialBufferSize <= INLINE_CAPACITY {
        bufferSize := INLINE_CAPACITY;
      } else {
        d := new byte[initialBufferSize];
        bufferSize := initialBufferSize;
      }
      inlineBuffer := ib;
      data := d;
      size := 0;
      contents := [];
      Repr := {this, ib, d};
    }

    /** membuf_uninit: releases heap storage and zeroes the struct. */
    method Uninit()
      requires Valid()
      modifies this, inlineBuffer
      ensures data == null && size == 0 && bufferSize == 0 && contents == []
      ensures forall i :: 0 <= i < INLINE_CAPACITY ==> inlineBuffer[i] == 0
      ensures Repr == {this, inlineBuffer}
    {
      forall i | 0 <= i < INLINE_CAPACITY {
        inlineBuffer[i] := 0;
      }
      data := null;
      size := 0;
      bufferSize := 0;
      contents := [];
      Repr := {this, inlineBuffer};
    }

    /** membuf_get_data: null for an empty buffer, the storage otherwise. */
    function GetData(): (r: array?<byte>)
      reads this
      ensures size == 0 ==> r == null
      ensures size != 0 ==> r == data
    {
      if size == 0 then null else data
    }

    /** membuf_get_size: the number of bytes held. */
    function GetSize(): (r: nat)
      reads this, Repr
      requires Valid()
      ensures r == |contents|
    {
      size
    }

    /** membuf_is_empty: true exactly when the buffer HOLDS bytes, the opposite
        of what its name says. */
    function IsEmpty(): (r: bool)
      reads this, Repr
      requires Valid()
      ensures r <==> contents != []
    {
      size > 0
    }

    /** membuf_empty: forgets the contents and keeps the storage. */
    method Empty()
      requires Valid()
      modifies this
      ensures Valid() && Repr == old(Repr)
      ensures contents == [] && size == 0
      ensures data == old(data) && bufferSize == old(bufferSize)
    {
      size := 0;
      contents := [];
    }

    /** membuf_ensure_new_size: afterwards at least `newSize` bytes are free.
        When that many were already free nothing changes; otherwise the buffer
        size doubles until it suffices, the storage moves to the heap with the
        held bytes copied, and everything past them is zeroed. */
    method EnsureNewSize(newSize: nat)
      requires Valid() && size + newSize <= MAX_DATA_SIZE
      modifies Repr
      ensures Valid() && fresh(Repr - old(Repr))
      ensures size == old(size) && contents == old(contents)
      ensures newSize <= bufferSize - size
      ensures newSize <= old(bufferSize) - old(size) ==>
                && bufferSize == old(bufferSize) && data == old(data)
                && data[..] == old(data[..]) && inlineBuffer[..] == old(inlineBuffer[..])
      ensures old(bufferSize) - old(size) < newSize ==>
                && bufferSize == Doubled(2 * old(bufferSize), size + newSize)
                && !IsInline() && fresh(data)
                && (forall i :: size <= i < bufferSize ==> data[i] == 0)
                && (old(IsInline()) ==> forall i :: 0 <= i < INLINE_CAPACITY ==> inlineBuffer[i] == 0)
                && (!old(IsInline()) ==> inlineBuffer[..] == old(inlineBuffer[..]))
      ensures old(ZeroTail()) ==> ZeroTail()
    {
      if newSize > bufferSize - size {
        var newDataSize := size + newSize;
        var newBufferSize := bufferSize * 2;
        while newBufferSize < newDataSize
          invariant 0 < newBufferSize
          invariant Doubled(newBufferSize, newDataSize) == Doubled(2 * bufferSize, newDataSize)
          decreases newDataSize - newBufferSize
        {
          newBufferSize := newBufferSize * 2;
        }
        DoubledBelowTwiceNeed(2 * bufferSize, newDataSize);
        assert newBufferSize > INLINE_CAPACITY;
        // malloc + memcpy from the inline buffer, or realloc of the heap block
        var grown := new byte[newBufferSize];
        forall i | 0 <= i < size {
          grown[i] := data[i];
        }
        if data == inlineBuffer {
          forall i | 0 <= i < INLINE_CAPACITY {
            inlineBuffer[i] := 0;
          }
        }
        data := grown;
        bufferSize := newBufferSize;
        forall i | size <= i < newBufferSize {
          grown[i] := 0;
        }
        Repr := {this, inlineBuffer, grown};
        assert grown[..size] == old(data[..size]);
      }
    }

    /** membuf_append_data: appends `d` (never empty) and returns the offset it
        was stored at, the old size. */
    method AppendData(d: seq<byte>) returns (offset: nat)
      requires Valid() && 0 < |d| && size + |d| <= MAX_DATA_SIZE
      modifies Repr
      ensures Valid() && fresh(Repr - old(Repr))
      ensures contents == old(contents) + d && offset == old(size)
      ensures bufferSize == if |d| <= old(bufferSize) - old(size) then old(bufferSize)
                            else Doubled(2 * old(bufferSize), old(size) + |d|)
      ensures IsInline() ==> old(IsInline())
      ensures old(ZeroTail()) ==> ZeroTail()
    {
      EnsureNewSize(|d|);
      forall i | 0 <= i < |d| {
        data[size + i] := d[i];
      }
      size := size + |d|;
      contents := contents + d;
      offset := size - |d|;
    }

    /** membuf_append_zeros: appends `n` zero bytes, writing them explicitly
        since an exchange may have left stale bytes past `size`. */
    method AppendZeros(n: nat) returns (offset: nat)
      requires Valid() && size + n <= MAX_DATA_SIZE
      modifies Repr
      ensures Valid() && fresh(Repr - old(Repr))
      ensures contents == old(contents) + seq(n, _ => 0) && offset == old(size)
      ensures bufferSize == if n <= old(bufferSize) - old(size) then old(bufferSize)
                            else Doubled(2 * old(bufferSize), old(size) + n)
      ensures IsInline() ==> old(IsInline())
    {
      EnsureNewSize(n);
      forall i | 0 <= i < n {
        data[size + i] := 0;
      }
      size := size + n;
      contents := contents + seq(n, _ => 0);
      offset := size - n;
    }

    /** membuf_append_text: with `len == (unsigned)-1` appends strlen(str) bytes,
        otherwise exactly `len` bytes; the count must not be zero (membuf_append_data
        asserts it). */
    method AppendText(str: seq<byte>, len: nat) returns (offset: nat)
      requires Valid() && len <= UINT_MAX
      requires len == UINT_MAX ==> NUL in str && 0 < StrLen(str) && size + StrLen(str) <= MAX_DATA_SIZE
      requires len != UINT_MAX ==> 0 < len <= |str| && size + len <= MAX_DATA_SIZE
      modifies Repr
      ensures Valid() && fresh(Repr - old(Repr))
      ensures contents == old(contents) + str[..if len == UINT_MAX then StrLen(str) else len]
      ensures offset == old(size)
    {
      var n := len;
      if len == UINT_MAX {
        n := StrLen(str);
      }
      offset := AppendData(str[..n]);
    }

    /** membuf_append_byte: appends exactly the one byte `b`. */
    method AppendByte(b: byte) returns (offset: nat)
      requires Valid() && size + 1 <= MAX_DATA_SIZE
      modifies Repr
      ensures Valid() && fresh(Repr - old(Repr))
      ensures contents == old(contents) + [b] && offset == old(size)
    {
      offset := AppendData([b]);
    }

    /** membuf_exchange: the two buffers trade contents, sizes, buffer sizes and
        storage modes; heap storage changes owner, inline bytes are copied. The
        two mixed cases with the operands the other way round delegate to the
        swapped call. */
    static method Exchange(buf1: MemBuf, buf2: MemBuf)
      requires buf1 != buf2 && buf1.Valid() && buf2.Valid() && buf1.Repr !! buf2.Repr
      modifies buf1.Repr, buf2.Repr
      ensures buf1.Valid() && buf2.Valid() && buf1.Repr !! buf2.Repr
      ensures buf1.Repr + buf2.Repr == old(buf1.Repr + buf2.Repr)
      ensures buf1.View() == old(buf2.View()) && buf2.View() == old(buf1.View())
      ensures !buf1.IsInline() ==> buf1.data == old(buf2.data)
      ensures !buf2.IsInline() ==> buf2.data == old(buf1.data)
      decreases if (buf1.IsInline() && buf2.IsInline() && buf1.size > buf2.size)
                   || (!buf1.IsInline() && buf2.IsInline()) then 1 else 0
    {
      if buf1.data == buf1.inlineBuffer {
        if buf2.data == buf2.inlineBuffer {
          if buf1.size <= buf2.size {
            ExchangeInline(buf1, buf2);
          } else {
            Exchange(buf2, buf1);
          }
        } else {
          ExchangeInlineWithHeap(buf1, buf2);
        }
      } else {
        if buf2.data != buf2.inlineBuffer {
          ExchangeHeap(buf1, buf2);
        } else {
          Exchange(buf2, buf1);
        }
      }
    }

    /** Exchange case #1: both inline, the first no longer than the second. The
        shorter payload goes through a scratch buffer; bytes of the second buffer
        past the shorter payload stay behind, stale. */
    static method ExchangeInline(buf1: MemBuf, buf2: MemBuf)
      requires buf1 != buf2 && buf1.Valid() && buf2.Valid() && buf1.Repr !! buf2.Repr
      requires buf1.IsInline() && buf2.IsInline() && buf1.size <= buf2.size
      modifies buf1.Repr, buf2.Repr
      ensures buf1.Valid() && buf2.Valid()
      ensures buf1.Repr == old(buf1.Repr) && buf2.Repr == old(buf2.Repr)
      ensures buf1.View() == old(buf2.View()) && buf2.View() == old(buf1.View())
    {
      var tmp := new byte[INLINE_CAPACITY];
      forall i | 0 <= i < buf1.size {
        tmp[i] := buf1.inlineBuffer[i];
      }
      forall i | 0 <= i < buf2.size {
        buf1.inlineBuffer[i] := buf2.inlineBuffer[i];
      }
      forall i | 0 <= i < buf1.size {
        buf2.inlineBuffer[i] := tmp[i];
      }
      assert buf1.inlineBuffer[..buf2.size] == old(buf2.contents);
      assert buf2.inlineBuffer[..buf1.size] == old(buf1.contents);
      buf1.size, buf2.size := buf2.size, buf1.size;
      buf1.bufferSize, buf2.bufferSize := buf2.bufferSize, buf1.bufferSize;
      buf1.contents, buf2.contents := buf2.contents, buf1.contents;
    }

    /** Exchange case #2: the first inline, the second on the heap. The first
        adopts the heap block; the second copies the inline bytes into its own
        inline buffer. */
    static method ExchangeInlineWithHeap(buf1: MemBuf, buf2: MemBuf)
      requires buf1 != buf2 && buf1.Valid() && buf2.Valid() && buf1.Repr !! buf2.Repr
      requires buf1.IsInline() && !buf2.IsInline()
      modifies buf1.Repr, buf2.Repr
      ensures buf1.Valid() && buf2.Valid() && buf1.Repr !! buf2.Repr
      ensures buf1.Repr + buf2.Repr == old(buf1.Repr + buf2.Repr)
      ensures buf1.View() == old(buf2.View()) && buf2.View() == old(buf1.View())
      ensures buf1.data == old(buf2.data)
    {
      buf1.data := buf2.data;
      buf2.data := buf2.inlineBuffer;
      forall i | 0 <= i < buf1.size {
        buf2.inlineBuffer[i] := buf1.inlineBuffer[i];
      }
      assert buf2.inlineBuffer[..buf1.size] == old(buf1.contents);
      buf1.size, buf2.size := buf2.size, buf1.size;
      buf1.bufferSize, buf2.bufferSize := buf2.bufferSize, buf1.bufferSize;
      buf1.contents, buf2.contents := buf2.contents, buf1.contents;
      buf1.Repr := {buf1, buf1.inlineBuffer, buf1.data};
      buf2.Repr := {buf2, buf2.inlineBuffer};
    }

    /** Exchange case #3: both on the heap; only the pointers move. */
    static method ExchangeHeap(buf1: MemBuf, buf2: MemBuf)
      requires buf1 != buf2 && buf1.Valid() && buf2.Valid() && buf1.Repr !! buf2.Repr
      requires !buf1.IsInline() && !buf2.IsInline()
      modifies buf1, buf2
      ensures buf1.Valid() && buf2.Valid() && buf1.Repr !! buf2.Repr
      ensures buf1.Repr + buf2.Repr == old(buf1.Repr + buf2.Repr)
      ensures buf1.View() == old(buf2.View()) && buf2.View() == old(buf1.View())
      ensures buf1.data == old(buf2.data) && buf2.data == old(buf1.data)
    {
      var tmpData := buf1.data;
      buf1.data := buf2.data;
      buf2.data := tmpData;
      buf1.size, buf2.size := buf2.size, buf1.size;
      buf1.bufferSize, buf2.bufferSize := buf2.bufferSize, buf1.bufferSize;
      buf1.contents, buf2.contents := buf2.contents, buf1.contents;
      buf1.Repr := {buf1, buf1.inlineBuffer, buf1.data};
      buf2.Repr := {buf2, buf2.inlineBuffer, buf2.data};
    }
  }

  /** Exchanging twice restores both buffers. */
  method ExchangeTwice(a: MemBuf, b: MemBuf)
    requires a != b && a.Valid() && b.Valid() && a.Repr !! b.Repr
    modifies a.Repr, b.Repr
    ensures a.Valid() && b.Valid() && a.Repr !! b.Repr
    ensures a.View() == old(a.View()) && b.View() == old(b.View())
    ensures a.data == old(a.data) && b.data == old(b.data)
  {
    MemBuf.Exchange(a, b);
    MemBuf.Exchange(a, b);
  }
}
