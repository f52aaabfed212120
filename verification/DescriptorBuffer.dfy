/**
  The raw memory map as firmware returns it: a byte buffer holding descriptors at a
  firmware-chosen stride, decoded in the layout of EFI_MEMORY_DESCRIPTOR.
 */
module DescriptorBuffer {
  import opened Words
  import opened MemoryMap
  import opened PhysicalMemory

  /** Type at 0 (with padding), PhysicalStart at 8, VirtualStart at 16, NumberOfPages at 24, Attribute at 32. */
  const DESCRIPTOR_SIZE: int := 40

  function DecodeAt(bytes: seq<byte>, offset: nat): Descriptor
    requires offset + DESCRIPTOR_SIZE <= |bytes|
  {
    LoadFitsWord(bytes, offset, 4);
    LoadFitsWord(bytes, offset + 8, 8);
    LoadFitsWord(bytes, offset + 24, 8);
    LoadFitsWord(bytes, offset + 32, 8);
    Pow256Values();
    Descriptor(Load(bytes, offset, 4), Load(bytes, offset + 8, 8),
               Load(bytes, offset + 24, 8), Load(bytes, offset + 32, 8))
  }

  function EntryOffset(i: nat, stride: nat): nat {
    i * stride
  }

  /** Every entry the buffer is said to hold can be read. */
  predicate EntriesReadable(length: nat, size: nat, stride: nat) {
    stride > 0 && forall i :: 0 <= i < size / stride ==> EntryOffset(i, stride) + DESCRIPTOR_SIZE <= length
  }

  /** That is so for every stride firmware may use. */
  lemma FullStrideIsReadable(length: nat, size: nat, stride: nat)
    requires DESCRIPTOR_SIZE <= stride && size <= length
    ensures EntriesReadable(length, size, stride)
  {
    var n := size / stride;
    forall i | 0 <= i < n
      ensures EntryOffset(i, stride) + stride <= size
    {
      assert size == stride * n + size % stride;
      ProductSize(stride, n - 1 - i);
      assert stride * n == stride * (n - 1 - i) + i * stride + stride;
    }
  }

  /** All whole entries of the buffer. */
  function DecodeMap(bytes: seq<byte>, size: nat, stride: nat): (ds: seq<Descriptor>)
    requires EntriesReadable(|bytes|, size, stride)
    ensures |ds| == size / stride
  {
    seq(size / stride, i requires 0 <= i < size / stride => DecodeAt(bytes, EntryOffset(i, stride)))
  }

  // ------------------------------------------------------------ what is decoded

  /** The buffer holds `d` at `offset`: its fields at 0, 8, 24 and 32, whatever the padding and the virtual start. */
  predicate HoldsAt(bytes: seq<byte>, offset: nat, d: Descriptor)
    requires offset + 40 <= |bytes|
  {
    && Load(bytes, offset, 4) == d.memType
    && Load(bytes, offset + 8, 8) == d.start
    && Load(bytes, offset + 24, 8) == d.pages
    && Load(bytes, offset + 32, 8) == d.attribute
  }

  lemma EntryInside(i: nat, n: nat, stride: nat)
    requires i < n && stride > 0
    ensures i * stride + stride <= n * stride
  {
    ProductSize(stride, n - 1 - i);
    assert n * stride == stride * (n - 1 - i) + i * stride + stride;
  }

  /** A buffer that holds the entries one stride apart decodes to exactly these entries. */
  lemma DecodesTo(bytes: seq<byte>, size: nat, stride: nat, ds: seq<Descriptor>)
    requires 40 <= stride && size <= |bytes| && |ds| * stride <= size < |ds| * stride + stride
    requires forall i :: 0 <= i < |ds| ==> i * stride + 40 <= |bytes| && HoldsAt(bytes, i * stride, ds[i])
    ensures EntriesReadable(|bytes|, size, stride)
    ensures DecodeMap(bytes, size, stride) == ds
  {
    FullStrideIsReadable(|bytes|, size, stride);
    DivisionUnique(size, stride, |ds|, size - |ds| * stride);
    hide HoldsAt;
    forall i | 0 <= i < |ds|
      ensures DecodeMap(bytes, size, stride)[i] == ds[i]
    {
      DecodesAt(bytes, i * stride, ds[i]);
    }
  }

  lemma DecodesAt(bytes: seq<byte>, offset: nat, d: Descriptor)
    requires offset + 40 <= |bytes| && HoldsAt(bytes, offset, d)
    ensures DecodeAt(bytes, offset) == d
  {
  }

  /** The buffer after firmware stores one descriptor, over whatever bytes are there. */
  function EncodeAt(bytes: seq<byte>, offset: nat, d: Descriptor): (r: seq<byte>)
    requires offset + 40 <= |bytes|
    ensures |r| == |bytes|
  {
    var typed := Store(bytes, offset, 4, d.memType);
    var started := Store(typed, offset + 8, 8, d.start);
    var sized := Store(started, offset + 24, 8, d.pages);
    Store(sized, offset + 32, 8, d.attribute)
  }

  /** The buffer after firmware stores a map, one stride per entry. */
  function EncodeMap(bytes: seq<byte>, stride: nat, ds: seq<Descriptor>): (r: seq<byte>)
    requires 40 <= stride && |ds| * stride <= |bytes|
    ensures |r| == |bytes|
  {
    if ds == [] then bytes
    else
      var n := |ds| - 1;
      EntryInside(n, |ds|, stride);
      EncodeAt(EncodeMap(bytes, stride, ds[..n]), n * stride, ds[n])
  }

  lemma LoadsApart(bytes: seq<byte>, address: nat, width: nat, value: nat, other: nat, length: nat)
    requires address + width <= |bytes| && other + length <= |bytes|
    requires other + length <= address || address + width <= other
    ensures Load(Store(bytes, address, width, value), other, length) == Load(bytes, other, length)
  {
    forall x | other <= x < other + length
      ensures Store(bytes, address, width, value)[x] == bytes[x]
    {
      StoreFrame(bytes, address, width, value, x);
    }
    LoadDependsOnRange(Store(bytes, address, width, value), bytes, other, length);
  }

  lemma StoredValue(bytes: seq<byte>, address: nat, width: nat, value: nat)
    requires address + width <= |bytes| && value < Pow256(width)
    ensures Load(Store(bytes, address, width, value), address, width) == value
  {
    LoadAfterStore(bytes, address, width, value);
    SmallMod(value, Pow256(width));
  }

  lemma EncodedIsHeld(bytes: seq<byte>, offset: nat, d: Descriptor)
    requires offset + 40 <= |bytes|
    ensures HoldsAt(EncodeAt(bytes, offset, d), offset, d)
  {
    Pow256Values();
    hide Load;
    hide Store;
    hide Pow256;
    var typed := Store(bytes, offset, 4, d.memType);
    var started := Store(typed, offset + 8, 8, d.start);
    var sized := Store(started, offset + 24, 8, d.pages);
    StoredValue(bytes, offset, 4, d.memType);
    StoredValue(typed, offset + 8, 8, d.start);
    StoredValue(started, offset + 24, 8, d.pages);
    StoredValue(sized, offset + 32, 8, d.attribute);
    LoadsApart(typed, offset + 8, 8, d.start, offset, 4);
    LoadsApart(started, offset + 24, 8, d.pages, offset, 4);
    LoadsApart(sized, offset + 32, 8, d.attribute, offset, 4);
    LoadsApart(started, offset + 24, 8, d.pages, offset + 8, 8);
    LoadsApart(sized, offset + 32, 8, d.attribute, offset + 8, 8);
    LoadsApart(sized, offset + 32, 8, d.attribute, offset + 24, 8);
  }

  lemma EncodingFrame(bytes: seq<byte>, offset: nat, d: Descriptor, x: nat)
    requires offset + 40 <= |bytes| && x < offset
    ensures EncodeAt(bytes, offset, d)[x] == bytes[x]
  {
    var typed := Store(bytes, offset, 4, d.memType);
    var started := Store(typed, offset + 8, 8, d.start);
    var sized := Store(started, offset + 24, 8, d.pages);
    StoreFrame(bytes, offset, 4, d.memType, x);
    StoreFrame(typed, offset + 8, 8, d.start, x);
    StoreFrame(started, offset + 24, 8, d.pages, x);
    StoreFrame(sized, offset + 32, 8, d.attribute, x);
  }

  lemma HeldBelow(bytes: seq<byte>, changed: seq<byte>, offset: nat, d: Descriptor)
    requires offset + 40 <= |bytes| && |changed| == |bytes| && HoldsAt(bytes, offset, d)
    requires forall x :: offset <= x < offset + 40 ==> changed[x] == bytes[x]
    ensures HoldsAt(changed, offset, d)
  {
    LoadDependsOnRange(changed, bytes, offset, 4);
    LoadDependsOnRange(changed, bytes, offset + 8, 8);
    LoadDependsOnRange(changed, bytes, offset + 24, 8);
    LoadDependsOnRange(changed, bytes, offset + 32, 8);
  }

  lemma {:induction false} EncodedMapIsHeld(bytes: seq<byte>, stride: nat, ds: seq<Descriptor>, i: nat)
    requires 40 <= stride && |ds| * stride <= |bytes| && i < |ds|
    ensures i * stride + 40 <= |bytes| && HoldsAt(EncodeMap(bytes, stride, ds), i * stride, ds[i])
  {
    hide HoldsAt;
    hide EncodeAt;
    var n := |ds| - 1;
    EntryInside(n, |ds|, stride);
    var before := EncodeMap(bytes, stride, ds[..n]);
    if i == n {
      EncodedIsHeld(before, n * stride, ds[n]);
    } else {
      EncodedMapIsHeld(bytes, stride, ds[..n], i);
      EntryInside(i, n, stride);
      forall x | i * stride <= x < i * stride + 40
        ensures EncodeAt(before, n * stride, ds[n])[x] == before[x]
      {
        EncodingFrame(before, n * stride, ds[n], x);
      }
      HeldBelow(before, EncodeAt(before, n * stride, ds[n]), i * stride, ds[i]);
    }
  }

  /** Round trip: a map stored at any stride, over any bytes, is decoded to the stored map. */
  lemma EncodedMapDecodes(bytes: seq<byte>, size: nat, stride: nat, ds: seq<Descriptor>)
    requires 40 <= stride && size <= |bytes| && |ds| * stride <= size < |ds| * stride + stride
    ensures EntriesReadable(|bytes|, size, stride)
    ensures DecodeMap(EncodeMap(bytes, stride, ds), size, stride) == ds
  {
    hide HoldsAt;
    hide EncodeMap;
    hide DecodeMap;
    hide EntriesReadable;
    forall i | 0 <= i < |ds|
      ensures i * stride + 40 <= |bytes| && HoldsAt(EncodeMap(bytes, stride, ds), i * stride, ds[i])
    {
      EncodedMapIsHeld(bytes, stride, ds, i);
    }
    DecodesTo(EncodeMap(bytes, stride, ds), size, stride, ds);
  }
}
