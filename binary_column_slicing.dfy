/** The BinaryColumn of src/BinaryColumn.cpp: it keeps a shared reference to
    the storage's character vector together with an offset and a length, and
    copies the slice out of the storage afresh on every ToValue(). */
module SlicingColumn {
  import opened Bytes

  class BinaryColumn {
    /** The column id handed to the Column base. */
    const id: int
    /** The storage's character vector, shared with the fetch buffer, not copied. */
    var storage: array<Byte>
    var len: nat
    var offset: nat

    /** The three-argument constructor: the slice starts at the beginning of
        the storage. Nothing about the storage's size is checked here. */
    constructor (id: int, s: array<Byte>, l: nat)
      ensures this.id == id && storage == s
      ensures len == l && offset == 0
    {
      this.id := id;
      storage := s;
      len := l;
      offset := 0;
    }

    /** The four-argument constructor: offset and length are recorded as given. */
    constructor WithOffset(id: int, s: array<Byte>, offset: nat, l: nat)
      ensures this.id == id && storage == s
      ensures len == l && this.offset == offset
    {
      this.id := id;
      storage := s;
      len := l;
      this.offset := offset;
    }

    /** Allocates a new `len`-byte buffer and copies `storage[offset .. offset + len)`
        into it. The source does no bounds check, so the window must fit. The
        storage, `offset` and `len` are only read (no modifies clause). */
    method ToValue() returns (buf: array<Byte>)
      requires offset + len <= storage.Length
      ensures fresh(buf)
      ensures buf.Length == len
      ensures buf[..] == storage[offset..offset + len]
    {
      buf := CopyOut(storage, offset, len);
      SliceIsWindow(storage[..], offset, len);
    }
  }

  /** Converting the same column twice gives two distinct buffers, neither of
      them the storage; writing into the first leaves the second still equal
      to the storage window. */
  method ConvertTwice(c: BinaryColumn, v: Byte) returns (first: array<Byte>, second: array<Byte>)
    requires c.offset + c.len <= c.storage.Length && c.len > 0
    ensures first != second && first != c.storage && second != c.storage
    ensures first.Length == c.len && second.Length == c.len
    ensures first[0] == v
    ensures first[1..] == c.storage[c.offset + 1..c.offset + c.len]
    ensures second[..] == c.storage[c.offset..c.offset + c.len]
  {
    first := c.ToValue();
    second := c.ToValue();
    first[0] := v;
  }

  /** The storage is aliased, not copied: a write to the storage after
      construction shows in the next ToValue(), which is the window as it was
      at construction with exactly the written byte replaced. */
  method ConvertAfterStorageWrite(s: array<Byte>, offset: nat, l: nat, i: nat, v: Byte)
    returns (buf: array<Byte>)
    requires offset <= i < offset + l <= s.Length
    modifies s
    ensures s[..] == old(s[..])[i := v]
    ensures buf[..] == s[offset..offset + l]
    ensures buf[..] == old(s[offset..offset + l])[i - offset := v]
  {
    ghost var before := s[..];
    var c := new BinaryColumn.WithOffset(0, s, offset, l);
    s[i] := v;
    buf := c.ToValue();
    SliceAfterWrite(before, offset, l, i, v);
    SliceIsWindow(before, offset, l);
    SliceIsWindow(before[i := v], offset, l);
    assert s[..] == before[i := v];
  }
}
