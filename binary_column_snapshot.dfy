/** The BinaryColumn of src/BinaryColumn.h: it clones the first `l` bytes of
    the storage into a private `raw` array once, at construction, and
    ToValue() hands out that same array. */
module SnapshotColumn {
  import opened Bytes

  class BinaryColumn {
    /** The column id handed to the Column base. */
    const id: int
    var len: nat
    var raw: array<Byte>

    /** `raw` holds exactly `len` bytes. */
    ghost predicate Valid()
      reads this
    {
      raw.Length == len
    }

    /** Stores `len = l` and a private snapshot of `storage[0 .. l)`. Like
        `clone`, this needs the storage to hold at least `l` bytes. */
    constructor (id: int, storage: array<Byte>, l: nat)
      requires l <= storage.Length
      ensures Valid() && this.id == id && len == l
      ensures fresh(raw) && raw[..] == storage[..l]
    {
      this.id := id;
      len := l;
      var snapshot := BinaryColumn.Clone(storage, l);
      raw := snapshot;
    }

    /** Returns the stored `raw` array itself, with its length `len`; nothing
        is copied and nothing changes. */
    method ToValue() returns (buf: array<Byte>, n: nat)
      requires Valid()
      ensures buf == raw && n == len && buf.Length == n
    {
      buf, n := raw, len;
    }

    /** `new char[len]` followed by `memcpy` of the first `len` bytes of `sp`;
        there is no bounds check, so `sp` must hold at least `len` bytes. */
    static method Clone(sp: array<Byte>, len: nat) returns (dest: array<Byte>)
      requires len <= sp.Length
      ensures fresh(dest) && dest.Length == len
      ensures dest[..] == sp[..len]
    {
      dest := CopyOut(sp, 0, len);
      SliceFromStart(sp[..], len);
    }
  }

  /** The snapshot is independent of the storage: a write to the storage after
      construction does not show in ToValue(). */
  method ConvertAfterStorageWrite(s: array<Byte>, l: nat, i: nat, v: Byte)
    returns (buf: array<Byte>)
    requires l <= s.Length && i < s.Length
    modifies s
    ensures s[..] == old(s[..])[i := v]
    ensures buf[..] == old(s[..l])
  {
    var c := new BinaryColumn(0, s, l);
    s[i] := v;
    var n;
    buf, n := c.ToValue();
  }

  /** Converting the same column twice hands out the same `raw` array both
      times, so a write through one result shows in the other. */
  method ConvertTwice(c: BinaryColumn, v: Byte) returns (first: array<Byte>, second: array<Byte>)
    requires c.Valid() && c.len > 0
    modifies c.raw
    ensures first == second && first == c.raw
    ensures c.raw[..] == old(c.raw[..])[0 := v]
  {
    var n;
    first, n := c.ToValue();
    second, n := c.ToValue();
    first[0] := v;
  }
}
