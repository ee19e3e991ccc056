/** How the two versions of BinaryColumn differ in what ToValue() returns. */
module Versions {
  import opened Bytes
  import SlicingColumn
  import SnapshotColumn

  /** Builds one column of each version over the same storage, writes one
      storage byte, then converts both. The slicing version copies the storage
      as it is at the call, the snapshot version returns the bytes as they were
      at construction, so the two results agree exactly when the write left the
      first `l` bytes as they were. */
  method CompareAfterStorageWrite(s: array<Byte>, l: nat, i: nat, v: Byte)
    returns (live: array<Byte>, snapshot: array<Byte>)
    requires l <= s.Length && i < s.Length
    modifies s
    ensures s[..] == old(s[..])[i := v]
    ensures live[..] == s[..l] && snapshot[..] == old(s[..l])
    ensures live[..] == snapshot[..] <==> s[..l] == old(s[..l])
  {
    var slicing := new SlicingColumn.BinaryColumn(0, s, l);
    var snapshotting := new SnapshotColumn.BinaryColumn(0, s, l);
    s[i] := v;
    live := slicing.ToValue();
    var n;
    snapshot, n := snapshotting.ToValue();
  }
}
