/** Byte storage behind a fetched column and the `new char[n]` + `memcpy`
    copy that both versions of BinaryColumn perform on it. */
module Bytes {

  /** One `char` of a column's character vector, as an 8-bit unit. */
  newtype Byte = b: int | 0 <= b < 0x100

  /** What `memcpy(dest, src + offset, len)` leaves in `dest`: the `len`
      bytes of `s` starting at `offset`, copied one after another. */
  function Slice(s: seq<Byte>, offset: nat, len: nat): (r: seq<Byte>)
    requires offset + len <= |s|
    ensures |r| == len
    decreases len
  {
    if len == 0 then [] else [s[offset]] + Slice(s, offset + 1, len - 1)
  }

  /** Byte `k` of the copy is byte `offset + k` of the source. */
  lemma {:induction false} SliceAt(s: seq<Byte>, offset: nat, len: nat, k: nat)
    requires offset + len <= |s| && k < len
    ensures Slice(s, offset, len)[k] == s[offset + k]
    decreases len
  {
    if k > 0 {
      SliceAt(s, offset + 1, len - 1, k - 1);
    }
  }

  /** The byte-by-byte copy is exactly the window `s[offset .. offset + len)`. */
  lemma {:induction false} SliceIsWindow(s: seq<Byte>, offset: nat, len: nat)
    requires offset + len <= |s|
    ensures Slice(s, offset, len) == s[offset..offset + len]
  {
    forall k | 0 <= k < len
      ensures Slice(s, offset, len)[k] == s[offset..offset + len][k]
    {
      SliceAt(s, offset, len, k);
    }
  }

  /** A copy from offset 0 is the prefix of the storage. */
  lemma {:induction false} SliceFromStart(s: seq<Byte>, len: nat)
    requires len <= |s|
    ensures Slice(s, 0, len) == s[..len]
  {
    SliceIsWindow(s, 0, len);
  }

  /** Copying a window in two consecutive chunks and joining them gives the
      copy of the whole window. */
  lemma {:induction false} SliceSplit(s: seq<Byte>, offset: nat, a: nat, b: nat)
    requires offset + a + b <= |s|
    ensures Slice(s, offset, a + b) == Slice(s, offset, a) + Slice(s, offset + a, b)
    decreases a
  {
    if a > 0 {
      SliceSplit(s, offset + 1, a - 1, b);
    }
  }

  /** The copy depends on the bytes inside its window and on nothing else:
      two storages give the same copy exactly when they agree there. */
  lemma {:induction false} SliceDependsOnlyOnWindow(s: seq<Byte>, t: seq<Byte>, offset: nat, len: nat)
    requires offset + len <= |s| && offset + len <= |t|
    ensures Slice(s, offset, len) == Slice(t, offset, len) <==> s[offset..offset + len] == t[offset..offset + len]
  {
    SliceIsWindow(s, offset, len);
    SliceIsWindow(t, offset, len);
  }

  /** A write to storage byte `i` replaces byte `i - offset` of the copy when
      `i` lies in the window, and leaves the copy as it was otherwise. */
  lemma {:induction false} SliceAfterWrite(s: seq<Byte>, offset: nat, len: nat, i: nat, v: Byte)
    requires offset + len <= |s| && i < |s|
    ensures offset <= i < offset + len ==> Slice(s[i := v], offset, len) == Slice(s, offset, len)[i - offset := v]
    ensures !(offset <= i < offset + len) ==> Slice(s[i := v], offset, len) == Slice(s, offset, len)
  {
    SliceIsWindow(s[i := v], offset, len);
    SliceIsWindow(s, offset, len);
    if offset <= i < offset + len {
      assert s[i := v][offset..offset + len] == s[offset..offset + len][i - offset := v];
    } else {
      assert s[i := v][offset..offset + len] == s[offset..offset + len];
    }
  }

  /** `char *dest = new char[n]; memcpy(dest, src + from, n);`: a freshly
      allocated array holding the `n` source bytes starting at `from`. The
      source array is only read. */
  method CopyOut(src: array<Byte>, from: nat, n: nat) returns (dest: array<Byte>)
    requires from + n <= src.Length
    ensures fresh(dest)
    ensures dest[..] == Slice(src[..], from, n)
  {
    dest := new Byte[n];
    var i := 0;
    while i < n
      invariant 0 <= i <= n
      invariant forall k :: 0 <= k < i ==> dest[k] == src[from + k]
    {
      dest[i] := src[from + i];
      i := i + 1;
    }
    assert dest[..] == src[from..from + n];
    SliceIsWindow(src[..], from, n);
  }
}
