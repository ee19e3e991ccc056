# BinaryColumn: copying a fetched binary column out of its storage

This project models the binary column of the node-sqlserver-v8 driver. When a
row is fetched, the driver leaves each column's raw bytes in a character vector
owned by a `DatumStorage`. `BinaryColumn` turns such a column into a byte buffer
that it hands to the scripting runtime. The repository carries two versions of
this class, and they do not agree. Each is modelled as its own Dafny class:

- `SlicingColumn.BinaryColumn` (src/BinaryColumn.cpp). It keeps a shared
  reference to the storage's vector, an `offset` and a `len`. Every `ToValue()`
  allocates a fresh `len`-byte array and copies `storage[offset .. offset+len)`
  into it. The result reflects the storage as it is at call time.
- `SnapshotColumn.BinaryColumn` (src/BinaryColumn.h). Its constructor clones the
  first `l` bytes into a private `raw` array. `ToValue()` returns that same
  array every time. The result reflects the storage as it was at construction.

Module `Bytes` holds what both share. It defines the storage unit (`Byte`) and
the `new char[n]` + `memcpy` copy (`CopyOut`). It also defines the copy's
specification `Slice`, a byte-by-byte definition. Lemmas tie `Slice` to the
built-in window `s[offset..offset+len]`, split it into chunks, and say which
storage writes it sees. Module `Versions` builds one column of each version,
both at offset 0, over the same storage array and writes one storage byte.
It then shows that the two `ToValue()` results agree exactly when the write
left the first `l` bytes unchanged.

The source checks no bounds. The model therefore states as preconditions that
`offset + len` fits the storage (slicing `ToValue`) and that `len` fits it
(`clone`).

The two versions differ in when the bytes are taken. The .cpp version copies
only when `ToValue()` is called, so a write to the storage before that call
shows in the result (`SlicingColumn.ConvertAfterStorageWrite`). Two conversions
of the same .cpp column give two separate buffers (`SlicingColumn.ConvertTwice`).
The .h version returns the same `raw` array on every call
(`SnapshotColumn.ConvertTwice`).

## Model

| member | source | states |
|---|---|---|
| `Bytes.Slice` | src/BinaryColumn.cpp:44-46 | the byte-by-byte memcpy result of `len` bytes from `offset` has exactly `len` bytes |
| `Bytes.SliceAt` | src/BinaryColumn.cpp:44-46 | byte `k` of the copy is storage byte `offset + k` |
| `Bytes.SliceIsWindow` | src/BinaryColumn.cpp:44-46 | the copy equals the storage window `[offset, offset+len)` |
| `Bytes.SliceFromStart` | src/BinaryColumn.h:32-36 | a copy from offset 0, as `clone` makes, equals the first `len` bytes of the storage |
| `Bytes.SliceSplit` | src/BinaryColumn.cpp:30-46 | copying a window as two consecutive offset/length chunks and joining them gives the copy of the whole window |
| `Bytes.SliceDependsOnlyOnWindow` | src/BinaryColumn.cpp:44-46 | two storages give the same copy if and only if they agree on the window |
| `Bytes.SliceAfterWrite` | src/BinaryColumn.cpp:44-46 | a storage write inside the window replaces exactly the byte at the shifted position of the copy; a write outside it leaves the copy unchanged |
| `Bytes.CopyOut` | src/BinaryColumn.cpp:45-46 | `new char[n]` + `memcpy` yields a fresh array holding the byte-by-byte copy `Slice` of the source window, provided the window fits; the source is only read |
| `SlicingColumn.BinaryColumn.constructor` | src/BinaryColumn.cpp:25-28 | the three-argument constructor aliases the storage and records `len = l`, `offset = 0` |
| `SlicingColumn.BinaryColumn.WithOffset` | src/BinaryColumn.cpp:30-32 | the four-argument constructor aliases the storage and records `offset` and `len` as given |
| `SlicingColumn.BinaryColumn.ToValue` | src/BinaryColumn.cpp:42-46 | requires the window to fit the storage; returns a fresh `len`-byte array equal to the current storage window, and changes nothing |
| `SlicingColumn.ConvertTwice` | src/BinaryColumn.cpp:45-46 | two conversions give distinct buffers, neither being the storage; a write to the first leaves the second equal to the storage window |
| `SlicingColumn.ConvertAfterStorageWrite` | src/BinaryColumn.cpp:25-46 | the storage is aliased: after a storage write inside the window, the next `ToValue()` equals the current window, which is the window at construction with exactly the written byte replaced |
| `SnapshotColumn.BinaryColumn.constructor` | src/BinaryColumn.h:16-19 | records `len = l` and a fresh private snapshot `raw` of the storage's first `l` bytes; needs `l` to fit the storage |
| `SnapshotColumn.BinaryColumn.ToValue` | src/BinaryColumn.h:21-28 | returns the stored `raw` array itself with length `len`, copying and changing nothing |
| `SnapshotColumn.BinaryColumn.Clone` | src/BinaryColumn.h:32-37 | requires `len` to fit `sp`; returns a fresh array of `len` bytes equal to the first `len` bytes of `sp` |
| `SnapshotColumn.ConvertAfterStorageWrite` | src/BinaryColumn.h:16-37 | a storage write after construction does not show in `ToValue()`: the result is the storage prefix as it was at construction |
| `SnapshotColumn.ConvertTwice` | src/BinaryColumn.h:21-23 | two conversions return the same `raw` array, so a write through one shows in the other; `raw` is its old contents with exactly that byte replaced |
| `Versions.CompareAfterStorageWrite` | src/BinaryColumn.cpp:25-46 | for a column of each version built over one storage array (the .h constructor and `ToValue()` of src/BinaryColumn.h:16-23 beside the .cpp ones), a write, then `ToValue()` on each: the .cpp result is the storage prefix after the write, the .h result the prefix before it, and they are equal if and only if the write left the prefix unchanged |

## Left out

- `node::Buffer::New`, `Isolate::GetCurrent` and `ToLocalChecked` (src/BinaryColumn.cpp:48-53, src/BinaryColumn.h:23-27) are calls into the V8/Node runtime. `ToValue` returns the byte array (and, in the .h version, its length) that would be wrapped.
- The buffer free callbacks (src/BinaryColumn.cpp:34-40, src/BinaryColumn.h:39-43) are manual memory management outside Dafny's heap model. In the .cpp version the `delete[]` is commented out, so every buffer leaks. In the .h version `delete[]` is applied to a `void*`. Also, every .h `ToValue()` hands the same `raw` to a new `node::Buffer` with this deleter (src/BinaryColumn.h:23), so two conversions give two owners of one allocation. `SnapshotColumn.ConvertTwice`'s shared-write behaviour therefore holds only while neither buffer has been freed.
- The `Column` base class is not part of this model. Only the id passed to it is recorded.
- `DatumStorage` is not part of this model. Its character vector is an `array<Byte>` shared by reference. Resizing the vector after construction is not modelled, so the storage length is fixed.
- `size_t` wrap-around in `offset + len` is not modelled. The preconditions bound `offset + len` by the storage size, so no wrap can happen within them.
- src/bcp.h declares the bulk-copy plugin table, the `basestorage` iterator and the `bcp` operations, but it has no bodies, so there is no behaviour to model.
