# huaji-fs in Dafny

A model of huaji-fs, an in-memory virtual filesystem behind a tiny
interactive shell, with proofs of its behaviour. It covers four parts:

- **The registry.** A process-wide map from a canonical absolute path to a
  shared slot. A slot is either a byte buffer (`RandomAccess`) or a
  directory marker (`Directory`).
- **File handles.** A handle holds a cursor and a *weak* reference to a
  slot. `open` and `create` produce handles. `write` truncates the buffer
  to the cursor and appends. `read` copies bytes out.
- **Path handling.** `append_path` folds a path fragment into the current
  directory. `contains_dir` decides whether a path is a directory.
  `path_to_string` renders a path for the prompt.
- **The shell commands.** `touch`, `mkdir`, `ls` and `cd` act on the
  registry and the current directory.

Files:

- `paths.dfy` (module `Paths`): path components, resolution and rendering.
  A canonical absolute path is the sequence of its segments below an
  implicit root, so `[]` is `/`. Path equality is component-wise, so `/a/`
  and `/a` are the same key. `Resolve` and `Render` are the recursive
  definitions. `AppendPath` and `PathToString` are the loops of the
  program, proved equal to them.
- `vfs.dfy` (module `VirtualFs`): slots, handles and the `FileSystem`
  class. Shared ownership works through an indirection table. Each new slot
  gets a fresh identifier from `nextId`. `registry` maps a path to the
  identifier of the slot it owns. `slots` holds exactly the slots some
  entry still owns. The class invariant `Valid` says three things: the slot
  table's keys are the registry's values, the registry is injective, and
  every identifier in the slot table is below `nextId`. The third is what
  keeps an expired handle expired.
  A handle is live while its identifier is still in `slots`. That is
  exactly when its weak reference could still be upgraded, because the
  registry entry is the only strong owner of a slot. Replacing an entry
  removes the old identifier, so every handle to the old slot expires.
  Identifiers are never reused, just as every `Arc::new` is a new
  allocation, so an expired handle (`Expired`) stays expired.
  `read` does not change the filesystem, so it is a function of the slot
  table. `write`, `create` and `create_dir` are methods that change the
  class's maps.
- `commands.dfy` (module `Commands`): the `Shell` class, holding the
  filesystem and the current directory that `main` updates.
- `scenarios.dfy` (module `Scenarios`): client methods that run short
  sequences of operations on a fresh filesystem. Their postconditions
  follow from the operation contracts alone.

Three behaviours of the program shape the model:

- `read` is modelled as written (see Findings).
- The current directory need not stay a directory. `touch` on the current
  directory's own path replaces the directory with a file, and only `cd`
  checks its target. So `Shell.Valid` keeps only "the current directory is
  canonical".
- The root can become a registry key. The registry inserts whatever path
  it is given, and `touch /` resolves to the root, so the model allows the
  key `[]`. `contains_dir` still answers true for the root, and `ls` never
  lists it, because the root has no parent.

## Model

| member | source | states |
|---|---|---|
| `Paths.AppendPath` | src/main.rs:90-100 | The in-place push/pop loop over the components ends with exactly the path `Resolve` defines. |
| `Paths.ResolveConcat` | src/main.rs:90-100 | Resolving `a + b` is the same as resolving `a` and then `b` from where `a` ended. |
| `Paths.ResolveNoOps` | src/main.rs:93-95 | A fragment of only `.` and prefix components leaves the path unchanged. |
| `Paths.ResolveParents` | src/main.rs:96 | `k` parent components drop the last `k` segments. At the root they stop instead of failing, so `..` at the root stays at the root. |
| `Paths.RootFragmentIgnoresCurrent` | src/main.rs:94 | A fragment that starts with the root resolves the same from every current directory. |
| `Paths.ResolveDescends` | src/main.rs:97 | Normal components extend the path by their names, in order, and keep the prefix. |
| `Paths.ResolveCanonical` | src/main.rs:90-100 | From a canonical path, a tokenised fragment always resolves to a canonical path, with no `.` or `..` segment. |
| `Paths.ResolveSiblingExample` | src/main.rs:90-100 | `/a/b` followed by `../c` is `/a/c`. |
| `Paths.PathToString` | src/main.rs:115-129 | The loop that builds the string equals `Render`: each component adds its name (nothing for the root or a prefix) and then `/`. |
| `Paths.RenderExamples` | src/main.rs:115-129 | The root renders as `/` and `/a/b` renders as `/a/b/`. |
| `Paths.RenderRoundTrip` | src/main.rs:115-129 | A rendered canonical path starts with `/`, and splitting the rest at separators gives back the path, so rendering loses nothing. |
| `Paths.Parent` | src/main.rs:154 | The root has no parent. Every other path is its parent extended by its last segment. |
| `VirtualFs.WrittenShape` | src/main.rs:57-58 | A write at a cursor inside the content yields length `pos + len(buf)`, keeps the bytes before the cursor and has `buf` after it. |
| `VirtualFs.RewriteReplaces` | src/main.rs:57-58 | A second write at the same cursor replaces the first write's bytes instead of appending after them. |
| `VirtualFs.Read` | src/main.rs:67-77 | Read as written. A dead handle gives NotFound and a directory gives PermissionDenied. On a file, read returns normally exactly when the buffer length equals the bytes left after the cursor, and then it returns all of them and their count. Every other case panics. |
| `VirtualFs.ReadClamped` | src/main.rs:74-76 | The intended read never panics on a file. It copies `min(len(buf), remaining)` bytes, or none at or past the end, and leaves the rest of the buffer alone. |
| `VirtualFs.ReadAgreesWhenExact` | src/main.rs:74-76 | Wherever the code as written returns normally, it gives the same result as the intended read. |
| `VirtualFs.ShortBufferPanics` | src/main.rs:74-75 | Reading a 3-byte file into a 2-byte buffer panics as written. The intended read copies the first 2 bytes. |
| `VirtualFs.LongBufferPanics` | src/main.rs:74-75 | Reading a 3-byte file into a 4-byte buffer panics as written. The intended read copies 3 bytes. |
| `VirtualFs.InstallValues` | src/main.rs:45 | Inserting a fresh slot at a path drops only the slot that path owned and keeps every path owning its own slot. |
| `VirtualFs.FileSystem.constructor` | src/main.rs:9-12 | The registry starts empty. |
| `VirtualFs.FileSystem.Open` | src/main.rs:34-40 | A path with no entry gives NotFound. Otherwise `open` returns a live handle at position 0 on the path's slot. Nothing changes either way. |
| `VirtualFs.FileSystem.Install` | src/main.rs:43-45 | The path now owns a slot under an identifier never handed out before (`nextId`, which then advances). Its old slot is dropped, every other entry and slot is untouched, and every expired handle stays expired. |
| `VirtualFs.FileSystem.Create` | src/main.rs:42-47 | The path owns a fresh empty file slot and the handle is live at position 0. The new slot's identifier was never handed out before. Any previous slot at the path is dropped, so old handles to it expire, and handles that had already expired stay expired. Every other entry is unchanged. Afterwards the path is a directory only if it is the root. |
| `VirtualFs.FileSystem.CreateDir` | src/main.rs:80-84 | The path owns a directory slot under an identifier never handed out before. Any previous slot is dropped, so old handles to it expire, and expired handles stay expired. Every other entry is unchanged. Afterwards `contains_dir` holds for the path. |
| `VirtualFs.FileSystem.Write` | src/main.rs:51-59 | A dead handle gives NotFound and a directory gives PermissionDenied, both with nothing changed. On a file, the content becomes `old[..min(pos, len)] + buf` and the result is `len(buf)`. The registry, every other slot and the set of expired handles are unchanged. |
| `VirtualFs.ChildrenExactly` | src/main.rs:152-164 | `ls` lists `(name, kind)` exactly when `dir + [name]` is registered and its slot has that kind. |
| `VirtualFs.ExpiredHandleRefused` | src/main.rs:69-70 | An expired handle's slot is owned by no registry entry, and read through it gives NotFound. |
| `VirtualFs.ContainsDirListed` | src/main.rs:102-113 | `contains_dir` is true for the root. For any other path it is true exactly when the parent's `ls` listing shows the last segment as a directory. So it is false for missing paths and for file entries. |
| `Commands.Shell.constructor` | src/main.rs:132 | The shell starts at the root. |
| `Commands.Shell.Touch` | src/main.rs:140-145 | The resolved path is canonical, it now owns a fresh empty file, its old slot is dropped, expired handles stay expired, nothing else changes, and the shell stays put. |
| `Commands.Shell.Mkdir` | src/main.rs:146-151 | The resolved path is canonical, it now owns a fresh directory (so it is a directory), its old slot is dropped, expired handles stay expired, and nothing else changes. |
| `Commands.Shell.Ls` | src/main.rs:152-164 | The listing holds exactly the entries one segment below the current directory, each with its kind. |
| `Commands.Shell.Cd` | src/main.rs:165-174 | The shell moves to the resolved path exactly when `contains_dir` holds for it. Otherwise it stays. The current directory stays canonical. |
| `Scenarios.DirectoryRefusesContent` | src/main.rs:80-84 | A directory can be opened (a handle at position 0), but write and read both give PermissionDenied, and it stays a directory. |
| `Scenarios.OpenMissing` | src/main.rs:34-40 | Opening a path that was never created gives NotFound. |
| `Scenarios.CreateThenRead` | src/main.rs:42-47 | A freshly created file reads back as zero bytes. |
| `Scenarios.WriteThenRead` | src/main.rs:51-77 | Bytes written through one handle are read back whole through a handle opened later on the same path. |
| `Scenarios.RewriteThenRead` | src/main.rs:51-59 | After two writes at the same cursor, the file holds only the second write. |
| `Scenarios.ExpiredHandle` | src/main.rs:52-53 | After the path is created again, the old handle gets NotFound on write and on read, and the new file stays empty. |
| `Scenarios.ExpiredStaysExpired` | src/main.rs:52-53 | Once a handle has expired, creating a file and then a directory at another path (or the same one) does not revive it: write and read through it still give NotFound. |
| `Scenarios.ListRoot` | src/main.rs:152-164 | After `touch a` and `mkdir b` at the root, `ls` gives exactly `{(a, FILE), (b, DIR)}`. |
| `Scenarios.CdIntoFile` | src/main.rs:165-174 | `cd` into a file fails and leaves the shell at the root. |
| `Scenarios.CdDownAndUp` | src/main.rs:165-174 | `cd d` moves into a directory, and `cd ..` returns to the root. |
| `Scenarios.CdUpAtRoot` | src/main.rs:165-174 | `cd ..` at the root succeeds and stays at the root. |

## Left out

- The interactive loop is left out because it is I/O: reading lines, printing the prompt (which is where `path_to_string` is used), flushing stdout, and printing the `ls` lines and the `cd` error message.
- The command parser and its grammar are left out because they come from an external parser generator, and the grammar file is not part of this model. Fragments reach the model already tokenised into components.
- The battery command (`huaji`) is left out because it calls a foreign crate and uses floating point.
- Locks, `lazy_static`, `Arc` and `Weak` are not modelled as such. Every operation holds its locks only for its own duration, so the sequential semantics are modelled. Reference counting is modelled through the slot-identifier table.
- Turning OS strings into components, and repairing invalid UTF-8 when rendering, are left out because they are standard-library behaviour. Components and segment strings are taken as given, and tokenised names contain no separator and are never `.` or `..` (`WellFormed`).
- Registry keys are canonical absolute paths. The public `File::create` and `create_dir` accept any path, including relative or non-normalised ones, but the program only ever passes resolved absolute paths.
- `ls` order is left out. It follows `HashMap` iteration order, so the listing is a set.
- `flush` is left out because it always succeeds and does nothing.
- A failed `unwrap` of a poisoned lock is left out because it cannot happen in a single thread.
- VirtualFs.FileSystem.Create: returns the handle directly instead of a result, because `File::create` always succeeds.
- VirtualFs.Read: takes the caller's buffer by value and returns the buffer after the copy, instead of filling it in place.
- VirtualFs.Read: a handle's cursor is an unbounded natural number. No code path ever moves it from 0.
- VirtualFs.Read: a release build wraps `len - pos` instead of panicking. That path still ends in a panic at the slice, so both builds collapse to `Panicked`.

## Findings

| source | as written | input that shows it | evidently intended | confidence | as-written member | corrected member |
|---|---|---|---|---|---|---|
| src/main.rs:74-75 | The copy length is the larger of the buffer length and the bytes left after the cursor. Slicing and copying then panic unless the two are equal. | A file holding `[1, 2, 3]`, a handle at 0, and a 2-byte (or 4-byte) buffer: the read panics. | Copy the smaller of the two, and zero bytes at or past the end. | high; not executed | `VirtualFs.ShortBufferPanics` | `VirtualFs.ReadClamped` |

The scenarios read with buffers whose length is exactly the remaining
content. `VirtualFs.ReadAgreesWhenExact` shows that the code as written and
the corrected read give the same result there.
