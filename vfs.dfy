/** The storage engine: the registry from canonical paths to shared slots,
    the slot variants, and the file handles that read and write through a
    non-owning reference to a slot.

    Shared ownership is modelled by an indirection table. Every slot gets a
    fresh identifier when it is created; `registry` maps a path to the
    identifier of the slot it owns, and `slots` holds exactly the slots some
    registry entry still owns. A handle stores an identifier; it is live
    while that identifier is still in `slots`, which is the moment its weak
    reference can still be upgraded. */
module VirtualFs {
  import opened Paths

  newtype byte = x: int | 0 <= x < 256

  type SlotId = nat

  /** What a path holds: a growable byte buffer or a directory marker. */
  datatype Slot = RandomAccess(data: seq<byte>) | Directory

  /** The kind `ls` prints for an entry. */
  datatype Kind = FileKind | DirKind

  function KindOf(s: Slot): Kind {
    match s
    case RandomAccess(_) => FileKind
    case Directory => DirKind
  }

  /** A line of `ls`: the entry's last segment and its kind. */
  datatype Entry = Entry(name: string, kind: Kind)

  datatype ErrorKind = NotFound | PermissionDenied

  datatype Result<T> = Ok(value: T) | Err(error: ErrorKind)

  /** How a read ends: bytes copied into the caller's buffer (the whole
      buffer after the copy), an error, or a panic of the running code. */
  datatype ReadOutcome = Copied(count: nat, buffer: seq<byte>) | Refused(error: ErrorKind) | Panicked

  /** A file handle: a cursor and a weak reference to a slot. Nothing in the
      system ever moves the cursor away from 0. */
  datatype Handle = Handle(pos: nat, slot: SlotId)

  function Min(a: int, b: int): int { if a <= b then a else b }
  function Max(a: int, b: int): int { if a >= b then a else b }

  // ---------------------------------------------------------------------
  // Content transformations of write and read

  /** The buffer after a write at `pos`: truncated to the cursor, then extended. */
  function Written(data: seq<byte>, pos: nat, buf: seq<byte>): seq<byte> {
    data[..Min(pos, |data|)] + buf
  }

  /** Writing at a cursor inside the content keeps everything before the
      cursor and replaces everything from it on. */
  lemma WrittenShape(data: seq<byte>, pos: nat, buf: seq<byte>)
    requires pos <= |data|
    ensures |Written(data, pos, buf)| == pos + |buf|
    ensures Written(data, pos, buf)[..pos] == data[..pos]
    ensures Written(data, pos, buf)[pos..] == buf
  {
  }

  /** A second write at the same cursor replaces the first one's bytes
      instead of appending after them. */
  lemma RewriteReplaces(data: seq<byte>, pos: nat, b1: seq<byte>, b2: seq<byte>)
    requires pos <= |data|
    ensures Written(Written(data, pos, b1), pos, b2) == Written(data, pos, b2)
  {
  }

  /** Read as the code is written: the copy length is the LARGER of the
      buffer length and the bytes left after the cursor; slicing past the
      end or copying between slices of different lengths panics. */
  function Read(slots: map<SlotId, Slot>, h: Handle, buf: seq<byte>): (r: ReadOutcome)
    ensures h.slot !in slots ==> r == Refused(NotFound)
    ensures h.slot in slots && slots[h.slot].Directory? ==> r == Refused(PermissionDenied)
    ensures h.slot in slots && slots[h.slot].RandomAccess? ==>
      var data := slots[h.slot].data;
      (r.Copied? <==> h.pos <= |data| && |buf| == |data| - h.pos) &&
      (r.Copied? ==> r.count == |buf| && r.buffer == data[h.pos..]) &&
      (!r.Copied? ==> r == Panicked)
  {
    if h.slot !in slots then Refused(NotFound)
    else match slots[h.slot]
      case Directory => Refused(PermissionDenied)
      case RandomAccess(data) =>
        // `data.len() - pos` underflows
        if h.pos > |data| then Panicked
        else
          var len := Max(|buf|, |data| - h.pos);
          // `&data[pos..pos + len]` runs past the end
          if h.pos + len > |data| then Panicked
          // `copy_from_slice` between slices of different lengths
          else if len != |buf| then Panicked
          else Copied(len, data[h.pos..h.pos + len])
  }

  /** Read with the copy length clamped as evidently intended:
      `min(|buf|, |data| - pos)`, and zero at or past the end. */
  function ReadClamped(slots: map<SlotId, Slot>, h: Handle, buf: seq<byte>): (r: ReadOutcome)
    ensures h.slot !in slots ==> r == Refused(NotFound)
    ensures h.slot in slots && slots[h.slot].Directory? ==> r == Refused(PermissionDenied)
    ensures h.slot in slots && slots[h.slot].RandomAccess? ==>
      var data := slots[h.slot].data;
      r.Copied? && r.count <= |buf| && |r.buffer| == |buf| &&
      r.count == (if h.pos < |data| then Min(|buf|, |data| - h.pos) else 0) &&
      (h.pos < |data| ==> r.buffer[..r.count] == data[h.pos..h.pos + r.count]) &&
      r.buffer[r.count..] == buf[r.count..]
  {
    if h.slot !in slots then Refused(NotFound)
    else match slots[h.slot]
      case Directory => Refused(PermissionDenied)
      case RandomAccess(data) =>
        if h.pos >= |data| then Copied(0, buf)
        else
          var n := Min(|buf|, |data| - h.pos);
          Copied(n, data[h.pos..h.pos + n] + buf[n..])
  }

  /** Wherever the code as written returns normally, it agrees with the
      intended read. */
  lemma ReadAgreesWhenExact(slots: map<SlotId, Slot>, h: Handle, buf: seq<byte>)
    requires Read(slots, h, buf).Copied?
    ensures ReadClamped(slots, h, buf) == Read(slots, h, buf)
  {
  }

  /** A buffer shorter than the remaining content makes the code as written
      panic, where the intended read fills the buffer. */
  lemma ShortBufferPanics()
    ensures var slots := map[0 := RandomAccess([1, 2, 3])];
      Read(slots, Handle(0, 0), [0, 0]) == Panicked &&
      ReadClamped(slots, Handle(0, 0), [0, 0]) == Copied(2, [1, 2])
  {
  }

  /** A buffer longer than the remaining content panics too, where the
      intended read copies what is left. */
  lemma LongBufferPanics()
    ensures var slots := map[0 := RandomAccess([1, 2, 3])];
      Read(slots, Handle(0, 0), [0, 0, 0, 0]) == Panicked &&
      ReadClamped(slots, Handle(0, 0), [0, 0, 0, 0]) == Copied(3, [1, 2, 3, 0])
  {
  }

  // ---------------------------------------------------------------------
  // The registry

  ghost predicate Injective(m: map<Path, SlotId>) {
    forall p, q :: p in m && q in m && m[p] == m[q] ==> p == q
  }

  /** The slot table after `path` loses the slot it owned, if any. */
  function Unlinked(slots: map<SlotId, Slot>, registry: map<Path, SlotId>, path: Path): map<SlotId, Slot> {
    if path in registry then slots - {registry[path]} else slots
  }

  /** Installing a fresh identifier at a path drops the identifier the path
      held, keeps every other one, and keeps the map injective. */
  lemma {:induction false} InstallValues(m: map<Path, SlotId>, path: Path, id: SlotId)
    requires Injective(m) && id !in m.Values
    ensures Injective(m[path := id])
    ensures m[path := id].Values == (if path in m then m.Values - {m[path]} else m.Values) + {id}
  {
    var m' := m[path := id];
    var expected := (if path in m then m.Values - {m[path]} else m.Values) + {id};
    forall v | v in m'.Values
      ensures v in expected
    {
      var q :| q in m' && m'[q] == v;
      if q != path {
        assert m[q] == v && v in m.Values;
        assert path in m ==> m[path] != v;
      }
    }
    forall v | v in expected
      ensures v in m'.Values
    {
      if v != id {
        var q :| q in m && m[q] == v;
        assert q != path;
        assert m'[q] == v;
      } else {
        assert m'[path] == id;
      }
    }
  }

  class FileSystem {
    /** Path to the identifier of the slot the path owns. */
    var registry: map<Path, SlotId>
    /** The slots still owned by some registry entry. */
    var slots: map<SlotId, Slot>
    /** The next fresh slot identifier. */
    var nextId: SlotId

    /** Only the registry owns slots, each owns its own, and every slot
        identifier has already been handed out. */
    ghost predicate Valid()
      reads this
    {
      && slots.Keys == registry.Values
      && Injective(registry)
      && (forall id :: id in slots ==> id < nextId)
    }

    /** An empty filesystem: only the implicit root exists. */
    constructor ()
      ensures Valid() && registry == map[] && slots == map[]
    {
      registry := map[];
      slots := map[];
      nextId := 0;
    }

    /** A handle is live while its slot is still owned by the registry. */
    predicate Live(h: Handle)
      reads this
    {
      h.slot in slots
    }

    /** A handle to a slot that was allocated and has since been dropped.
        Identifiers are never reused, so an expired handle stays expired. */
    predicate Expired(h: Handle)
      reads this
    {
      h.slot < nextId && h.slot !in slots
    }

    /** File::open: a handle at position 0 on the slot the path owns, or
        NotFound; nothing changes. */
    method Open(path: Path) returns (r: Result<Handle>)
      requires Valid()
      ensures path !in registry ==> r == Err(NotFound)
      ensures path in registry ==> r.Ok? && r.value.pos == 0 && r.value.slot == registry[path]
      ensures r.Ok? ==> Live(r.value)
    {
      if path in registry {
        r := Ok(Handle(0, registry[path]));
      } else {
        r := Err(NotFound);
      }
    }

    /** Registers a freshly allocated slot at `path`, replacing (and so
        dropping) whatever slot the path owned. */
    method Install(path: Path, slot: Slot) returns (id: SlotId)
      requires Valid()
      modifies this
      ensures Valid()
      ensures id == old(nextId) && nextId == old(nextId) + 1 && id !in old(slots)
      ensures registry == old(registry)[path := id]
      ensures slots == Unlinked(old(slots), old(registry), path)[id := slot]
      ensures forall h :: old(Expired(h)) ==> Expired(h)
    {
      id := nextId;
      InstallValues(registry, path, id);
      nextId := nextId + 1;
      if path in registry {
        slots := slots - {registry[path]};
      }
      slots := slots[id := slot];
      registry := registry[path := id];
    }

    /** File::create: `path` now owns a fresh empty file slot, whatever it
        owned before is dropped, and the handle sits at 0 on the new slot. */
    method Create(path: Path) returns (h: Handle)
      requires Valid()
      modifies this
      ensures Valid()
      ensures h.pos == 0 && h.slot == old(nextId) && nextId == old(nextId) + 1
      ensures h.slot !in old(slots) && Live(h)
      ensures registry == old(registry)[path := h.slot]
      ensures slots == Unlinked(old(slots), old(registry), path)[h.slot := RandomAccess([])]
      ensures path in old(registry) ==> Expired(Handle(0, old(registry)[path]))
      ensures forall h :: old(Expired(h)) ==> Expired(h)
      ensures ContainsDir(path) <==> path == []
    {
      assert path in registry ==> registry[path] in registry.Values;
      var id := Install(path, RandomAccess([]));
      h := Handle(0, id);
    }

    /** create_dir: `path` now owns a fresh directory slot, whatever it owned
        before is dropped. */
    method CreateDir(path: Path)
      requires Valid()
      modifies this
      ensures Valid()
      ensures path in registry && registry[path] == old(nextId) && nextId == old(nextId) + 1
      ensures registry[path] !in old(slots)
      ensures registry == old(registry)[path := registry[path]]
      ensures slots == Unlinked(old(slots), old(registry), path)[registry[path] := Directory]
      ensures path in old(registry) ==> Expired(Handle(0, old(registry)[path]))
      ensures forall h :: old(Expired(h)) ==> Expired(h)
      ensures ContainsDir(path)
    {
      assert path in registry ==> registry[path] in registry.Values;
      var _ := Install(path, Directory);
    }

    /** Write through a handle: NotFound once its slot is gone,
        PermissionDenied on a directory, otherwise the file is truncated to
        the cursor and extended by `buf`, and the whole of `buf` is accepted.
        The cursor, the registry and every other slot are left alone. */
    method Write(h: Handle, buf: seq<byte>) returns (r: Result<nat>)
      requires Valid()
      modifies this`slots
      ensures Valid() && registry == old(registry) && nextId == old(nextId)
      ensures forall h :: old(Expired(h)) ==> Expired(h)
      ensures !old(Live(h)) ==> r == Err(NotFound) && slots == old(slots)
      ensures old(Live(h)) && old(slots[h.slot]).Directory? ==>
        r == Err(PermissionDenied) && slots == old(slots)
      ensures old(Live(h)) && old(slots[h.slot]).RandomAccess? ==>
        r == Ok(|buf|) &&
        slots == old(slots)[h.slot := RandomAccess(Written(old(slots[h.slot]).data, h.pos, buf))]
    {
      if h.slot !in slots {
        return Err(NotFound);
      }
      match slots[h.slot]
      case Directory =>
        return Err(PermissionDenied);
      case RandomAccess(data) =>
        var v := data;
        if h.pos < |v| {
          v := v[..h.pos];
        } else {
          assert v == data[..|data|];
        }
        v := v + buf;
        slots := slots[h.slot := RandomAccess(v)];
        return Ok(|buf|);
    }

    /** contains_dir: the root, or a path that owns a directory slot. */
    predicate ContainsDir(path: Path)
      requires Valid()
      reads this
    {
      path == [] || (path in registry && slots[registry[path]].Directory?)
    }

    /** The entries `ls` prints for `parent`: every registered path whose
        parent is `parent`, with its last segment and its kind. */
    function Children(parent: Path): set<Entry>
      requires Valid()
      reads this
    {
      set p | p in registry && Parent(p) == Some(parent) :: Entry(p[|p| - 1], KindOf(slots[registry[p]]))
    }
  }

  /** `ls` lists exactly the registered one-segment extensions of the
      directory, each with the kind of its slot. */
  lemma ChildrenExactly(fs: FileSystem, parent: Path, name: string, kind: Kind)
    requires fs.Valid()
    ensures Entry(name, kind) in fs.Children(parent) <==>
      parent + [name] in fs.registry && KindOf(fs.slots[fs.registry[parent + [name]]]) == kind
  {
  }

  /** An expired handle is refused by read (Write's contract says the same
      of write): no registry entry owns its slot any more. */
  lemma ExpiredHandleRefused(fs: FileSystem, h: Handle, buf: seq<byte>)
    requires fs.Valid() && fs.Expired(h)
    ensures h.slot !in fs.registry.Values
    ensures Read(fs.slots, h, buf) == Refused(NotFound)
  {
  }

  /** contains_dir agrees with what `ls` shows: the root is always a
      directory, and any other path is one exactly when its parent's
      listing has its last segment as a directory. */
  lemma ContainsDirListed(fs: FileSystem, path: Path)
    requires fs.Valid()
    ensures path == [] ==> fs.ContainsDir(path)
    ensures path != [] ==>
      (fs.ContainsDir(path) <==> Entry(path[|path| - 1], DirKind) in fs.Children(path[..|path| - 1]))
  {
    if path != [] {
      var parent, name := path[..|path| - 1], path[|path| - 1];
      assert parent + [name] == path;
      ChildrenExactly(fs, parent, name, DirKind);
    }
  }
}
