/** End-to-end behaviour of the storage engine and the shell, derived from
    the operation contracts alone: each method builds a fresh filesystem,
    runs a short sequence of operations and states what the caller sees. */
module Scenarios {
  import opened Paths
  import opened VirtualFs
  import opened Commands

  /** A directory can be opened, but its content can be neither read nor
      written, and a failed write leaves it as it was. */
  method DirectoryRefusesContent(p: Path, buf: seq<byte>)
    returns (got: Result<Handle>, w: Result<nat>, r: ReadOutcome, stillDir: bool)
    ensures got.Ok? && got.value.pos == 0
    ensures w == Err(PermissionDenied) && r == Refused(PermissionDenied) && stillDir
  {
    var fs := new FileSystem();
    fs.CreateDir(p);
    got := fs.Open(p);
    var h := got.value;
    w := fs.Write(h, buf);
    r := Read(fs.slots, h, buf);
    stillDir := fs.ContainsDir(p);
  }

  /** Opening a path nobody created fails. */
  method OpenMissing(p: Path, q: Path) returns (r: Result<Handle>)
    requires p != q
    ensures r == Err(NotFound)
  {
    var fs := new FileSystem();
    var _ := fs.Create(q);
    r := fs.Open(p);
  }

  /** A freshly created file reads back as empty. */
  method CreateThenRead(p: Path) returns (r: ReadOutcome)
    ensures r == Copied(0, [])
  {
    var fs := new FileSystem();
    var h := fs.Create(p);
    r := Read(fs.slots, h, []);
  }

  /** What is written through one handle is read back whole through a
      handle opened later on the same path. */
  method WriteThenRead(p: Path, b: seq<byte>) returns (w: Result<nat>, r: ReadOutcome)
    ensures w == Ok(|b|) && r == Copied(|b|, b)
  {
    var fs := new FileSystem();
    var h := fs.Create(p);
    w := fs.Write(h, b);
    var got := fs.Open(p);
    var zeros := seq(|b|, _ => 0 as byte);
    r := Read(fs.slots, got.value, zeros);
    assert b[0..] == b;
  }

  /** Two writes at the same cursor: the second replaces the first. */
  method RewriteThenRead(p: Path, b1: seq<byte>, b2: seq<byte>) returns (r: ReadOutcome)
    ensures r == Copied(|b2|, b2)
  {
    var fs := new FileSystem();
    var h := fs.Create(p);
    var _ := fs.Write(h, b1);
    var _ := fs.Write(h, b2);
    var zeros := seq(|b2|, _ => 0 as byte);
    r := Read(fs.slots, h, zeros);
    assert b2[0..] == b2;
  }

  /** Re-creating a path drops the slot an older handle refers to: the old
      handle is refused, and the new file is not affected by its attempts. */
  method ExpiredHandle(p: Path, b: seq<byte>) returns (w: Result<nat>, r: ReadOutcome, current: ReadOutcome)
    ensures w == Err(NotFound) && r == Refused(NotFound) && current == Copied(0, [])
  {
    var fs := new FileSystem();
    var stale := fs.Create(p);
    var live := fs.Create(p);
    w := fs.Write(stale, b);
    r := Read(fs.slots, stale, b);
    current := Read(fs.slots, live, []);
  }

  /** An expired handle stays expired: slots created afterwards, at any
      path, never bring it back, and a failed write through it changes
      nothing. */
  method ExpiredStaysExpired(p: Path, q: Path, b: seq<byte>) returns (w: Result<nat>, r: ReadOutcome)
    ensures w == Err(NotFound) && r == Refused(NotFound)
  {
    var fs := new FileSystem();
    var stale := fs.Create(p);
    var _ := fs.Create(p);
    var _ := fs.Create(q);
    fs.CreateDir(q);
    w := fs.Write(stale, b);
    r := Read(fs.slots, stale, b);
  }

  /** `touch a` and `mkdir b` at the root, then `ls`. */
  method ListRoot() returns (entries: set<Entry>)
    ensures entries == {Entry("a", FileKind), Entry("b", DirKind)}
  {
    var fs := new FileSystem();
    var shell := new Shell(fs);
    assert Resolve([], [Normal("a")]) == ["a"];
    assert Resolve([], [Normal("b")]) == ["b"];
    shell.Touch([Normal("a")]);
    shell.Mkdir([Normal("b")]);
    assert fs.registry.Keys == {["a"], ["b"]};
    assert fs.slots[fs.registry[["a"]]] == RandomAccess([]);
    assert fs.slots[fs.registry[["b"]]] == Directory;
    entries := shell.Ls();
    assert [] + ["a"] == ["a"] && [] + ["b"] == ["b"];
    forall e | e in entries
      ensures e == Entry("a", FileKind) || e == Entry("b", DirKind)
    {
      assert [] + [e.name] in fs.registry;
      assert [e.name] == ["a"] || [e.name] == ["b"];
      assert e.name == [e.name][0];
    }
  }

  /** `cd` into a file fails and leaves the shell where it was. */
  method CdIntoFile() returns (moved: bool, cwd: Path)
    ensures !moved && cwd == []
  {
    var fs := new FileSystem();
    var shell := new Shell(fs);
    assert Resolve([], [Normal("f")]) == ["f"];
    shell.Touch([Normal("f")]);
    moved := shell.Cd([Normal("f")]);
    cwd := shell.cwd;
  }

  /** `cd` into a directory moves there, and `cd ..` returns to the root. */
  method CdDownAndUp() returns (moved: bool, down: Path, up: Path)
    ensures moved && down == ["d"] && up == []
  {
    var fs := new FileSystem();
    var shell := new Shell(fs);
    assert WellFormed([Normal("d")]) && Resolve([], [Normal("d")]) == ["d"];
    shell.Mkdir([Normal("d")]);
    assert fs.ContainsDir(["d"]);
    moved := shell.Cd([Normal("d")]);
    down := shell.cwd;
    assert WellFormed([ParentDir]) && Resolve(["d"], [ParentDir]) == [];
    var _ := shell.Cd([ParentDir]);
    up := shell.cwd;
  }

  /** `cd ..` at the root succeeds and stays at the root. */
  method CdUpAtRoot() returns (moved: bool, cwd: Path)
    ensures moved && cwd == []
  {
    var fs := new FileSystem();
    var shell := new Shell(fs);
    assert Resolve([], [ParentDir]) == [];
    moved := shell.Cd([ParentDir]);
    cwd := shell.cwd;
  }
}
