/** The filesystem commands of the interactive shell: `touch` and `mkdir`
    resolve a fragment against the current directory and create there,
    `ls` lists the current directory, and `cd` moves only into a directory.
    The shell's one piece of state is its current directory. */
module Commands {
  import opened Paths
  import opened VirtualFs

  class Shell {
    const fs: FileSystem
    var cwd: Path

    /** The current directory is a canonical absolute path. (It need not
        stay a directory: `touch` on its own path replaces it by a file.) */
    ghost predicate Valid()
      reads this, fs
    {
      fs.Valid() && Canonical(cwd)
    }

    /** The shell starts at the root. */
    constructor (fs: FileSystem)
      requires fs.Valid()
      ensures Valid() && this.fs == fs && cwd == []
    {
      this.fs := fs;
      cwd := [];
    }

    /** `touch`: the resolved path now owns a fresh empty file; no other
        entry changes and the shell stays where it is. */
    method Touch(frag: seq<Component>)
      requires Valid() && WellFormed(frag)
      modifies fs
      ensures Valid() && cwd == old(cwd)
      ensures var target := Resolve(cwd, frag);
        Canonical(target) &&
        target in fs.registry && fs.registry[target] !in old(fs.slots) &&
        fs.registry == old(fs.registry)[target := fs.registry[target]] &&
        fs.slots == Unlinked(old(fs.slots), old(fs.registry), target)[fs.registry[target] := RandomAccess([])]
      ensures forall h :: old(fs.Expired(h)) ==> fs.Expired(h)
    {
      var path := AppendPath(cwd, frag);
      ResolveCanonical(cwd, frag);
      var _ := fs.Create(path);
    }

    /** `mkdir`: the resolved path now owns a fresh directory; no other
        entry changes and the shell stays where it is. */
    method Mkdir(frag: seq<Component>)
      requires Valid() && WellFormed(frag)
      modifies fs
      ensures Valid() && cwd == old(cwd)
      ensures var target := Resolve(cwd, frag);
        Canonical(target) && fs.ContainsDir(target) &&
        target in fs.registry && fs.registry[target] !in old(fs.slots) &&
        fs.registry == old(fs.registry)[target := fs.registry[target]] &&
        fs.slots == Unlinked(old(fs.slots), old(fs.registry), target)[fs.registry[target] := Directory]
      ensures forall h :: old(fs.Expired(h)) ==> fs.Expired(h)
    {
      var path := AppendPath(cwd, frag);
      ResolveCanonical(cwd, frag);
      fs.CreateDir(path);
    }

    /** `ls`: the entries directly under the current directory. */
    method Ls() returns (entries: set<Entry>)
      requires Valid()
      ensures forall name, kind :: Entry(name, kind) in entries <==>
        cwd + [name] in fs.registry && KindOf(fs.slots[fs.registry[cwd + [name]]]) == kind
    {
      entries := fs.Children(cwd);
      forall name, kind
        ensures Entry(name, kind) in entries <==>
          cwd + [name] in fs.registry && KindOf(fs.slots[fs.registry[cwd + [name]]]) == kind
      {
        ChildrenExactly(fs, cwd, name, kind);
      }
    }

    /** `cd`: moves to the resolved path exactly when it denotes a
        directory (the root always does); otherwise reports failure and
        stays. The filesystem is untouched. */
    method Cd(frag: seq<Component>) returns (moved: bool)
      requires Valid() && WellFormed(frag)
      modifies this`cwd
      ensures Valid()
      ensures moved == fs.ContainsDir(Resolve(old(cwd), frag))
      ensures cwd == if moved then Resolve(old(cwd), frag) else old(cwd)
    {
      var path := AppendPath(cwd, frag);
      ResolveCanonical(cwd, frag);
      moved := fs.ContainsDir(path);
      if moved {
        cwd := path;
      }
    }
  }
}
