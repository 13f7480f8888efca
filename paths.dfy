/** Path handling of the virtual filesystem: folding a typed path fragment
    into the current directory (append_path), rendering a canonical path
    for the prompt (path_to_string) and the parent relation used by `ls`.

    A canonical absolute path is the sequence of its segments below the
    implicit root, so `[]` is "/" and `["a", "b"]` is "/a/b". Two paths that
    differ only in a trailing separator ("/a/" and "/a") have the same
    components and are therefore the same value. */
module Paths {

  /** One component of a path as the platform tokeniser yields it. */
  datatype Component = Prefix | RootDir | CurDir | ParentDir | Normal(name: string)

  type Path = seq<string>

  datatype Option<T> = None | Some(value: T)

  /** A name the tokeniser can produce as a `Normal` component. */
  predicate IsSegment(s: string) {
    s != "" && s != "." && s != ".." && '/' !in s
  }

  /** No `.`/`..` (nor empty or separator-carrying) segments. */
  predicate Canonical(p: Path) {
    forall i :: 0 <= i < |p| ==> IsSegment(p[i])
  }

  /** Every `Normal` component of a tokenised fragment is a proper segment. */
  predicate WellFormed(frag: seq<Component>) {
    forall i :: 0 <= i < |frag| && frag[i].Normal? ==> IsSegment(frag[i].name)
  }

  // ---------------------------------------------------------------------
  // append_path

  /** The effect of one component on the accumulated path. */
  function Step(cur: Path, c: Component): Path {
    match c
    case Prefix => cur
    case RootDir => []
    case CurDir => cur
    case ParentDir => if cur == [] then [] else cur[..|cur| - 1]
    case Normal(s) => cur + [s]
  }

  /** The path reached from `cur` by applying the components of `frag`
      from left to right. */
  function Resolve(cur: Path, frag: seq<Component>): Path
    decreases |frag|
  {
    if frag == [] then cur else Resolve(Step(cur, frag[0]), frag[1..])
  }

  /** The loop of append_path: the accumulated path is pushed and popped in
      place, one component at a time. */
  method AppendPath(cur: Path, frag: seq<Component>) returns (p: Path)
    ensures p == Resolve(cur, frag)
  {
    p := cur;
    for i := 0 to |frag|
      invariant Resolve(cur, frag) == Resolve(p, frag[i..])
    {
      assert frag[i..][1..] == frag[i + 1..];
      match frag[i]
      case Prefix =>
      case RootDir => p := [];
      case CurDir =>
      case ParentDir =>
        if |p| > 0 {
          p := p[..|p| - 1];
        }
      case Normal(s) => p := p + [s];
    }
  }

  /** Resolving a concatenation is resolving its two halves in turn. */
  lemma {:induction false} ResolveConcat(cur: Path, a: seq<Component>, b: seq<Component>)
    ensures Resolve(cur, a + b) == Resolve(Resolve(cur, a), b)
    decreases |a|
  {
    if a == [] {
      assert a + b == b;
    } else {
      assert (a + b)[0] == a[0];
      assert (a + b)[1..] == a[1..] + b;
      ResolveConcat(Step(cur, a[0]), a[1..], b);
    }
  }

  /** `.` components (and drive prefixes) never move the path. */
  lemma {:induction false} ResolveNoOps(cur: Path, frag: seq<Component>)
    requires forall i :: 0 <= i < |frag| ==> frag[i] == CurDir || frag[i] == Prefix
    ensures Resolve(cur, frag) == cur
    decreases |frag|
  {
    if frag != [] {
      ResolveNoOps(Step(cur, frag[0]), frag[1..]);
    }
  }

  /** A run of `k` parent components drops the last `k` segments, and
      stops at the root instead of failing. */
  lemma {:induction false} ResolveParents(cur: Path, frag: seq<Component>)
    requires forall i :: 0 <= i < |frag| ==> frag[i] == ParentDir
    ensures Resolve(cur, frag) == cur[..if |frag| <= |cur| then |cur| - |frag| else 0]
    decreases |frag|
  {
    if frag != [] {
      ResolveParents(Step(cur, frag[0]), frag[1..]);
    }
  }

  /** A fragment that starts at the root ignores the current directory. */
  lemma RootFragmentIgnoresCurrent(cur: Path, frag: seq<Component>)
    ensures Resolve(cur, [RootDir] + frag) == Resolve([], frag)
  {
  }

  /** Normal components only descend: the result extends `cur` by their names. */
  lemma {:induction false} ResolveDescends(cur: Path, frag: seq<Component>)
    requires forall i :: 0 <= i < |frag| ==> frag[i].Normal?
    ensures var r := Resolve(cur, frag);
      |r| == |cur| + |frag| && r[..|cur|] == cur &&
      forall i :: 0 <= i < |frag| ==> r[|cur| + i] == frag[i].name
    decreases |frag|
  {
    if frag != [] {
      ResolveDescends(cur + [frag[0].name], frag[1..]);
      var r := Resolve(cur, frag);
      assert r[..|cur| + 1] == cur + [frag[0].name] by {
        assert r[..|cur| + 1][..|cur|] == r[..|cur|];
      }
      forall i | 0 <= i < |frag|
        ensures r[|cur| + i] == frag[i].name
      {
        if i > 0 {
          assert r[|cur| + 1 + (i - 1)] == frag[1..][i - 1].name;
        } else {
          assert r[..|cur| + 1][|cur|] == frag[0].name;
        }
      }
    }
  }

  /** Resolution keeps a canonical path canonical: the result never holds a
      `.` or `..` segment. */
  lemma {:induction false} ResolveCanonical(cur: Path, frag: seq<Component>)
    requires Canonical(cur) && WellFormed(frag)
    ensures Canonical(Resolve(cur, frag))
    decreases |frag|
  {
    if frag != [] {
      assert WellFormed(frag[1..]) by {
        forall i | 0 <= i < |frag[1..]| && frag[1..][i].Normal?
          ensures IsSegment(frag[1..][i].name)
        {
          assert frag[1..][i] == frag[i + 1];
        }
      }
      ResolveCanonical(Step(cur, frag[0]), frag[1..]);
    }
  }

  /** "/a/b" followed by "../c" is "/a/c". */
  lemma ResolveSiblingExample()
    ensures Resolve(["a", "b"], [ParentDir, Normal("c")]) == ["a", "c"]
  {
  }

  // ---------------------------------------------------------------------
  // path_to_string

  /** A component list that path_to_string can render (it panics on `.`/`..`). */
  predicate Renderable(cs: seq<Component>) {
    forall i :: 0 <= i < |cs| ==> cs[i] != CurDir && cs[i] != ParentDir
  }

  /** The text one component contributes: its name, then a separator. */
  function Piece(c: Component): string
    requires c != CurDir && c != ParentDir
  {
    match c
    case Normal(s) => s + "/"
    case _ => "/"
  }

  /** The rendering of a component list. */
  function Render(cs: seq<Component>): string
    requires Renderable(cs)
  {
    if cs == [] then "" else Piece(cs[0]) + Render(cs[1..])
  }

  /** The components of a canonical absolute path. */
  function Components(p: Path): (cs: seq<Component>)
    ensures Renderable(cs)
  {
    [RootDir] + Normals(p)
  }

  function Normals(p: Path): (cs: seq<Component>)
    ensures |cs| == |p| && forall i :: 0 <= i < |p| ==> cs[i] == Normal(p[i])
  {
    if p == [] then [] else [Normal(p[0])] + Normals(p[1..])
  }

  lemma {:induction false} RenderConcat(a: seq<Component>, b: seq<Component>)
    requires Renderable(a) && Renderable(b)
    ensures Renderable(a + b) && Render(a + b) == Render(a) + Render(b)
    decreases |a|
  {
    assert Renderable(a + b) by {
      forall i | 0 <= i < |a + b|
        ensures (a + b)[i] != CurDir && (a + b)[i] != ParentDir
      {
        if i < |a| { assert (a + b)[i] == a[i]; } else { assert (a + b)[i] == b[i - |a|]; }
      }
    }
    if a == [] {
      assert a + b == b;
    } else {
      assert (a + b)[0] == a[0];
      assert (a + b)[1..] == a[1..] + b;
      RenderConcat(a[1..], b);
    }
  }

  /** The loop of path_to_string: the string is grown one component at a time. */
  method PathToString(cs: seq<Component>) returns (s: string)
    requires Renderable(cs)
    ensures s == Render(cs)
  {
    s := "";
    for i := 0 to |cs|
      invariant s == Render(cs[..i])
    {
      match cs[i] {
        case Prefix =>
        case RootDir =>
        case Normal(name) => s := s + name;
      }
      s := s + "/";
      RenderConcat(cs[..i], [cs[i]]);
      assert cs[..i + 1] == cs[..i] + [cs[i]];
    }
    assert cs[..|cs|] == cs;
  }

  /** The root renders as "/" and "/a/b" as "/a/b/". */
  lemma RenderExamples()
    ensures Render(Components([])) == "/"
    ensures Render(Components(["a", "b"])) == "/a/b/"
  {
  }

  // The inverse of rendering, used to show that no information is lost.

  /** Index of the first separator of `s`, or `|s|` when there is none. */
  function FirstSlash(s: string): (k: nat)
    ensures k <= |s| && (k < |s| ==> s[k] == '/')
    ensures forall j :: 0 <= j < k ==> s[j] != '/'
  {
    if s == [] then 0
    else if s[0] == '/' then 0
    else 1 + FirstSlash(s[1..])
  }

  /** Splits a rendered, separator-terminated list of names back into the names. */
  function Segments(s: string): Path
    decreases |s|
  {
    if s == [] then []
    else
      var k := FirstSlash(s);
      if k == |s| then [s] else [s[..k]] + Segments(s[k + 1..])
  }

  lemma FirstSlashOfPiece(name: string, rest: string)
    requires '/' !in name
    ensures FirstSlash(name + "/" + rest) == |name|
  {
    var s := name + "/" + rest;
    assert s[|name|] == '/';
    assert forall j :: 0 <= j < |name| ==> s[j] == name[j];
  }

  /** Rendering a canonical path is injective: the path is recovered from
      the text after the leading separator. */
  lemma {:induction false} RenderRoundTrip(p: Path)
    requires forall i :: 0 <= i < |p| ==> '/' !in p[i]
    ensures var s := Render(Components(p)); |s| > 0 && s[0] == '/' && Segments(s[1..]) == p
  {
    NormalsRoundTrip(p);
    assert Components(p)[1..] == Normals(p);
  }

  lemma {:induction false} NormalsRoundTrip(p: Path)
    requires forall i :: 0 <= i < |p| ==> '/' !in p[i]
    ensures Segments(Render(Normals(p))) == p
  {
    if p != [] {
      var ns := Normals(p);
      assert ns[1..] == Normals(p[1..]);
      var rest := Render(Normals(p[1..]));
      assert Render(ns) == p[0] + "/" + rest;
      FirstSlashOfPiece(p[0], rest);
      var s := p[0] + "/" + rest;
      assert s[..|p[0]|] == p[0];
      assert s[|p[0]| + 1..] == rest;
      NormalsRoundTrip(p[1..]);
    }
  }

  // ---------------------------------------------------------------------
  // Path::parent, as `ls` uses it

  /** The directory holding `p`; the root has none. */
  function Parent(p: Path): (r: Option<Path>)
    ensures r.None? <==> p == []
    ensures r.Some? ==> r.value + [p[|p| - 1]] == p
  {
    if p == [] then None else Some(p[..|p| - 1])
  }
}
