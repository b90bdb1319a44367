/**
 * The filesystem as the three tools see it: a tree of paths, each a regular
 * file with text content or a directory, and the pathlib / shutil / os
 * primitives they call, stated as constant writes on that tree.
 */
module FsModel {
  import opened Wrappers
  import opened Text

  /** A path relative to the working directory, as its name segments; `[]` is the working directory. */
  type Path = seq<string>

  datatype Node = File(content: string) | Dir

  /** One constant write: after it, the path holds the node. */
  type Write = (Path, Node)

  /** `Path.name`: the last segment. */
  function Name(p: Path): string {
    if p == [] then "" else p[|p| - 1]
  }

  function Parent(p: Path): Path
    requires p != []
  {
    p[..|p| - 1]
  }

  function Lookup(m: map<Path, Node>, p: Path): Option<Node> {
    if p in m then Some(m[p]) else None
  }

  predicate IsDirAt(m: map<Path, Node>, p: Path) {
    p in m && m[p].Dir?
  }

  predicate IsFileAt(m: map<Path, Node>, p: Path) {
    p in m && m[p].File?
  }

  /** `q` is `p` itself or lies below it. */
  predicate Within(q: Path, p: Path) {
    p <= q
  }

  /** The working directory is a directory, and every other node sits in a directory. */
  ghost predicate WellFormed(m: map<Path, Node>) {
    && IsDirAt(m, [])
    && forall p :: p in m && p != [] ==> IsDirAt(m, Parent(p))
  }

  // ---------------------------------------------------------------------------
  // Path strings
  // ---------------------------------------------------------------------------

  /** A name that pathlib keeps as one path segment. */
  predicate IsSegment(x: string) {
    x != "" && x != "." && '/' !in x
  }

  function Emit(seg: string): Path {
    if seg == "" || seg == "." then [] else [seg]
  }

  /** Splits `s` at `/`, `seg` being the segment read so far. */
  function ParseFrom(s: string, seg: string): (r: Path)
    requires '/' !in seg
    ensures forall i :: 0 <= i < |r| ==> IsSegment(r[i])
    decreases |s|
  {
    if s == [] then Emit(seg)
    else if s[0] == '/' then Emit(seg) + ParseFrom(s[1..], "")
    else ParseFrom(s[1..], seg + [s[0]])
  }

  /**
   * The segments pathlib makes of a relative path string: split at `/`,
   * empty and `.` segments dropped.
   */
  function ParsePath(s: string): (r: Path)
    ensures forall i :: 0 <= i < |r| ==> IsSegment(r[i])
  {
    ParseFrom(s, "")
  }

  lemma {:induction false} ParseFromSegment(s: string, seg: string)
    requires '/' !in seg && '/' !in s
    ensures ParseFrom(s, seg) == Emit(seg + s)
    decreases |s|
  {
    if s != [] {
      assert ParseFrom(s, seg) == ParseFrom(s[1..], seg + [s[0]]);
      ParseFromSegment(s[1..], seg + [s[0]]);
      assert seg + [s[0]] + s[1..] == seg + s;
    } else {
      assert seg + s == seg;
    }
  }

  /** A single-segment name is parsed as that one segment. */
  lemma ParseSegment(x: string)
    requires IsSegment(x)
    ensures ParsePath(x) == [x]
  {
    ParseFromSegment(x, "");
    assert "" + x == x;
  }

  // ---------------------------------------------------------------------------
  // Writes
  // ---------------------------------------------------------------------------

  /** The tree after the writes, performed in order. */
  function Apply(m: map<Path, Node>, ws: seq<Write>): map<Path, Node>
    decreases |ws|
  {
    if ws == [] then m else Apply(m[ws[0].0 := ws[0].1], ws[1..])
  }

  predicate Writes(ws: seq<Write>, p: Path) {
    exists i :: 0 <= i < |ws| && ws[i].0 == p
  }

  /** A single write sets its path. */
  lemma ApplyOne(m: map<Path, Node>, ws: seq<Write>)
    requires |ws| == 1
    ensures Apply(m, ws) == m[ws[0].0 := ws[0].1]
  {
    assert Apply(m, ws) == Apply(m[ws[0].0 := ws[0].1], ws[1..]);
    assert ws[1..] == [];
  }

  lemma {:induction false} ApplyAppend(m: map<Path, Node>, a: seq<Write>, b: seq<Write>)
    ensures Apply(m, a + b) == Apply(Apply(m, a), b)
    decreases |a|
  {
    if a != [] {
      assert (a + b)[0] == a[0] && (a + b)[1..] == a[1..] + b;
      ApplyAppend(m[a[0].0 := a[0].1], a[1..], b);
    } else {
      assert a + b == b;
    }
  }

  /** A path no write names keeps its node (or its absence). */
  lemma {:induction false} ApplyOutside(m: map<Path, Node>, ws: seq<Write>, p: Path)
    requires !Writes(ws, p)
    ensures Lookup(Apply(m, ws), p) == Lookup(m, p)
    decreases |ws|
  {
    if ws != [] {
      assert !Writes(ws[1..], p) by {
        forall i | 0 <= i < |ws[1..]| ensures ws[1..][i].0 != p {
          assert ws[1..][i] == ws[i + 1];
        }
      }
      ApplyOutside(m[ws[0].0 := ws[0].1], ws[1..], p);
    }
  }

  /** A path some write names ends up with the same node whatever the tree was before. */
  lemma {:induction false} ApplyInside(m1: map<Path, Node>, m2: map<Path, Node>, ws: seq<Write>, p: Path)
    requires Writes(ws, p)
    ensures p in Apply(m1, ws) && p in Apply(m2, ws)
    ensures Apply(m1, ws)[p] == Apply(m2, ws)[p]
    decreases |ws|
  {
    if Writes(ws[1..], p) {
      ApplyInside(m1[ws[0].0 := ws[0].1], m2[ws[0].0 := ws[0].1], ws[1..], p);
    } else {
      forall i | 1 <= i < |ws| ensures ws[i].0 != p {
        assert ws[1..][i - 1] == ws[i];
      }
      ApplyOutside(m1[p := ws[0].1], ws[1..], p);
      ApplyOutside(m2[p := ws[0].1], ws[1..], p);
    }
  }

  /** Performing the same writes a second time changes nothing. */
  lemma ApplyTwice(m: map<Path, Node>, ws: seq<Write>)
    ensures Apply(Apply(m, ws), ws) == Apply(m, ws)
  {
    var once, twice := Apply(m, ws), Apply(Apply(m, ws), ws);
    forall p ensures Lookup(twice, p) == Lookup(once, p) {
      if Writes(ws, p) {
        ApplyInside(once, m, ws, p);
      } else {
        ApplyOutside(once, ws, p);
      }
    }
    assert forall p :: p in twice <==> p in once by {
      forall p ensures p in twice <==> p in once {
        assert Lookup(twice, p) == Lookup(once, p);
      }
    }
    forall p | p in twice ensures twice[p] == once[p] {
      assert Lookup(twice, p) == Lookup(once, p);
    }
  }

  /** When every write naming `p` writes `v`, `p` holds `v` afterwards. */
  lemma {:induction false} ApplyUniform(m: map<Path, Node>, ws: seq<Write>, p: Path, v: Node)
    requires Writes(ws, p)
    requires forall i :: 0 <= i < |ws| && ws[i].0 == p ==> ws[i].1 == v
    ensures p in Apply(m, ws) && Apply(m, ws)[p] == v
    decreases |ws|
  {
    if Writes(ws[1..], p) {
      forall i | 0 <= i < |ws[1..]| && ws[1..][i].0 == p ensures ws[1..][i].1 == v {
        assert ws[1..][i] == ws[i + 1];
      }
      ApplyUniform(m[ws[0].0 := ws[0].1], ws[1..], p, v);
    } else {
      forall i | 1 <= i < |ws| ensures ws[i].0 != p {
        assert ws[1..][i - 1] == ws[i];
      }
      ApplyOutside(m[p := ws[0].1], ws[1..], p);
    }
  }

  // ---------------------------------------------------------------------------
  // The primitives
  // ---------------------------------------------------------------------------

  /** `mkdir(parents=True, exist_ok=True)` succeeds unless a regular file sits on the path. */
  predicate MakeDirsOk(m: map<Path, Node>, p: Path) {
    forall k :: 1 <= k <= |p| ==> !IsFileAt(m, p[..k])
  }

  /** What a successful `mkdir(parents=True, exist_ok=True)` leaves: a directory at every prefix. */
  function DirWrites(p: Path): (ws: seq<Write>)
    ensures |ws| == |p|
    ensures forall i :: 0 <= i < |p| ==> ws[i] == (p[..i + 1], Dir)
  {
    seq(|p|, i requires 0 <= i < |p| => (p[..i + 1], Dir))
  }

  /** `shutil.copy2(src, dst)` copies into `dst/<name of src>` when `dst` is a directory. */
  function CopyTarget(m: map<Path, Node>, src: Path, dst: Path): Path {
    if IsDirAt(m, dst) then dst + [Name(src)] else dst
  }

  /**
   * `shutil.copy2` succeeds when the source is a regular file, the target is
   * not the source itself, sits in an existing directory and is not a directory.
   */
  predicate CopyOk(m: map<Path, Node>, src: Path, dst: Path) {
    var t := CopyTarget(m, src, dst);
    && IsFileAt(m, src)
    && t != src
    && t != []
    && IsDirAt(m, Parent(t))
    && !IsDirAt(m, t)
  }

  function CopyWrites(m: map<Path, Node>, src: Path, dst: Path): seq<Write>
    requires IsFileAt(m, src)
  {
    [(CopyTarget(m, src, dst), File(m[src].content))]
  }

  /** `Path.rename` of a regular file onto `dst` succeeds unless `dst` is a directory or has none to sit in. */
  predicate RenameOk(m: map<Path, Node>, src: Path, dst: Path) {
    IsFileAt(m, src) && dst != [] && IsDirAt(m, Parent(dst)) && !IsDirAt(m, dst)
  }

  function AfterRename(m: map<Path, Node>, src: Path, dst: Path): map<Path, Node>
    requires src in m
  {
    (m - {src})[dst := m[src]]
  }

  /** `open(p, "w")` succeeds unless `p` is a directory or has none to sit in. */
  predicate WriteOk(m: map<Path, Node>, p: Path) {
    p != [] && IsDirAt(m, Parent(p)) && !IsDirAt(m, p)
  }

  // ---------------------------------------------------------------------------
  // The primitives keep the tree well formed
  // ---------------------------------------------------------------------------

  lemma WriteFileKeepsWellFormed(m: map<Path, Node>, p: Path, text: string)
    requires WellFormed(m) && WriteOk(m, p)
    ensures WellFormed(m[p := File(text)])
  {
    var m' := m[p := File(text)];
    forall q | q in m' && q != [] ensures IsDirAt(m', Parent(q)) {
      if q != p {
        assert IsDirAt(m, Parent(q));
        assert Parent(q) != p;
      }
    }
  }

  /**
   * The `k`-th directory write of `mkdir(parents=True)`: its prefix is either
   * missing or already a directory, and writing it extends the writes so far.
   */
  lemma DirWritesStep(m0: map<Path, Node>, p: Path, k: nat, nodes: map<Path, Node>)
    requires k < |p| && MakeDirsOk(m0, p) && nodes == Apply(m0, DirWrites(p)[..k])
    ensures p[..k + 1] in nodes ==> nodes[p[..k + 1]] == Dir
    ensures Apply(m0, DirWrites(p)[..k + 1]) == nodes[p[..k + 1] := Dir]
  {
    var q := p[..k + 1];
    if q in nodes {
      assert !IsFileAt(m0, q);
      forall i | 0 <= i < k ensures DirWrites(p)[..k][i].0 != q {
        assert |DirWrites(p)[..k][i].0| == i + 1;
      }
      ApplyOutside(m0, DirWrites(p)[..k], q);
    }
    assert DirWrites(p)[..k + 1] == DirWrites(p)[..k] + [(q, Dir)];
    ApplyAppend(m0, DirWrites(p)[..k], [(q, Dir)]);
    ApplyOne(nodes, [(q, Dir)]);
  }

  lemma DirWritesKeepWellFormed(m: map<Path, Node>, p: Path)
    requires WellFormed(m) && MakeDirsOk(m, p)
    ensures WellFormed(Apply(m, DirWrites(p)))
  {
    MakeDirsStep(m, p, 0);
  }

  /** Writing the directories `p[..1]`, ..., `p[..|p|]` from the `k`-th one on keeps the tree well formed. */
  lemma {:induction false} MakeDirsStep(m: map<Path, Node>, p: Path, k: nat)
    requires WellFormed(m) && k <= |p|
    requires forall j :: 1 <= j <= |p| ==> !IsFileAt(m, p[..j])
    requires IsDirAt(m, p[..k])
    ensures WellFormed(Apply(m, DirWrites(p)[k..]))
    decreases |p| - k
  {
    if k < |p| {
      var ws := DirWrites(p)[k..];
      assert ws[0] == (p[..k + 1], Dir);
      var m' := m[p[..k + 1] := Dir];
      assert Parent(p[..k + 1]) == p[..k];
      forall q | q in m' && q != [] ensures IsDirAt(m', Parent(q)) {
        if q != p[..k + 1] {
          assert IsDirAt(m, Parent(q));
        }
      }
      forall j | 1 <= j <= |p| ensures !IsFileAt(m', p[..j]) {
        if p[..j] != p[..k + 1] {
          assert !IsFileAt(m, p[..j]);
        }
      }
      assert ws[1..] == DirWrites(p)[k + 1..];
      MakeDirsStep(m', p, k + 1);
    }
  }

  lemma CopyKeepsWellFormed(m: map<Path, Node>, src: Path, dst: Path)
    requires WellFormed(m) && CopyOk(m, src, dst)
    ensures WellFormed(Apply(m, CopyWrites(m, src, dst)))
  {
    var t := CopyTarget(m, src, dst);
    WriteFileKeepsWellFormed(m, t, m[src].content);
    assert Apply(m, CopyWrites(m, src, dst)) == m[t := File(m[src].content)];
  }

  lemma RenameKeepsWellFormed(m: map<Path, Node>, src: Path, dst: Path)
    requires WellFormed(m) && RenameOk(m, src, dst)
    ensures WellFormed(AfterRename(m, src, dst))
  {
    var m' := AfterRename(m, src, dst);
    assert src != [];
    forall q | q in m' && q != [] ensures IsDirAt(m', Parent(q)) {
      if q != dst {
        assert q in m && IsDirAt(m, Parent(q));
        assert Parent(q) != src;
      }
      assert Parent(q) != src;
    }
  }

  // ---------------------------------------------------------------------------
  // The filesystem object
  // ---------------------------------------------------------------------------

  /** The filesystem the tools run against; its methods are the OS calls they make. */
  class FileSystem {
    var nodes: map<Path, Node>

    ghost predicate Valid()
      reads this
    {
      WellFormed(nodes)
    }

    constructor (init: map<Path, Node>)
      requires WellFormed(init)
      ensures Valid() && nodes == init
    {
      nodes := init;
    }

    /** `Path.exists()`. */
    method Exists(p: Path) returns (b: bool)
      ensures b <==> p in nodes
    {
      b := p in nodes;
    }

    /** `Path.is_file()`. */
    method IsFile(p: Path) returns (b: bool)
      ensures b == IsFileAt(nodes, p)
    {
      b := IsFileAt(nodes, p);
    }

    /** `open(p, "r").readlines()`. */
    method ReadLines(p: Path) returns (lines: seq<string>)
      requires IsFileAt(nodes, p)
      ensures lines == Lines(TranslateNewlines(nodes[p].content))
    {
      lines := Lines(TranslateNewlines(nodes[p].content));
    }

    /** `p.mkdir(parents=True, exist_ok=True)`: all or nothing. */
    method MakeDirs(p: Path) returns (ok: bool)
      requires Valid()
      modifies this
      ensures Valid()
      ensures ok == MakeDirsOk(old(nodes), p)
      ensures nodes == if ok then Apply(old(nodes), DirWrites(p)) else old(nodes)
    {
      ok := true;
      var k := 1;
      while k <= |p|
        invariant 1 <= k <= |p| + 1
        invariant ok == forall j :: 1 <= j < k ==> !IsFileAt(nodes, p[..j])
      {
        if IsFileAt(nodes, p[..k]) {
          ok := false;
        }
        k := k + 1;
      }
      if !ok {
        return;
      }
      ghost var m0 := nodes;
      DirWritesKeepWellFormed(m0, p);
      k := 0;
      while k < |p|
        invariant 0 <= k <= |p|
        invariant nodes == Apply(m0, DirWrites(p)[..k])
      {
        DirWritesStep(m0, p, k, nodes);
        if p[..k + 1] !in nodes {
          nodes := nodes[p[..k + 1] := Dir];
        } else {
          assert nodes == nodes[p[..k + 1] := Dir];
        }
        k := k + 1;
      }
      assert DirWrites(p)[..k] == DirWrites(p);
    }

    /** `shutil.copy2(src, dst)`, content only. */
    method Copy2(src: Path, dst: Path) returns (ok: bool)
      requires Valid()
      modifies this
      ensures Valid()
      ensures ok == CopyOk(old(nodes), src, dst)
      ensures nodes == if ok then Apply(old(nodes), CopyWrites(old(nodes), src, dst)) else old(nodes)
    {
      ok := CopyOk(nodes, src, dst);
      if ok {
        CopyKeepsWellFormed(nodes, src, dst);
        nodes := Apply(nodes, CopyWrites(nodes, src, dst));
      }
    }

    /** `src.rename(dst)` for a regular file `src`. */
    method Rename(src: Path, dst: Path) returns (ok: bool)
      requires Valid() && IsFileAt(nodes, src)
      modifies this
      ensures Valid()
      ensures ok == RenameOk(old(nodes), src, dst)
      ensures nodes == if ok then AfterRename(old(nodes), src, dst) else old(nodes)
    {
      ok := RenameOk(nodes, src, dst);
      if ok {
        RenameKeepsWellFormed(nodes, src, dst);
        nodes := AfterRename(nodes, src, dst);
      }
    }

    /** `open(p, "w").writelines(lines)`. */
    method WriteText(p: Path, text: string) returns (ok: bool)
      requires Valid()
      modifies this
      ensures Valid()
      ensures ok == WriteOk(old(nodes), p)
      ensures nodes == if ok then old(nodes)[p := File(text)] else old(nodes)
    {
      ok := WriteOk(nodes, p);
      if ok {
        WriteFileKeepsWellFormed(nodes, p, text);
        nodes := nodes[p := File(text)];
      }
    }
  }
}
