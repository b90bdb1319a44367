/**
 * The integrator: for each curated accelerator, copy the regular files
 * directly inside `selected_accelerator_files/<acc>/` into the existing ESP
 * folder `esp/accelerators/rtl/<acc>_rtl/hw/src/<acc>_rtl_basic_dma64/`.
 * Nothing is copied when either folder is missing, and no directory is
 * ever created.
 *
 * The order of `iterdir` is an input, `listingOf(dir)`: the entry names of
 * `dir` in the order the listing yields them.
 */
module CopyAccIntoEsp {
  import opened Wrappers
  import opened FsModel
  import ChooseAccFiles

  // ---------------------------------------------------------------------------
  // Configuration and layout
  // ---------------------------------------------------------------------------

  /** Where the curated accelerator folders live. */
  const SrcRoot: Path := ["selected_accelerator_files"]

  /** Root of the ESP RTL tree. */
  const EspRoot: Path := ["esp", "accelerators", "rtl"]

  const AcceleratorNames: seq<string> := [
    "aescipher",
    "aesdecipher_v2",
    "conv_new",
    "fcdnn_acc",
    "fft_64",
    "sha256",
    "simple_dnn",
    "sobel_v2"
  ]

  /** `SRC_ROOT / acc`. */
  function SourceDir(acc: string): (dir: Path)
    ensures Within(dir, SrcRoot)
  {
    SrcRoot + ParsePath(acc)
  }

  /** `ESP_ROOT / f"{acc}_rtl" / "hw" / "src" / f"{acc}_rtl_basic_dma64"`. */
  function EspDestDir(acc: string): (dir: Path)
    ensures Within(dir, EspRoot)
  {
    EspRoot + ParsePath(acc + "_rtl") + ["hw", "src"] + ParsePath(acc + "_rtl_basic_dma64")
  }

  /** For a name that is one path segment, the source and destination folders are exactly these. */
  lemma DestDirLayout(acc: string)
    requires IsSegment(acc)
    ensures SourceDir(acc) == ["selected_accelerator_files", acc]
    ensures EspDestDir(acc) == ["esp", "accelerators", "rtl", acc + "_rtl", "hw", "src", acc + "_rtl_basic_dma64"]
  {
    ParseSegment(acc);
    assert '/' !in acc + "_rtl" by {
      assert forall i :: 0 <= i < |acc| ==> (acc + "_rtl")[i] == acc[i];
    }
    assert '/' !in acc + "_rtl_basic_dma64" by {
      assert forall i :: 0 <= i < |acc| ==> (acc + "_rtl_basic_dma64")[i] == acc[i];
    }
    ParseSegment(acc + "_rtl");
    ParseSegment(acc + "_rtl_basic_dma64");
  }

  /** The source and destination folders of any accelerator lie in separate trees. */
  lemma FoldersApart(acc: string)
    ensures !(SourceDir(acc) <= EspDestDir(acc)) && !(EspDestDir(acc) <= SourceDir(acc))
  {
    assert SourceDir(acc)[0] != EspDestDir(acc)[0];
  }

  /** The ESP names are the accelerator names of the curation table, in the same order. */
  lemma NamesMatchRegistry()
    ensures |AcceleratorNames| == |ChooseAccFiles.Accelerators|
    ensures forall i :: 0 <= i < |AcceleratorNames| ==> AcceleratorNames[i] == ChooseAccFiles.Accelerators[i].name
  {
  }

  // ---------------------------------------------------------------------------
  // The copy loop
  // ---------------------------------------------------------------------------

  /** Whether the loop ran to its end, the names it copied, and its writes. */
  datatype Copying = Copying(ok: bool, copied: seq<string>, writes: seq<Write>)

  /**
   * The loop over the listing of `src`: every entry that is a regular file is
   * copied to `dest/<name>`; an exception from `copy2` ends the loop.
   */
  function CopyEntries(m: map<Path, Node>, src: Path, dest: Path, names: seq<string>): Copying
    decreases |names|
  {
    if names == [] then Copying(true, [], [])
    else
      var p := src + [names[0]];
      if !IsFileAt(m, p) then CopyEntries(m, src, dest, names[1..])
      else if !CopyOk(m, p, dest + [names[0]]) then Copying(false, [], [])
      else
        var ws := CopyWrites(m, p, dest + [names[0]]);
        var rest := CopyEntries(Apply(m, ws), src, dest, names[1..]);
        Copying(rest.ok, [names[0]] + rest.copied, ws + rest.writes)
  }

  // ---------------------------------------------------------------------------
  // What the copy loop does, stated on the tree it starts from
  // ---------------------------------------------------------------------------

  /** Neither folder lies inside the other. */
  predicate Apart(src: Path, dest: Path) {
    !(src <= dest) && !(dest <= src)
  }

  /** `m'` has the same directories as `m` and the same nodes everywhere inside `src`. */
  ghost predicate SrcAgree(m: map<Path, Node>, m': map<Path, Node>, src: Path) {
    && (forall q :: IsDirAt(m', q) == IsDirAt(m, q))
    && (forall q :: Within(q, src) ==> Lookup(m', q) == Lookup(m, q))
  }

  /** The listed names that are regular files directly inside `src`, in listing order. */
  function RegularFiles(m: map<Path, Node>, src: Path, names: seq<string>): (r: seq<string>)
    ensures forall n :: n in r ==> n in names && IsFileAt(m, src + [n])
    decreases |names|
  {
    if names == [] then []
    else (if IsFileAt(m, src + [names[0]]) then [names[0]] else []) + RegularFiles(m, src, names[1..])
  }

  /** Every listed regular file can be copied by `copy2` into `dest`. */
  predicate AllCopyOk(m: map<Path, Node>, src: Path, dest: Path, names: seq<string>) {
    forall i :: 0 <= i < |names| && IsFileAt(m, src + [names[i]]) ==> CopyOk(m, src + [names[i]], dest + [names[i]])
  }

  /** Where `copy2(src/n, dest/n)` puts its copy: `dest/n`, or `dest/n/n` when `dest/n` is a directory. */
  function Target(m: map<Path, Node>, src: Path, dest: Path, n: string): (t: Path)
    ensures Within(t, dest + [n]) && |dest| < |t| && t[|dest|] == n
  {
    assert Name(src + [n]) == n;
    CopyTarget(m, src + [n], dest + [n])
  }

  /** The one write `copy2(src/n, dest/n)` makes. */
  function PlannedWrite(m: map<Path, Node>, src: Path, dest: Path, n: string): Write
    requires IsFileAt(m, src + [n])
  {
    (Target(m, src, dest, n), File(m[src + [n]].content))
  }

  /** The writes of copying `names` one after the other, each taken from the tree `m`. */
  function CopyPlan(m: map<Path, Node>, src: Path, dest: Path, names: seq<string>): (ws: seq<Write>)
    requires forall n :: n in names ==> IsFileAt(m, src + [n])
    ensures |ws| == |names|
  {
    seq(|names|, i requires 0 <= i < |names| => PlannedWrite(m, src, dest, names[i]))
  }

  /** On trees that agree on directories and on `src`, `copy2` from `src` behaves the same. */
  lemma CopyOkAgree(m: map<Path, Node>, m': map<Path, Node>, src: Path, dest: Path, n: string)
    requires SrcAgree(m, m', src)
    ensures IsFileAt(m', src + [n]) == IsFileAt(m, src + [n])
    ensures IsFileAt(m, src + [n]) ==> m'[src + [n]] == m[src + [n]]
    ensures Target(m', src, dest, n) == Target(m, src, dest, n)
    ensures CopyOk(m', src + [n], dest + [n]) == CopyOk(m, src + [n], dest + [n])
  {
    assert Within(src + [n], src);
    assert Lookup(m', src + [n]) == Lookup(m, src + [n]);
  }

  /** Writing the same node to the same path keeps two agreeing trees agreeing. */
  lemma SrcAgreeWrite(m: map<Path, Node>, m': map<Path, Node>, src: Path, w: Write)
    requires SrcAgree(m, m', src)
    ensures SrcAgree(m[w.0 := w.1], m'[w.0 := w.1], src)
  {
    var a, b := m[w.0 := w.1], m'[w.0 := w.1];
    forall q ensures IsDirAt(b, q) == IsDirAt(a, q) {
      if q != w.0 {
        assert IsDirAt(b, q) == IsDirAt(m', q) && IsDirAt(a, q) == IsDirAt(m, q);
      }
    }
    forall q | Within(q, src) ensures Lookup(b, q) == Lookup(a, q) {
      if q != w.0 {
        assert Lookup(b, q) == Lookup(m', q) && Lookup(a, q) == Lookup(m, q);
      }
    }
  }

  /** The copy loop depends on the tree only through its directories and the contents of `src`. */
  lemma {:induction false} CopyEntriesAgree(m: map<Path, Node>, m': map<Path, Node>, src: Path, dest: Path, names: seq<string>)
    requires SrcAgree(m, m', src)
    ensures CopyEntries(m', src, dest, names) == CopyEntries(m, src, dest, names)
    decreases |names|
  {
    if names != [] {
      var n := names[0];
      CopyOkAgree(m, m', src, dest, n);
      if IsFileAt(m, src + [n]) && CopyOk(m, src + [n], dest + [n]) {
        var ws := CopyWrites(m, src + [n], dest + [n]);
        assert CopyWrites(m', src + [n], dest + [n]) == ws;
        SrcAgreeWrite(m, m', src, ws[0]);
        ApplyOne(m, ws);
        ApplyOne(m', ws);
        CopyEntriesAgree(Apply(m, ws), Apply(m', ws), src, dest, names[1..]);
      } else if !IsFileAt(m, src + [n]) {
        CopyEntriesAgree(m, m', src, dest, names[1..]);
      }
    }
  }

  /** No copy out of `src` lands inside `src` when the folders are apart. */
  lemma TargetOutsideSource(m: map<Path, Node>, src: Path, dest: Path, n: string)
    requires Apart(src, dest)
    ensures !Within(Target(m, src, dest, n), src)
  {
    var t := Target(m, src, dest, n);
    assert dest <= t;
  }

  /** One successful `copy2` out of `src` into a separate folder leaves `src` and every directory as they were. */
  lemma CopyOneAgrees(m: map<Path, Node>, src: Path, dest: Path, n: string)
    requires Apart(src, dest) && IsFileAt(m, src + [n]) && CopyOk(m, src + [n], dest + [n])
    ensures SrcAgree(m, Apply(m, CopyWrites(m, src + [n], dest + [n])), src)
  {
    var t := Target(m, src, dest, n);
    var ws := CopyWrites(m, src + [n], dest + [n]);
    assert ws == [(t, File(m[src + [n]].content))];
    ApplyOne(m, ws);
    var m1 := m[t := File(m[src + [n]].content)];
    TargetOutsideSource(m, src, dest, n);
    forall q ensures IsDirAt(m1, q) == IsDirAt(m, q) {
      if q != t {
        assert IsDirAt(m1, q) == IsDirAt(m, q);
      }
    }
  }

  /** The copy loop, stated on the tree it starts from. */
  lemma {:induction false} CopyEntriesPlan(m: map<Path, Node>, src: Path, dest: Path, names: seq<string>)
    requires Apart(src, dest)
    ensures var c := CopyEntries(m, src, dest, names);
            && (c.ok <==> AllCopyOk(m, src, dest, names))
            && (c.ok ==> c.copied == RegularFiles(m, src, names))
            && (forall n :: n in c.copied ==> n in names && IsFileAt(m, src + [n]) && CopyOk(m, src + [n], dest + [n]))
            && c.writes == CopyPlan(m, src, dest, c.copied)
    decreases |names|
  {
    if names == [] {
      assert CopyPlan(m, src, dest, []) == [];
    } else {
      var n := names[0];
      var p := src + [n];
      var restNames := names[1..];
      assert forall i :: 1 <= i < |names| ==> names[i] == restNames[i - 1];
      assert forall x :: x in restNames ==> x in names;
      if !IsFileAt(m, p) {
        CopyEntriesPlan(m, src, dest, restNames);
        assert AllCopyOk(m, src, dest, names) <==> AllCopyOk(m, src, dest, restNames) by {
          if AllCopyOk(m, src, dest, restNames) {
            forall i | 0 <= i < |names| && IsFileAt(m, src + [names[i]])
              ensures CopyOk(m, src + [names[i]], dest + [names[i]])
            {
              assert i != 0;
              assert names[i] == restNames[i - 1];
            }
          }
        }
      } else if !CopyOk(m, p, dest + [n]) {
        assert CopyPlan(m, src, dest, []) == [];
      } else {
        var ws := CopyWrites(m, p, dest + [n]);
        CopyOneAgrees(m, src, dest, n);
        CopyEntriesAgree(m, Apply(m, ws), src, dest, restNames);
        CopyEntriesPlan(m, src, dest, restNames);
        var rest := CopyEntries(m, src, dest, restNames);
        assert CopyEntries(m, src, dest, names) == Copying(rest.ok, [n] + rest.copied, ws + rest.writes);
        assert ws == [PlannedWrite(m, src, dest, n)];
        PlanCons(m, src, dest, n, rest.copied);
        assert AllCopyOk(m, src, dest, names) <==> AllCopyOk(m, src, dest, restNames) by {
          if AllCopyOk(m, src, dest, restNames) {
            forall i | 0 <= i < |names| && IsFileAt(m, src + [names[i]])
              ensures CopyOk(m, src + [names[i]], dest + [names[i]])
            {
              if i != 0 {
                assert names[i] == restNames[i - 1];
              }
            }
          }
        }
      }
    }
  }

  lemma PlanCons(m: map<Path, Node>, src: Path, dest: Path, n: string, names: seq<string>)
    requires IsFileAt(m, src + [n]) && forall x :: x in names ==> IsFileAt(m, src + [x])
    ensures [PlannedWrite(m, src, dest, n)] + CopyPlan(m, src, dest, names) == CopyPlan(m, src, dest, [n] + names)
  {
    var a := [PlannedWrite(m, src, dest, n)] + CopyPlan(m, src, dest, names);
    var b := CopyPlan(m, src, dest, [n] + names);
    forall i | 0 <= i < |a| ensures a[i] == b[i] {
      if i > 0 {
        assert ([n] + names)[i] == names[i - 1];
      }
    }
  }

  /** The tree after a copy plan: each target holds its source's text, nothing else changes. */
  lemma PlanEffect(m: map<Path, Node>, src: Path, dest: Path, names: seq<string>)
    requires Apart(src, dest)
    requires forall n :: n in names ==> IsFileAt(m, src + [n]) && CopyOk(m, src + [n], dest + [n])
    ensures var after := Apply(m, CopyPlan(m, src, dest, names));
            && (forall n :: n in names ==> Lookup(after, Target(m, src, dest, n)) == Some(File(m[src + [n]].content)))
            && (forall q :: (forall n :: n in names ==> q != Target(m, src, dest, n)) ==> Lookup(after, q) == Lookup(m, q))
            && SrcAgree(m, after, src)
  {
    var ws := CopyPlan(m, src, dest, names);
    var after := Apply(m, ws);
    forall n | n in names ensures Lookup(after, Target(m, src, dest, n)) == Some(File(m[src + [n]].content)) {
      var t := Target(m, src, dest, n);
      var k :| 0 <= k < |names| && names[k] == n;
      assert ws[k].0 == t;
      forall i | 0 <= i < |ws| && ws[i].0 == t ensures ws[i].1 == File(m[src + [n]].content) {
        assert Target(m, src, dest, names[i])[|dest|] == names[i];
      }
      ApplyUniform(m, ws, t, File(m[src + [n]].content));
    }
    forall q | (forall n :: n in names ==> q != Target(m, src, dest, n)) ensures Lookup(after, q) == Lookup(m, q) {
      assert !Writes(ws, q) by {
        forall i | 0 <= i < |ws| ensures ws[i].0 != q {
          assert names[i] in names;
        }
      }
      ApplyOutside(m, ws, q);
    }
    forall q ensures IsDirAt(after, q) == IsDirAt(m, q) {
      if k :| 0 <= k < |names| && q == Target(m, src, dest, names[k]) {
        assert names[k] in names;
        assert !IsDirAt(m, q);
      } else {
        assert Lookup(after, q) == Lookup(m, q);
      }
    }
    forall q | Within(q, src) ensures Lookup(after, q) == Lookup(m, q) {
      forall n | n in names ensures q != Target(m, src, dest, n) {
        TargetOutsideSource(m, src, dest, n);
      }
    }
  }

  /** What `copy_to_esp(acc)` reports. */
  datatype EspOutcome =
    | NoSource          // warned, nothing done
    | NoDestination     // warned, nothing done
    | Crashed           // `iterdir` or `copy2` raised
    | Done

  datatype EspRun = EspRun(outcome: EspOutcome, copied: seq<string>, writes: seq<Write>)

  function CopyToEspEffect(m: map<Path, Node>, acc: string, listingOf: Path -> seq<string>): EspRun {
    var src := SourceDir(acc);
    var dest := EspDestDir(acc);
    if src !in m then EspRun(NoSource, [], [])
    else if dest !in m then EspRun(NoDestination, [], [])
    else if IsFileAt(m, src) then EspRun(Crashed, [], [])
    else
      var c := CopyEntries(m, src, dest, listingOf(src));
      EspRun(if c.ok then Done else Crashed, c.copied, c.writes)
  }

  /**
   * `copy_to_esp(acc)` on the tree `m`: it warns and does nothing when either
   * folder is missing; it finishes exactly when the source is a directory and
   * every listed regular file can be copied; each copied file's text then sits
   * at its target, and nothing but those targets changes (in particular no
   * directory and nothing inside the source folder).
   */
  lemma CopyToEspResult(m: map<Path, Node>, acc: string, listingOf: Path -> seq<string>)
    ensures var r := CopyToEspEffect(m, acc, listingOf);
            var src := SourceDir(acc);
            var dest := EspDestDir(acc);
            var after := Apply(m, r.writes);
            && (r.outcome == NoSource <==> src !in m)
            && (r.outcome == NoDestination <==> src in m && dest !in m)
            && (r.outcome == Done <==> src in m && dest in m && IsDirAt(m, src) && AllCopyOk(m, src, dest, listingOf(src)))
            && (r.outcome.NoSource? || r.outcome.NoDestination? ==> r.writes == [])
            && (r.outcome == Done ==> r.copied == RegularFiles(m, src, listingOf(src)))
            && (forall n :: n in r.copied ==>
                  && n in listingOf(src)
                  && IsFileAt(m, src + [n])
                  && Lookup(after, Target(m, src, dest, n)) == Some(File(m[src + [n]].content)))
            && (forall q :: (forall n :: n in r.copied ==> q != Target(m, src, dest, n)) ==> Lookup(after, q) == Lookup(m, q))
            && SrcAgree(m, after, src)
  {
    var src := SourceDir(acc);
    var dest := EspDestDir(acc);
    if src in m && dest in m && !IsFileAt(m, src) {
      FoldersApart(acc);
      CopyEntriesPlan(m, src, dest, listingOf(src));
      PlanEffect(m, src, dest, CopyEntries(m, src, dest, listingOf(src)).copied);
    }
  }

  /** Running `copy_to_esp(acc)` a second time does the same again and leaves the tree as the first run left it. */
  lemma CopyToEspTwice(m: map<Path, Node>, acc: string, listingOf: Path -> seq<string>)
    ensures var r := CopyToEspEffect(m, acc, listingOf);
            var after := Apply(m, r.writes);
            && CopyToEspEffect(after, acc, listingOf) == r
            && Apply(after, r.writes) == after
  {
    var r := CopyToEspEffect(m, acc, listingOf);
    var after := Apply(m, r.writes);
    var src := SourceDir(acc);
    var dest := EspDestDir(acc);
    CopyToEspResult(m, acc, listingOf);
    if src in m && dest in m && !IsFileAt(m, src) {
      assert Lookup(after, src) == Lookup(m, src) by {
        assert Within(src, src);
      }
      assert Lookup(after, dest) == Lookup(m, dest) by {
        forall n | n in r.copied ensures dest != Target(m, src, dest, n) {
        }
      }
      CopyEntriesAgree(m, after, src, dest, listingOf(src));
    } else {
      assert r.writes == [];
    }
    ApplyTwice(m, r.writes);
  }

  /** The loop of `copy_to_esp` over `src_dir.iterdir()`. */
  method CopyListed(fs: FileSystem, src: Path, dest: Path, names: seq<string>)
    returns (ok: bool, copied: seq<string>)
    requires fs.Valid()
    modifies fs
    ensures fs.Valid()
    ensures var c := CopyEntries(old(fs.nodes), src, dest, names);
            ok == c.ok && copied == c.copied && fs.nodes == Apply(old(fs.nodes), c.writes)
  {
    ghost var m0 := fs.nodes;
    ghost var done: seq<Write> := [];
    copied := [];
    var i := 0;
    while i < |names|
      invariant 0 <= i <= |names|
      invariant fs.Valid()
      invariant fs.nodes == Apply(m0, done)
      invariant CopyEntries(m0, src, dest, names) == Joined(copied, done, CopyEntries(fs.nodes, src, dest, names[i..]))
    {
      assert names[i..][0] == names[i] && names[i..][1..] == names[i + 1..];
      ghost var before := fs.nodes;
      CopyEntriesFirst(before, src, dest, names[i..]);
      var isFile := fs.IsFile(src + [names[i]]);
      if isFile {
        var copiedOne := fs.Copy2(src + [names[i]], dest + [names[i]]);
        ghost var ws := CopyWrites(before, src + [names[i]], dest + [names[i]]);
        if !copiedOne {
          assert copied + [] == copied && done + [] == done;
          return false, copied;
        }
        ApplyAppend(m0, done, ws);
        JoinedTwice(copied, done, [names[i]], ws, CopyEntries(fs.nodes, src, dest, names[i + 1..]));
        done := done + ws;
        copied := copied + [names[i]];
      }
      i := i + 1;
    }
    assert copied + [] == copied && done + [] == done;
    return true, copied;
  }

  /** A loop with `copied` and `done` behind it and `rest` still ahead. */
  function Joined(copied: seq<string>, done: seq<Write>, rest: Copying): Copying {
    Copying(rest.ok, copied + rest.copied, done + rest.writes)
  }

  lemma JoinedTwice(copied: seq<string>, done: seq<Write>, more: seq<string>, moreDone: seq<Write>, rest: Copying)
    ensures Joined(copied, done, Joined(more, moreDone, rest)) == Joined(copied + more, done + moreDone, rest)
  {
    assert copied + (more + rest.copied) == (copied + more) + rest.copied;
    assert done + (moreDone + rest.writes) == (done + moreDone) + rest.writes;
  }

  /** One pass of the copy loop. */
  lemma CopyEntriesFirst(m: map<Path, Node>, src: Path, dest: Path, names: seq<string>)
    requires names != []
    ensures var p := src + [names[0]];
            CopyEntries(m, src, dest, names) ==
              if !IsFileAt(m, p) then CopyEntries(m, src, dest, names[1..])
              else if !CopyOk(m, p, dest + [names[0]]) then Copying(false, [], [])
              else
                var ws := CopyWrites(m, p, dest + [names[0]]);
                Joined([names[0]], ws, CopyEntries(Apply(m, ws), src, dest, names[1..]))
  {
  }

  /** `copy_to_esp(acc)`: two guards, then the copy loop. */
  method CopyToEsp(fs: FileSystem, acc: string, listingOf: Path -> seq<string>)
    returns (outcome: EspOutcome, copied: seq<string>)
    requires fs.Valid()
    modifies fs
    ensures fs.Valid()
    ensures var r := CopyToEspEffect(old(fs.nodes), acc, listingOf);
            outcome == r.outcome && copied == r.copied && fs.nodes == Apply(old(fs.nodes), r.writes)
  {
    var src := SourceDir(acc);
    var found := fs.Exists(src);
    if !found {
      return NoSource, [];
    }
    var dest := EspDestDir(acc);
    var destFound := fs.Exists(dest);
    if !destFound {
      return NoDestination, [];
    }
    var srcIsFile := fs.IsFile(src);
    if srcIsFile {
      return Crashed, [];
    }
    var ok;
    ok, copied := CopyListed(fs, src, dest, listingOf(src));
    outcome := if ok then Done else Crashed;
  }

  // ---------------------------------------------------------------------------
  // main
  // ---------------------------------------------------------------------------

  /** `main`: `copy_to_esp` for each name in order, until one raises. */
  function EspMain(m: map<Path, Node>, accs: seq<string>, listingOf: Path -> seq<string>): seq<EspRun>
    decreases |accs|
  {
    if accs == [] then []
    else
      var r := CopyToEspEffect(m, accs[0], listingOf);
      if r.outcome == Crashed then [r]
      else [r] + EspMain(Apply(m, r.writes), accs[1..], listingOf)
  }

  /** The writes of the runs, one after the other. */
  function AllWrites(runs: seq<EspRun>): seq<Write> {
    if runs == [] then [] else runs[0].writes + AllWrites(runs[1..])
  }

  lemma AllWritesAppend(a: seq<EspRun>, b: seq<EspRun>)
    ensures AllWrites(a + b) == AllWrites(a) + AllWrites(b)
  {
    if a == [] {
      assert a + b == b;
    } else {
      assert (a + b)[1..] == a[1..] + b;
      AllWritesAppend(a[1..], b);
    }
  }

  /** One pass of the loop of `main`. */
  lemma EspMainFirst(m: map<Path, Node>, accs: seq<string>, listingOf: Path -> seq<string>)
    requires accs != []
    ensures var r := CopyToEspEffect(m, accs[0], listingOf);
            EspMain(m, accs, listingOf) ==
              if r.outcome == Crashed then [r] else [r] + EspMain(Apply(m, r.writes), accs[1..], listingOf)
  {
  }

  /** The tree after one more run. */
  lemma ApplyOneMore(m: map<Path, Node>, runs: seq<EspRun>, r: EspRun)
    ensures Apply(m, AllWrites(runs + [r])) == Apply(Apply(m, AllWrites(runs)), r.writes)
  {
    AllWritesAppend(runs, [r]);
    assert AllWrites([r]) == r.writes + AllWrites([]);
    assert r.writes + [] == r.writes;
    ApplyAppend(m, AllWrites(runs), r.writes);
  }

  /** `m'` has the directories of `m` and agrees with it outside the ESP tree. */
  ghost predicate EspAgree(m: map<Path, Node>, m': map<Path, Node>) {
    && (forall q :: IsDirAt(m', q) == IsDirAt(m, q))
    && (forall q :: !Within(q, EspRoot) ==> Lookup(m', q) == Lookup(m, q))
  }

  /** One `copy_to_esp` writes only inside its destination folder and creates no directory. */
  lemma CopyToEspStaysInDestination(m: map<Path, Node>, acc: string, listingOf: Path -> seq<string>)
    ensures var after := Apply(m, CopyToEspEffect(m, acc, listingOf).writes);
            && (forall q :: !Within(q, EspDestDir(acc)) ==> Lookup(after, q) == Lookup(m, q))
            && EspAgree(m, after)
  {
    var r := CopyToEspEffect(m, acc, listingOf);
    var src := SourceDir(acc);
    var dest := EspDestDir(acc);
    CopyToEspResult(m, acc, listingOf);
    forall q | !Within(q, dest) ensures Lookup(Apply(m, r.writes), q) == Lookup(m, q) {
      forall n | n in r.copied ensures q != Target(m, src, dest, n) {
      }
    }
  }

  /** `main` creates no directory and changes nothing outside `esp/accelerators/rtl`, the curated folders included. */
  lemma {:induction false} EspMainStaysInEsp(m: map<Path, Node>, accs: seq<string>, listingOf: Path -> seq<string>)
    ensures EspAgree(m, Apply(m, AllWrites(EspMain(m, accs, listingOf))))
    decreases |accs|
  {
    var runs := EspMain(m, accs, listingOf);
    if accs == [] {
      assert AllWrites(runs) == [];
    } else {
      var r := CopyToEspEffect(m, accs[0], listingOf);
      var m1 := Apply(m, r.writes);
      CopyToEspStaysInDestination(m, accs[0], listingOf);
      var rest := if r.outcome == Crashed then [] else EspMain(m1, accs[1..], listingOf);
      assert runs == [r] + rest;
      assert ([r] + rest)[1..] == rest;
      assert AllWrites(runs) == r.writes + AllWrites(rest);
      ApplyAppend(m, r.writes, AllWrites(rest));
      if r.outcome == Crashed {
        assert AllWrites(rest) == [];
      } else {
        EspMainStaysInEsp(m1, accs[1..], listingOf);
      }
    }
  }

  /**
   * `main` runs `copy_to_esp` on the names in order until one raises: a
   * missing folder does not stop it, an exception does, and only the last
   * run can be the one that raised.
   */
  lemma {:induction false} EspMainShape(m: map<Path, Node>, accs: seq<string>, listingOf: Path -> seq<string>)
    ensures var runs := EspMain(m, accs, listingOf);
            && |runs| <= |accs|
            && (|runs| < |accs| ==> runs != [] && runs[|runs| - 1].outcome == Crashed)
            && (forall k :: 0 <= k < |runs| - 1 ==> runs[k].outcome != Crashed)
    decreases |accs|
  {
    if accs != [] {
      EspMainFirst(m, accs, listingOf);
      var r := CopyToEspEffect(m, accs[0], listingOf);
      if r.outcome != Crashed {
        var rest := EspMain(Apply(m, r.writes), accs[1..], listingOf);
        EspMainShape(Apply(m, r.writes), accs[1..], listingOf);
        RunsCons(r, rest);
      }
    }
  }

  lemma RunsCons(r: EspRun, rest: seq<EspRun>)
    requires r.outcome != Crashed
    requires forall k :: 0 <= k < |rest| - 1 ==> rest[k].outcome != Crashed
    ensures forall k :: 0 <= k < |[r] + rest| - 1 ==> ([r] + rest)[k].outcome != Crashed
    ensures rest != [] ==> ([r] + rest)[|rest|] == rest[|rest| - 1]
  {
    forall k | 0 <= k < |[r] + rest| - 1 ensures ([r] + rest)[k].outcome != Crashed {
      if k > 0 {
        assert ([r] + rest)[k] == rest[k - 1];
      }
    }
  }

  /** Run `k` of `main` is `copy_to_esp(accs[k])` on the tree the runs before it left. */
  lemma {:induction false} EspMainRuns(m: map<Path, Node>, accs: seq<string>, listingOf: Path -> seq<string>)
    ensures var runs := EspMain(m, accs, listingOf);
            && |runs| <= |accs|
            && forall k :: 0 <= k < |runs| ==> runs[k] == CopyToEspEffect(Apply(m, AllWrites(runs[..k])), accs[k], listingOf)
    decreases |accs|
  {
    if accs != [] {
      var runs := EspMain(m, accs, listingOf);
      EspMainFirst(m, accs, listingOf);
      var r := CopyToEspEffect(m, accs[0], listingOf);
      assert runs[..0] == [] && AllWrites([]) == [];
      if r.outcome != Crashed {
        var m1 := Apply(m, r.writes);
        var rest := EspMain(m1, accs[1..], listingOf);
        EspMainRuns(m1, accs[1..], listingOf);
        assert runs == [r] + rest;
        forall k | 1 <= k < |runs|
          ensures runs[k] == CopyToEspEffect(Apply(m, AllWrites(runs[..k])), accs[k], listingOf)
        {
          ShiftRun(m, r, rest, k);
          assert runs[k] == rest[k - 1] && accs[k] == accs[1..][k - 1];
        }
      }
    }
  }

  /** The tree before run `k` of `[r] + rest` is the tree before run `k - 1` of `rest`, started after `r`. */
  lemma ShiftRun(m: map<Path, Node>, r: EspRun, rest: seq<EspRun>, k: nat)
    requires 1 <= k <= |rest| + 1
    ensures Apply(m, AllWrites(([r] + rest)[..k])) == Apply(Apply(m, r.writes), AllWrites(rest[..k - 1]))
  {
    var runs := [r] + rest;
    assert runs[..k] == [r] + rest[..k - 1];
    assert ([r] + rest[..k - 1])[1..] == rest[..k - 1];
    assert AllWrites(runs[..k]) == r.writes + AllWrites(rest[..k - 1]);
    ApplyAppend(m, r.writes, AllWrites(rest[..k - 1]));
  }

  /** The loop invariant of `main` carried over one more name. */
  lemma EspStep(m0: map<Path, Node>, accs: seq<string>, i: nat, runs: seq<EspRun>, before: map<Path, Node>, r: EspRun, listingOf: Path -> seq<string>)
    requires i < |accs| && EspMain(m0, accs, listingOf) == runs + EspMain(before, accs[i..], listingOf)
    requires r == CopyToEspEffect(before, accs[i], listingOf)
    ensures r.outcome == Crashed ==> EspMain(m0, accs, listingOf) == (runs + [r]) + []
    ensures r.outcome != Crashed ==> EspMain(m0, accs, listingOf) == (runs + [r]) + EspMain(Apply(before, r.writes), accs[i + 1..], listingOf)
  {
    var rest := accs[i..];
    assert rest[0] == accs[i] && rest[1..] == accs[i + 1..];
    EspMainFirst(before, rest, listingOf);
    if r.outcome == Crashed {
      MovedAcross(EspMain(m0, accs, listingOf), runs, r, []);
    } else {
      MovedAcross(EspMain(m0, accs, listingOf), runs, r, EspMain(Apply(before, r.writes), accs[i + 1..], listingOf));
    }
  }

  lemma MovedAcross(whole: seq<EspRun>, runs: seq<EspRun>, r: EspRun, later: seq<EspRun>)
    requires whole == runs + ([r] + later)
    ensures whole == (runs + [r]) + later
  {
  }

  /**
   * One pass of the loop of `main()`: `copy_to_esp` on the `i`-th name, seen
   * as the next run of `EspMain`.
   */
  method CopyNext(fs: FileSystem, accs: seq<string>, i: nat, listingOf: Path -> seq<string>, ghost m0: map<Path, Node>, ghost runs: seq<EspRun>)
    returns (outcome: EspOutcome, ghost runs': seq<EspRun>)
    requires fs.Valid() && i < |accs|
    requires fs.nodes == Apply(m0, AllWrites(runs))
    requires EspMain(m0, accs, listingOf) == runs + EspMain(fs.nodes, accs[i..], listingOf)
    modifies fs
    ensures fs.Valid()
    ensures |runs'| == |runs| + 1 && runs' == runs + [runs'[|runs|]] && runs'[|runs|].outcome == outcome
    ensures fs.nodes == Apply(m0, AllWrites(runs'))
    ensures outcome == Crashed ==> EspMain(m0, accs, listingOf) == runs' + []
    ensures outcome != Crashed ==> EspMain(m0, accs, listingOf) == runs' + EspMain(fs.nodes, accs[i + 1..], listingOf)
  {
    ghost var before := fs.nodes;
    var copied;
    outcome, copied := CopyToEsp(fs, accs[i], listingOf);
    ghost var r := CopyToEspEffect(before, accs[i], listingOf);
    EspStep(m0, accs, i, runs, before, r, listingOf);
    ApplyOneMore(m0, runs, r);
    runs' := runs + [r];
  }

  /** `main()` over `accs` (the eight names of `AcceleratorNames`). */
  method CopyAllToEsp(fs: FileSystem, accs: seq<string>, listingOf: Path -> seq<string>)
    returns (outcomes: seq<EspOutcome>)
    requires fs.Valid()
    modifies fs
    ensures fs.Valid()
    ensures var runs := EspMain(old(fs.nodes), accs, listingOf);
            && |outcomes| == |runs|
            && (forall i :: 0 <= i < |runs| ==> outcomes[i] == runs[i].outcome)
            && fs.nodes == Apply(old(fs.nodes), AllWrites(runs))
  {
    ghost var m0 := fs.nodes;
    ghost var runs: seq<EspRun> := [];
    outcomes := [];
    var i := 0;
    while i < |accs|
      invariant 0 <= i <= |accs|
      invariant fs.Valid()
      invariant |outcomes| == |runs|
      invariant forall k :: 0 <= k < |runs| ==> outcomes[k] == runs[k].outcome
      invariant fs.nodes == Apply(m0, AllWrites(runs))
      invariant EspMain(m0, accs, listingOf) == runs + EspMain(fs.nodes, accs[i..], listingOf)
    {
      var outcome;
      outcome, runs := CopyNext(fs, accs, i, listingOf, m0, runs);
      outcomes := outcomes + [outcome];
      if outcome == Crashed {
        assert runs + [] == runs;
        return;
      }
      i := i + 1;
    }
    assert runs + [] == runs;
  }

  /**
   * `main()` as the script runs it, over the eight accelerators of
   * `AcceleratorNames`: at most one outcome per accelerator, and nothing
   * outside the ESP tree changes.
   */
  method CopyAllAccelerators(fs: FileSystem, listingOf: Path -> seq<string>)
    returns (outcomes: seq<EspOutcome>)
    requires fs.Valid()
    modifies fs
    ensures fs.Valid()
    ensures var runs := EspMain(old(fs.nodes), AcceleratorNames, listingOf);
            && |outcomes| == |runs| <= |AcceleratorNames|
            && (forall i :: 0 <= i < |runs| ==> outcomes[i] == runs[i].outcome)
            && fs.nodes == Apply(old(fs.nodes), AllWrites(runs))
    ensures EspAgree(old(fs.nodes), fs.nodes)
  {
    EspMainRuns(fs.nodes, AcceleratorNames, listingOf);
    EspMainStaysInEsp(fs.nodes, AcceleratorNames, listingOf);
    outcomes := CopyAllToEsp(fs, AcceleratorNames, listingOf);
  }
}
