/**
 * The curator: for every accelerator of a fixed table, look up each of its
 * files (case-insensitively, first match in traversal order) under the RTL
 * dump, and copy every hit into `selected_accelerator_files/<accelerator>/`.
 *
 * The traversal order of `rglob` is an input, `walkOf(root)`: the sequence of
 * paths the walk of `root` yields. The dump is never written by the curator,
 * so the same `walkOf` serves the whole run.
 */
module ChooseAccFiles {
  import opened Wrappers
  import opened Text
  import opened FsModel

  // ---------------------------------------------------------------------------
  // Configuration
  // ---------------------------------------------------------------------------

  /** One entry of the accelerator table; `searchHint` is `None` when the key is absent. */
  datatype AccSpec = AccSpec(name: string, files: seq<string>, searchHint: Option<string>)

  /** Where the full RTL dump lives. */
  const BaseRtlRoot: Path := ["rtl_repos"]

  /** Where the curated per-accelerator folders go. */
  const DestRoot: Path := ["selected_accelerator_files"]

  const Accelerators: seq<AccSpec> := [
    AccSpec("aescipher",
      ["aescipher.v", "cipherTest.v", "keyExpansion.v", "sBox.v",
       "shiftRow.v", "mixColumn.v", "roundlast.v", "rounds.v",
       "subBytes.v"],
      Some("Abhishake567/Verilog-Implementation-of-AES-256-algorithm/Encryption")),
    AccSpec("aesdecipher_v2",
      ["aesCipher.v", "inverseLastRound.v", "inverseMixColumn.v",
       "inverseRounds.v", "inverseSbox.v", "inverseShiftRow.v",
       "inverseSubByte.v", "keyExpansion.v", "mixColumnHelper.v",
       "sBox.v"],
      Some("Abhishake567/Verilog-Implementation-of-AES-256-algorithm/Decryption")),
    AccSpec("conv_new", ["conv_new.v"], Some("")),
    AccSpec("fcdnn_acc",
      ["CoreCover.v", "Core.v", "FloatingPointAdder.v", "FloatingPointMultiplier.v",
       "FPExpAdder.v", "FPExpMultiplier.v", "FPNormal.v", "FPShiftNormal.v",
       "FPSubAdder.v", "MUX_2.v", "MUX_3.v", "MUX_4.v", "PipeReg.v",
       "SelectableExtendablePipeReg.v", "ShiftLeft.v", "ShiftRight.v", "SReg.v"],
      Some("")),
    AccSpec("fft_64",
      ["adder.v", "complex_multiplier.v", "fft_64.v", "FFT_block.v",
       "memory.v", "twiddle_factors.v"],
      Some("")),
    AccSpec("sha256", ["sha256.v", "sha256_w_mem.v"], Some("")),
    AccSpec("simple_dnn", ["appro_func.v", "dnn_soc.v", "relu.v", "simple_dnn.v"], Some("")),
    AccSpec("sobel_v2", ["SobelFilter.v"], Some(""))
  ]

  /**
   * Every entry lists at least one file, the names are pairwise distinct and
   * each name is a single path segment, so every accelerator gets a folder of
   * its own directly under the destination root.
   */
  lemma RegistryShape()
    ensures |Accelerators| == 8
    ensures forall i :: 0 <= i < |Accelerators| ==> Accelerators[i].files != []
    ensures forall i, j :: 0 <= i < j < |Accelerators| ==> Accelerators[i].name != Accelerators[j].name
    ensures forall i :: 0 <= i < |Accelerators| ==> IsSegment(Accelerators[i].name)
  {
    NamesDistinct();
    NamesAreSegments();
  }

  lemma NamesDistinct()
    ensures forall i, j :: 0 <= i < j < |Accelerators| ==> Accelerators[i].name != Accelerators[j].name
  {
    // No two names share both their length and their first letter.
    forall i, j | 0 <= i < j < |Accelerators| ensures Accelerators[i].name != Accelerators[j].name {
      assert |Accelerators[i].name| != |Accelerators[j].name| || Accelerators[i].name[0] != Accelerators[j].name[0];
    }
  }

  lemma NamesAreSegments()
    ensures forall i :: 0 <= i < |Accelerators| ==> IsSegment(Accelerators[i].name)
  {
  }

  /** `acc.get("search_hint", "")`. */
  function SubHint(acc: AccSpec): (hint: string)
    ensures acc.searchHint.Some? ==> hint == acc.searchHint.value
    ensures acc.searchHint.None? ==> hint == ""
  {
    acc.searchHint.GetOr("")
  }

  /** `BASE_RTL_ROOT / hint` for a non-empty hint, `BASE_RTL_ROOT` otherwise. */
  function SearchRoot(hint: string): (root: Path)
    ensures Within(root, BaseRtlRoot)
    ensures hint == "" ==> root == BaseRtlRoot
    ensures hint != "" ==> root[|BaseRtlRoot|..] == ParsePath(hint)
  {
    if hint != "" then BaseRtlRoot + ParsePath(hint) else BaseRtlRoot
  }

  /** `DEST_ROOT / name`. */
  function DestDir(name: string): (dir: Path)
    ensures Within(dir, DestRoot)
  {
    DestRoot + ParsePath(name)
  }

  /** A segment name gets the folder `DEST_ROOT/<name>`, two levels deep. */
  lemma DestDirOfSegment(name: string)
    requires IsSegment(name)
    ensures DestDir(name) == DestRoot + [name] && |DestDir(name)| == 2
  {
    ParseSegment(name);
  }

  // ---------------------------------------------------------------------------
  // find_file
  // ---------------------------------------------------------------------------

  /** A walked path that `find_file` accepts: a regular file whose lower-cased name is `lower`. */
  predicate IsHit(m: map<Path, Node>, q: Path, lower: string) {
    IsFileAt(m, q) && Lower(Name(q)) == lower
  }

  /** The first hit of the walk, if any. */
  function FirstHit(m: map<Path, Node>, walk: seq<Path>, lower: string): (r: Option<Path>)
    ensures r.Some? ==> IsHit(m, r.value, lower) && r.value in walk
  {
    if walk == [] then None
    else if IsHit(m, walk[0], lower) then Some(walk[0])
    else FirstHit(m, walk[1..], lower)
  }

  /**
   * `find_file` yields `None` exactly when no walked path is a hit (a
   * directory with the right name is not one), and otherwise the hit at the
   * smallest index of the walk.
   */
  lemma {:induction false} FirstHitIsFirst(m: map<Path, Node>, walk: seq<Path>, lower: string)
    ensures FirstHit(m, walk, lower) == None <==> forall i :: 0 <= i < |walk| ==> !IsHit(m, walk[i], lower)
    ensures forall i :: 0 <= i < |walk| && IsHit(m, walk[i], lower) && (forall j :: 0 <= j < i ==> !IsHit(m, walk[j], lower)) ==>
              FirstHit(m, walk, lower) == Some(walk[i])
    ensures FirstHit(m, walk, lower).Some? ==>
              exists i :: 0 <= i < |walk| && walk[i] == FirstHit(m, walk, lower).value &&
                forall j :: 0 <= j < i ==> !IsHit(m, walk[j], lower)
  {
    if walk != [] {
      FirstHitIsFirst(m, walk[1..], lower);
      if !IsHit(m, walk[0], lower) {
        forall i | 1 <= i < |walk| ensures walk[1..][i - 1] == walk[i] { }
        if FirstHit(m, walk, lower).Some? {
          var i :| 0 <= i < |walk[1..]| && walk[1..][i] == FirstHit(m, walk, lower).value &&
                   forall j :: 0 <= j < i ==> !IsHit(m, walk[1..][j], lower);
          assert forall j :: 0 <= j < i + 1 ==> !IsHit(m, walk[j], lower) by {
            forall j | 1 <= j < i + 1 ensures !IsHit(m, walk[j], lower) {
              assert walk[1..][j - 1] == walk[j];
            }
          }
        }
      }
    }
  }

  /** `find_file(start_dir, filename)`: an early-return loop over the walk of `start_dir`. */
  method FindFile(fs: FileSystem, startDir: Path, filename: string, walkOf: Path -> seq<Path>)
    returns (r: Option<Path>)
    ensures r == FirstHit(fs.nodes, walkOf(startDir), Lower(filename))
  {
    var lower := Lower(filename);
    var walk := walkOf(startDir);
    var i := 0;
    while i < |walk|
      invariant 0 <= i <= |walk|
      invariant FirstHit(fs.nodes, walk, lower) == FirstHit(fs.nodes, walk[i..], lower)
    {
      assert walk[i..][1..] == walk[i + 1..];
      var isFile := fs.IsFile(walk[i]);
      if isFile && Lower(Name(walk[i])) == lower {
        return Some(walk[i]);
      }
      i := i + 1;
    }
    return None;
  }

  // ---------------------------------------------------------------------------
  // move_file
  // ---------------------------------------------------------------------------

  /** Whether a step ran to its end, and the writes it made before it ended or raised. */
  datatype Step = Step(ok: bool, writes: seq<Write>)

  /** `dest_dir.mkdir(parents=True, exist_ok=True)`, then `shutil.copy2(src, dest_dir / src.name)`. */
  function MoveFileEffect(m: map<Path, Node>, src: Path, destDir: Path): Step {
    if !MakeDirsOk(m, destDir) then Step(false, [])
    else
      var m1 := Apply(m, DirWrites(destDir));
      var dest := destDir + [Name(src)];
      if !CopyOk(m1, src, dest) then Step(false, DirWrites(destDir))
      else Step(true, DirWrites(destDir) + CopyWrites(m1, src, dest))
  }

  method MoveFile(fs: FileSystem, src: Path, destDir: Path) returns (ok: bool)
    requires fs.Valid()
    modifies fs
    ensures fs.Valid()
    ensures ok == MoveFileEffect(old(fs.nodes), src, destDir).ok
    ensures fs.nodes == Apply(old(fs.nodes), MoveFileEffect(old(fs.nodes), src, destDir).writes)
  {
    ghost var m0 := fs.nodes;
    var made := fs.MakeDirs(destDir);
    if !made {
      return false;
    }
    ghost var m1 := fs.nodes;
    var dest := destDir + [Name(src)];
    ok := fs.Copy2(src, dest);
    if ok {
      ApplyAppend(m0, DirWrites(destDir), CopyWrites(m1, src, dest));
    }
  }

  // ---------------------------------------------------------------------------
  // process_accelerator and main
  // ---------------------------------------------------------------------------

  /** One requested file of one accelerator, with where it is searched and where it goes. */
  datatype Task = Task(acc: string, file: string, searchRoot: Path, destDir: Path)

  /** The files of `acc`, in table order. */
  function AccTasks(acc: AccSpec): (ts: seq<Task>)
    ensures |ts| == |acc.files|
    ensures forall i :: 0 <= i < |ts| ==>
              ts[i] == Task(acc.name, acc.files[i], SearchRoot(SubHint(acc)), DestDir(acc.name))
  {
    seq(|acc.files|, i requires 0 <= i < |acc.files| =>
      Task(acc.name, acc.files[i], SearchRoot(SubHint(acc)), DestDir(acc.name)))
  }

  /** The files of all accelerators, accelerator after accelerator. */
  function AllTasks(accs: seq<AccSpec>): seq<Task> {
    if accs == [] then [] else AccTasks(accs[0]) + AllTasks(accs[1..])
  }

  /** `[WARN] Missing <file>` or `[OK] <src> → <dest>`. */
  datatype Report = Missing(task: Task) | Copied(task: Task, src: Path)

  /** The reports of a run, whether an exception ended it, and the writes it made. */
  datatype Outcome = Outcome(reports: seq<Report>, crashed: bool, writes: seq<Write>)

  /** What one file of one accelerator leads to: its report, whether no exception ended it, and its writes. */
  datatype TaskResult = TaskResult(report: Report, ok: bool, writes: seq<Write>)

  /** The body of the loop of `process_accelerator`: `find_file`, then a warning or `move_file`. */
  function RunTask(m: map<Path, Node>, t: Task, walkOf: Path -> seq<Path>): TaskResult {
    match FirstHit(m, walkOf(t.searchRoot), Lower(t.file))
    case None => TaskResult(Missing(t), true, [])
    case Some(src) =>
      var step := MoveFileEffect(m, src, t.destDir);
      TaskResult(Copied(t, src), step.ok, step.writes)
  }

  /** A run over `tasks` from the tree `m`; an exception in `move_file` ends it. */
  function RunTasks(m: map<Path, Node>, tasks: seq<Task>, walkOf: Path -> seq<Path>): Outcome
    decreases |tasks|
  {
    if tasks == [] then Outcome([], false, [])
    else
      var r := RunTask(m, tasks[0], walkOf);
      if !r.ok then Outcome([], true, r.writes)
      else
        var rest := RunTasks(Apply(m, r.writes), tasks[1..], walkOf);
        Outcome([r.report] + rest.reports, rest.crashed, r.writes + rest.writes)
  }

  /** The run of `b` after the run `first`, unless `first` ended with an exception. */
  function Then(m: map<Path, Node>, first: Outcome, b: seq<Task>, walkOf: Path -> seq<Path>): Outcome {
    if first.crashed then first
    else
      var rest := RunTasks(Apply(m, first.writes), b, walkOf);
      Outcome(first.reports + rest.reports, rest.crashed, first.writes + rest.writes)
  }

  /** Running `a + b` is running `a`, then `b` from where `a` left the tree. */
  lemma {:induction false} RunTasksAppend(m: map<Path, Node>, a: seq<Task>, b: seq<Task>, walkOf: Path -> seq<Path>)
    ensures RunTasks(m, a + b, walkOf) == Then(m, RunTasks(m, a, walkOf), b, walkOf)
    decreases |a|
  {
    if a == [] {
      assert a + b == b;
    } else {
      assert (a + b)[0] == a[0];
      assert (a + b)[1..] == a[1..] + b;
      RunTasksFirst(m, a + b, walkOf);
      RunTasksFirst(m, a, walkOf);
      var r := RunTask(m, a[0], walkOf);
      if r.ok {
        var m1 := Apply(m, r.writes);
        RunTasksAppend(m1, a[1..], b, walkOf);
        ThenPrefixed(m, r.report, r.writes, RunTasks(m1, a[1..], walkOf), b, walkOf);
      }
    }
  }

  /** Prefixing one finished task commutes with running more tasks after the run. */
  lemma ThenPrefixed(m: map<Path, Node>, report: Report, ws: seq<Write>, first: Outcome, b: seq<Task>, walkOf: Path -> seq<Path>)
    ensures Prefixed([report], ws, Then(Apply(m, ws), first, b, walkOf)) == Then(m, Prefixed([report], ws, first), b, walkOf)
  {
    if !first.crashed {
      ApplyAppend(m, ws, first.writes);
      var rb := RunTasks(Apply(m, ws + first.writes), b, walkOf);
      assert Then(Apply(m, ws), first, b, walkOf) == Prefixed(first.reports, first.writes, rb);
      assert Then(m, Prefixed([report], ws, first), b, walkOf) == Prefixed([report] + first.reports, ws + first.writes, rb);
      PrefixedTwice([report], ws, first.reports, first.writes, rb);
    }
  }

  /** A run with the reports `reports` and writes `done` already behind it and `rest` still ahead. */
  function Prefixed(reports: seq<Report>, done: seq<Write>, rest: Outcome): Outcome {
    Outcome(reports + rest.reports, rest.crashed, done + rest.writes)
  }

  lemma PrefixedTwice(reports: seq<Report>, done: seq<Write>, more: seq<Report>, moreDone: seq<Write>, rest: Outcome)
    ensures Prefixed(reports, done, Prefixed(more, moreDone, rest)) == Prefixed(reports + more, done + moreDone, rest)
  {
    assert reports + (more + rest.reports) == (reports + more) + rest.reports;
    assert done + (moreDone + rest.writes) == (done + moreDone) + rest.writes;
  }

  /** The first task of a run that raises no exception is followed by the run of the others. */
  lemma RunTasksFirst(m: map<Path, Node>, tasks: seq<Task>, walkOf: Path -> seq<Path>)
    requires tasks != []
    ensures var r := RunTask(m, tasks[0], walkOf);
            RunTasks(m, tasks, walkOf) ==
              if r.ok then Prefixed([r.report], r.writes, RunTasks(Apply(m, r.writes), tasks[1..], walkOf))
              else Outcome([], true, r.writes)
  {
  }

  /** One pass of the loop of `process_accelerator`. */
  method ProcessFile(fs: FileSystem, t: Task, walkOf: Path -> seq<Path>) returns (report: Report, ok: bool)
    requires fs.Valid()
    modifies fs
    ensures fs.Valid()
    ensures var r := RunTask(old(fs.nodes), t, walkOf);
            report == r.report && ok == r.ok && fs.nodes == Apply(old(fs.nodes), r.writes)
  {
    var found := FindFile(fs, t.searchRoot, t.file, walkOf);
    match found {
      case None =>
        report, ok := Missing(t), true;
      case Some(src) =>
        ok := MoveFile(fs, src, t.destDir);
        report := Copied(t, src);
    }
  }

  /** `process_accelerator(acc)`: one outcome per listed file, in order. */
  method ProcessAccelerator(fs: FileSystem, acc: AccSpec, walkOf: Path -> seq<Path>)
    returns (reports: seq<Report>, crashed: bool)
    requires fs.Valid()
    modifies fs
    ensures fs.Valid()
    ensures var o := RunTasks(old(fs.nodes), AccTasks(acc), walkOf);
            reports == o.reports && crashed == o.crashed && fs.nodes == Apply(old(fs.nodes), o.writes)
  {
    ghost var m0 := fs.nodes;
    ghost var tasks := AccTasks(acc);
    ghost var done: seq<Write> := [];
    var searchRoot := SearchRoot(SubHint(acc));
    var destDir := DestDir(acc.name);
    reports := [];
    crashed := false;
    var i := 0;
    while i < |acc.files|
      invariant 0 <= i <= |acc.files|
      invariant fs.Valid()
      invariant fs.nodes == Apply(m0, done)
      invariant RunTasks(m0, tasks, walkOf) == Prefixed(reports, done, RunTasks(fs.nodes, tasks[i..], walkOf))
    {
      var t := Task(acc.name, acc.files[i], searchRoot, destDir);
      assert tasks[i..][0] == t && tasks[i..][1..] == tasks[i + 1..];
      ghost var before := fs.nodes;
      RunTasksFirst(before, tasks[i..], walkOf);
      var report, ok := ProcessFile(fs, t, walkOf);
      ghost var r := RunTask(before, t, walkOf);
      ApplyAppend(m0, done, r.writes);
      if !ok {
        assert reports + [] == reports;
        return reports, true;
      }
      PrefixedTwice(reports, done, [report], r.writes, RunTasks(fs.nodes, tasks[i + 1..], walkOf));
      done := done + r.writes;
      reports := reports + [report];
      i := i + 1;
    }
    assert reports + [] == reports;
    assert done + [] == done;
  }

  /** `main`: stop at once without the RTL dump, otherwise process the whole table in order. */
  datatype MainRun = BaseMissing | Processed(run: Outcome) {
    function Written(): seq<Write> {
      if BaseMissing? then [] else run.writes
    }
  }

  function CurationMain(m: map<Path, Node>, walkOf: Path -> seq<Path>): MainRun {
    if BaseRtlRoot !in m then BaseMissing
    else Processed(RunTasks(m, AllTasks(Accelerators), walkOf))
  }

  /** The loop of `main` over a table of accelerators. */
  method ProcessAll(fs: FileSystem, accs: seq<AccSpec>, walkOf: Path -> seq<Path>)
    returns (reports: seq<Report>, crashed: bool)
    requires fs.Valid()
    modifies fs
    ensures fs.Valid()
    ensures var o := RunTasks(old(fs.nodes), AllTasks(accs), walkOf);
            reports == o.reports && crashed == o.crashed && fs.nodes == Apply(old(fs.nodes), o.writes)
  {
    reports, crashed := [], false;
    ghost var m0 := fs.nodes;
    ghost var done: seq<Write> := [];
    var i := 0;
    while i < |accs|
      invariant 0 <= i <= |accs|
      invariant fs.Valid()
      invariant fs.nodes == Apply(m0, done)
      invariant RunTasks(m0, AllTasks(accs), walkOf) == Prefixed(reports, done, RunTasks(fs.nodes, AllTasks(accs[i..]), walkOf))
    {
      ghost var before := fs.nodes;
      ghost var later := AllTasks(accs[i + 1..]);
      assert accs[i..][0] == accs[i] && accs[i..][1..] == accs[i + 1..];
      assert AllTasks(accs[i..]) == AccTasks(accs[i]) + later;
      RunTasksAppend(before, AccTasks(accs[i]), later, walkOf);
      var accReports, accCrashed := ProcessAccelerator(fs, accs[i], walkOf);
      ghost var o := RunTasks(before, AccTasks(accs[i]), walkOf);
      ApplyAppend(m0, done, o.writes);
      if accCrashed {
        return reports + accReports, true;
      }
      PrefixedTwice(reports, done, o.reports, o.writes, RunTasks(fs.nodes, later, walkOf));
      done := done + o.writes;
      reports := reports + accReports;
      i := i + 1;
    }
    assert reports + [] == reports;
    assert done + [] == done;
  }

  /** `main()`. */
  method CurateAccelerators(fs: FileSystem, walkOf: Path -> seq<Path>)
    returns (baseFound: bool, reports: seq<Report>, crashed: bool)
    requires fs.Valid()
    modifies fs
    ensures fs.Valid()
    ensures var r := CurationMain(old(fs.nodes), walkOf);
            && baseFound == r.Processed?
            && (r.Processed? ==> reports == r.run.reports && crashed == r.run.crashed)
            && fs.nodes == Apply(old(fs.nodes), r.Written())
  {
    reports, crashed := [], false;
    baseFound := fs.Exists(BaseRtlRoot);
    if !baseFound {
      return;
    }
    reports, crashed := ProcessAll(fs, Accelerators, walkOf);
  }

  // ---------------------------------------------------------------------------
  // What move_file does to the tree
  // ---------------------------------------------------------------------------

  /**
   * `move_file` leaves the source file alone. It only creates directories
   * along `destDir` and writes the copy. On success `destDir` is a directory and
   * the copy holds the source content under the source's own name: directly in
   * `destDir`, or one level deeper when `destDir/<name>` is a directory (as
   * `copy2` does), overwriting what was there.
   */
  lemma MoveFileResult(m: map<Path, Node>, src: Path, destDir: Path)
    requires IsFileAt(m, src) && destDir != []
    ensures var step := MoveFileEffect(m, src, destDir);
            var m1 := Apply(m, step.writes);
            var t := CopyTarget(Apply(m, DirWrites(destDir)), src, destDir + [Name(src)]);
            && Lookup(m1, src) == Lookup(m, src)
            && (forall q :: !(q <= destDir) && q != t ==> Lookup(m1, q) == Lookup(m, q))
            && (!step.ok ==> forall q :: !(q <= destDir) ==> Lookup(m1, q) == Lookup(m, q))
            && (step.ok ==>
                  && IsDirAt(m1, destDir)
                  && (t == destDir + [Name(src)] || t == destDir + [Name(src), Name(src)])
                  && t in m1 && m1[t] == File(m[src].content))
  {
    var step := MoveFileEffect(m, src, destDir);
    if MakeDirsOk(m, destDir) {
      var ws := DirWrites(destDir);
      var n := Apply(m, ws);
      var t := CopyTarget(n, src, destDir + [Name(src)]);
      forall q | !(q <= destDir) ensures Lookup(n, q) == Lookup(m, q) {
        forall i | 0 <= i < |ws| ensures ws[i].0 != q {
          assert ws[i].0 == destDir[..i + 1];
        }
        ApplyOutside(m, ws, q);
      }
      forall i | 0 <= i < |ws| ensures ws[i].0 != src {
        assert !IsFileAt(m, destDir[..i + 1]);
      }
      ApplyOutside(m, ws, src);
      assert ws[|destDir| - 1].0 == destDir;
      ApplyUniform(m, ws, destDir, Dir);
      if step.ok {
        var cw := CopyWrites(n, src, destDir + [Name(src)]);
        ApplyAppend(m, ws, cw);
        assert Apply(m, step.writes) == n[t := File(n[src].content)];
      }
    }
  }

  // ---------------------------------------------------------------------------
  // Runs that agree outside the curated folders
  // ---------------------------------------------------------------------------

  /** Every path the walk of a directory yields lies inside that directory. */
  ghost predicate WalkWithin(walkOf: Path -> seq<Path>) {
    forall r: Path, i :: 0 <= i < |walkOf(r)| ==> Within(walkOf(r)[i], r)
  }

  /** A task searches inside the RTL dump and copies into a folder directly below the destination root. */
  predicate TaskOk(t: Task) {
    Within(t.searchRoot, BaseRtlRoot) && |t.destDir| == 2 && Within(t.destDir, DestRoot)
  }

  lemma {:induction false} AllTasksOk(accs: seq<AccSpec>)
    requires forall i :: 0 <= i < |accs| ==> IsSegment(accs[i].name)
    ensures forall k :: 0 <= k < |AllTasks(accs)| ==> TaskOk(AllTasks(accs)[k])
  {
    if accs != [] {
      AllTasksOk(accs[1..]);
      DestDirOfSegment(accs[0].name);
      var a, b := AccTasks(accs[0]), AllTasks(accs[1..]);
      forall k | 0 <= k < |a + b| ensures TaskOk((a + b)[k]) {
        if k >= |a| {
          assert (a + b)[k] == b[k - |a|];
        }
      }
    }
  }

  /** The tasks of the accelerator table. */
  lemma TableTasksOk()
    ensures forall k :: 0 <= k < |AllTasks(Accelerators)| ==> TaskOk(AllTasks(Accelerators)[k])
  {
    RegistryShape();
    AllTasksOk(Accelerators);
  }

  /** Nothing in the RTL dump lies under the destination root. */
  lemma DumpOutsideDest(q: Path)
    requires Within(q, BaseRtlRoot)
    ensures !Within(q, DestRoot)
  {
    assert q[0] == BaseRtlRoot[0];
  }

  /**
   * Two trees that agree on everything outside the destination root, on
   * where regular files sit in its first two levels, and on where
   * directories sit deeper down. The curator cannot tell them apart.
   */
  ghost predicate Agree(m1: map<Path, Node>, m2: map<Path, Node>) {
    && (forall q :: !Within(q, DestRoot) ==> Lookup(m1, q) == Lookup(m2, q))
    && (forall q :: Within(q, DestRoot) && |q| <= 2 ==> IsFileAt(m1, q) == IsFileAt(m2, q))
    && (forall q :: Within(q, DestRoot) && 3 <= |q| ==> IsDirAt(m1, q) == IsDirAt(m2, q))
  }

  lemma AgreeTrans(m1: map<Path, Node>, m2: map<Path, Node>, m3: map<Path, Node>)
    requires Agree(m1, m2) && Agree(m2, m3)
    ensures Agree(m1, m3)
  {
  }

  lemma {:induction false} AgreeApply(m1: map<Path, Node>, m2: map<Path, Node>, ws: seq<Write>)
    requires Agree(m1, m2)
    ensures Agree(Apply(m1, ws), Apply(m2, ws))
    decreases |ws|
  {
    if ws != [] {
      var (p, v) := ws[0];
      assert Agree(m1[p := v], m2[p := v]) by {
        forall q | !Within(q, DestRoot) ensures Lookup(m1[p := v], q) == Lookup(m2[p := v], q) {
          if q != p {
            assert Lookup(m1, q) == Lookup(m2, q);
          }
        }
      }
      AgreeApply(m1[p := v], m2[p := v], ws[1..]);
    }
  }

  /** A directory made in the first two levels where no regular file was. */
  lemma AgreeSetDir(m: map<Path, Node>, c: map<Path, Node>, p: Path)
    requires Agree(m, c) && Within(p, DestRoot) && |p| <= 2 && !IsFileAt(c, p)
    ensures Agree(m, c[p := Dir])
  {
    assert !IsFileAt(m, p);
  }

  /** A regular file written deeper down where no directory was. */
  lemma AgreeSetFile(m: map<Path, Node>, c: map<Path, Node>, p: Path, f: string)
    requires Agree(m, c) && Within(p, DestRoot) && 3 <= |p| && !IsDirAt(c, p)
    ensures Agree(m, c[p := File(f)])
  {
    assert !IsDirAt(m, p);
  }

  /** `find_file` cannot tell agreeing trees apart when the walk stays out of the destination. */
  lemma {:induction false} FirstHitAgree(m1: map<Path, Node>, m2: map<Path, Node>, walk: seq<Path>, lower: string)
    requires Agree(m1, m2)
    requires forall i :: 0 <= i < |walk| ==> !Within(walk[i], DestRoot)
    ensures FirstHit(m1, walk, lower) == FirstHit(m2, walk, lower)
  {
    if walk != [] {
      assert Lookup(m1, walk[0]) == Lookup(m2, walk[0]);
      assert forall i :: 0 <= i < |walk[1..]| ==> walk[1..][i] == walk[i + 1];
      FirstHitAgree(m1, m2, walk[1..], lower);
    }
  }

  /** The walk of a task's search root stays out of the destination. */
  lemma TaskWalkOutsideDest(t: Task, walkOf: Path -> seq<Path>)
    requires WalkWithin(walkOf) && TaskOk(t)
    ensures forall i :: 0 <= i < |walkOf(t.searchRoot)| ==> !Within(walkOf(t.searchRoot)[i], DestRoot)
  {
    forall i | 0 <= i < |walkOf(t.searchRoot)| ensures !Within(walkOf(t.searchRoot)[i], DestRoot) {
      var q := walkOf(t.searchRoot)[i];
      assert Within(q, t.searchRoot);
      assert q[0] == t.searchRoot[0] == BaseRtlRoot[0];
      DumpOutsideDest(q);
    }
  }

  /** `move_file` does the same on agreeing trees, for a source outside the destination. */
  lemma MoveFileAgree(c1: map<Path, Node>, c2: map<Path, Node>, src: Path, destDir: Path)
    requires Agree(c1, c2) && IsFileAt(c1, src) && !Within(src, DestRoot)
    requires |destDir| == 2 && Within(destDir, DestRoot)
    ensures MoveFileEffect(c1, src, destDir) == MoveFileEffect(c2, src, destDir)
  {
    assert destDir[..1] == DestRoot && destDir[..2] == destDir;
    assert MakeDirsOk(c1, destDir) == MakeDirsOk(c2, destDir) by {
      assert IsFileAt(c1, destDir[..1]) == IsFileAt(c2, destDir[..1]);
      assert IsFileAt(c1, destDir[..2]) == IsFileAt(c2, destDir[..2]);
    }
    if MakeDirsOk(c1, destDir) {
      var ws := DirWrites(destDir);
      var n1, n2 := Apply(c1, ws), Apply(c2, ws);
      AgreeApply(c1, c2, ws);
      assert ws[1].0 == destDir;
      ApplyUniform(c1, ws, destDir, Dir);
      ApplyUniform(c2, ws, destDir, Dir);
      var dest := destDir + [Name(src)];
      assert Within(dest, DestRoot) && |dest| == 3;
      assert IsDirAt(n1, dest) == IsDirAt(n2, dest);
      var t := CopyTarget(n1, src, dest);
      assert t == CopyTarget(n2, src, dest);
      assert Within(t, DestRoot) && 3 <= |t|;
      assert Lookup(n1, src) == Lookup(n2, src);
      assert IsDirAt(n1, t) == IsDirAt(n2, t);
      assert IsDirAt(n1, Parent(t)) == IsDirAt(n2, Parent(t)) by {
        if t != dest {
          assert Parent(t) == dest;
        }
      }
    }
  }

  /** One task does the same on agreeing trees. */
  lemma RunTaskAgree(c1: map<Path, Node>, c2: map<Path, Node>, t: Task, walkOf: Path -> seq<Path>)
    requires Agree(c1, c2) && WalkWithin(walkOf) && TaskOk(t)
    ensures RunTask(c1, t, walkOf) == RunTask(c2, t, walkOf)
  {
    var walk := walkOf(t.searchRoot);
    TaskWalkOutsideDest(t, walkOf);
    FirstHitAgree(c1, c2, walk, Lower(t.file));
    var hit := FirstHit(c1, walk, Lower(t.file));
    if hit.Some? {
      var i :| 0 <= i < |walk| && walk[i] == hit.value;
      MoveFileAgree(c1, c2, hit.value, t.destDir);
    }
  }

  /** A whole run does the same on agreeing trees. */
  lemma {:induction false} RunTasksAgree(c1: map<Path, Node>, c2: map<Path, Node>, tasks: seq<Task>, walkOf: Path -> seq<Path>)
    requires Agree(c1, c2) && WalkWithin(walkOf)
    requires forall k :: 0 <= k < |tasks| ==> TaskOk(tasks[k])
    ensures RunTasks(c1, tasks, walkOf) == RunTasks(c2, tasks, walkOf)
    decreases |tasks|
  {
    if tasks != [] {
      RunTaskAgree(c1, c2, tasks[0], walkOf);
      var r := RunTask(c1, tasks[0], walkOf);
      AgreeApply(c1, c2, r.writes);
      assert forall k :: 0 <= k < |tasks[1..]| ==> tasks[1..][k] == tasks[k + 1];
      RunTasksAgree(Apply(c1, r.writes), Apply(c2, r.writes), tasks[1..], walkOf);
    }
  }

  /** `move_file` into a folder below the destination root keeps the tree agreeing with itself. */
  lemma MoveFileKeepsAgree(c: map<Path, Node>, src: Path, destDir: Path)
    requires IsFileAt(c, src) && |destDir| == 2 && Within(destDir, DestRoot)
    ensures Agree(c, Apply(c, MoveFileEffect(c, src, destDir).writes))
  {
    var step := MoveFileEffect(c, src, destDir);
    if MakeDirsOk(c, destDir) {
      var ws := DirWrites(destDir);
      var d1, d2 := destDir[..1], destDir[..2];
      assert d2 == destDir && d1 == DestRoot;
      var c1 := c[d1 := Dir];
      var n := c1[d2 := Dir];
      assert Apply(c, ws) == n by {
        assert ws[0] == (d1, Dir) && ws[1..][0] == (d2, Dir) && ws[1..][1..] == [];
        assert Apply(c, ws) == Apply(c1, ws[1..]);
        assert Apply(c1, ws[1..]) == Apply(n, []);
      }
      AgreeSetDir(c, c, d1);
      assert !IsFileAt(c, d2);
      AgreeSetDir(c, c1, d2);
      if step.ok {
        var t := CopyTarget(n, src, destDir + [Name(src)]);
        var cw := CopyWrites(n, src, destDir + [Name(src)]);
        ApplyAppend(c, ws, cw);
        assert Apply(n, cw) == n[t := File(n[src].content)];
        assert Within(t, DestRoot) && 3 <= |t|;
        AgreeSetFile(c, n, t, n[src].content);
      }
    } else {
      assert Apply(c, []) == c;
    }
  }

  /** A run's writes keep the tree agreeing with where it started. */
  lemma {:induction false} RunTasksKeepsAgree(c: map<Path, Node>, tasks: seq<Task>, walkOf: Path -> seq<Path>)
    requires forall k :: 0 <= k < |tasks| ==> TaskOk(tasks[k])
    ensures Agree(c, Apply(c, RunTasks(c, tasks, walkOf).writes))
    decreases |tasks|
  {
    if tasks == [] {
      assert Apply(c, []) == c;
    } else {
      var t := tasks[0];
      var r := RunTask(c, t, walkOf);
      var hit := FirstHit(c, walkOf(t.searchRoot), Lower(t.file));
      if hit.Some? {
        MoveFileKeepsAgree(c, hit.value, t.destDir);
      } else {
        assert Apply(c, []) == c;
      }
      if r.ok {
        var c1 := Apply(c, r.writes);
        assert forall k :: 0 <= k < |tasks[1..]| ==> tasks[1..][k] == tasks[k + 1];
        RunTasksKeepsAgree(c1, tasks[1..], walkOf);
        var rest := RunTasks(c1, tasks[1..], walkOf);
        ApplyAppend(c, r.writes, rest.writes);
        AgreeTrans(c, c1, Apply(c1, rest.writes));
      }
    }
  }

  // ---------------------------------------------------------------------------
  // Properties of a run
  // ---------------------------------------------------------------------------

  /** `rep` reports `t` as `find_file` sees the tree `m`: a warning exactly when nothing is found, otherwise a copy of the first hit. */
  predicate ReportFits(m: map<Path, Node>, walkOf: Path -> seq<Path>, t: Task, rep: Report) {
    var hit := FirstHit(m, walkOf(t.searchRoot), Lower(t.file));
    && rep.task == t
    && (rep.Missing? <==> hit == None)
    && (rep.Copied? ==> hit == Some(rep.src))
  }

  /** One file of one accelerator, run on a tree that agrees with `m`, is reported as in `m` and keeps the agreement. */
  lemma RunTaskFits(m: map<Path, Node>, c: map<Path, Node>, t: Task, walkOf: Path -> seq<Path>)
    requires Agree(m, c) && WalkWithin(walkOf) && TaskOk(t)
    ensures var r := RunTask(c, t, walkOf);
            && ReportFits(m, walkOf, t, r.report)
            && (!r.ok ==> FirstHit(m, walkOf(t.searchRoot), Lower(t.file)).Some?)
            && (r.ok ==> Agree(m, Apply(c, r.writes)))
  {
    var r := RunTask(c, t, walkOf);
    TaskWalkOutsideDest(t, walkOf);
    FirstHitAgree(m, c, walkOf(t.searchRoot), Lower(t.file));
    if r.ok {
      var hit := FirstHit(c, walkOf(t.searchRoot), Lower(t.file));
      if hit.Some? {
        MoveFileKeepsAgree(c, hit.value, t.destDir);
      } else {
        assert Apply(c, r.writes) == c;
      }
      AgreeTrans(m, c, Apply(c, r.writes));
    }
  }

  /**
   * The run `o` over `tasks` follows the dump `m`: report `i` belongs to task
   * `i` and is what `find_file` finds in `m`; without an exception every task
   * is reported; an exception ends the run only at a task whose file was found
   * (a miss is a warning and never stops it).
   */
  predicate RunFits(m: map<Path, Node>, walkOf: Path -> seq<Path>, tasks: seq<Task>, o: Outcome) {
    && (!o.crashed ==> |o.reports| == |tasks|)
    && (o.crashed ==>
          && |o.reports| < |tasks|
          && FirstHit(m, walkOf(tasks[|o.reports|].searchRoot), Lower(tasks[|o.reports|].file)).Some?)
    && forall i :: 0 <= i < |o.reports| ==> ReportFits(m, walkOf, tasks[i], o.reports[i])
  }

  /** A task reported as in `m`, followed by a run of the other tasks that fits `m`, fits `m`. */
  lemma RunFitsCons(m: map<Path, Node>, walkOf: Path -> seq<Path>, tasks: seq<Task>, rep: Report, ws: seq<Write>, o: Outcome)
    requires tasks != [] && ReportFits(m, walkOf, tasks[0], rep)
    requires RunFits(m, walkOf, tasks[1..], o)
    ensures RunFits(m, walkOf, tasks, Prefixed([rep], ws, o))
  {
    var rest := tasks[1..];
    var reports := [rep] + o.reports;
    if o.crashed {
      assert tasks[|reports|] == rest[|o.reports|];
    }
    forall i | 0 <= i < |reports| ensures ReportFits(m, walkOf, tasks[i], reports[i]) {
      if i > 0 {
        assert tasks[i] == rest[i - 1] && reports[i] == o.reports[i - 1];
      }
    }
  }

  /**
   * Run over a tree that agrees with the dump `m`, the curator's reports
   * follow `m`, and only a failing move ends the run (see `RunFits`).
   */
  lemma {:induction false} ReportsFollowSourceTree(m: map<Path, Node>, c: map<Path, Node>, tasks: seq<Task>, walkOf: Path -> seq<Path>)
    requires Agree(m, c) && WalkWithin(walkOf)
    requires forall k :: 0 <= k < |tasks| ==> TaskOk(tasks[k])
    ensures RunFits(m, walkOf, tasks, RunTasks(c, tasks, walkOf))
    decreases |tasks|
  {
    if tasks != [] {
      var r := RunTask(c, tasks[0], walkOf);
      RunTasksFirst(c, tasks, walkOf);
      RunTaskFits(m, c, tasks[0], walkOf);
      if r.ok {
        var rest := tasks[1..];
        assert forall k :: 0 <= k < |rest| ==> rest[k] == tasks[k + 1];
        ReportsFollowSourceTree(m, Apply(c, r.writes), rest, walkOf);
        RunFitsCons(m, walkOf, tasks, r.report, r.writes, RunTasks(Apply(c, r.writes), rest, walkOf));
      }
    }
  }

  /** The curator never writes outside `selected_accelerator_files`: the RTL dump is left as it was. */
  lemma CurationLeavesSourceAlone(m: map<Path, Node>, walkOf: Path -> seq<Path>)
    ensures var m1 := Apply(m, CurationMain(m, walkOf).Written());
            forall q :: !Within(q, DestRoot) ==> Lookup(m1, q) == Lookup(m, q)
  {
    if BaseRtlRoot in m {
      TableTasksOk();
      RunTasksKeepsAgree(m, AllTasks(Accelerators), walkOf);
    }
  }

  /**
   * `main` stops before any accelerator when the RTL dump is missing, and
   * otherwise reports the table's files in order, each as `find_file` sees
   * the dump.
   */
  lemma CurationReports(m: map<Path, Node>, walkOf: Path -> seq<Path>)
    requires WalkWithin(walkOf)
    ensures var r := CurationMain(m, walkOf);
            var tasks := AllTasks(Accelerators);
            && (r.BaseMissing? <==> BaseRtlRoot !in m)
            && (r.BaseMissing? ==> Apply(m, r.Written()) == m)
            && (r.Processed? ==> RunFits(m, walkOf, tasks, r.run))
  {
    if BaseRtlRoot in m {
      TableTasksOk();
      ReportsFollowSourceTree(m, m, AllTasks(Accelerators), walkOf);
    }
  }

  /**
   * Re-running the curator on the tree it produced reports the same and
   * leaves the tree as it is: copies overwrite, and the dump they are read
   * from is unchanged.
   */
  lemma CurationIdempotent(m: map<Path, Node>, walkOf: Path -> seq<Path>)
    requires WalkWithin(walkOf)
    ensures var r := CurationMain(m, walkOf);
            var m1 := Apply(m, r.Written());
            CurationMain(m1, walkOf) == r && Apply(m1, r.Written()) == m1
  {
    var r := CurationMain(m, walkOf);
    var m1 := Apply(m, r.Written());
    ApplyTwice(m, r.Written());
    if r.Processed? {
      var tasks := AllTasks(Accelerators);
      TableTasksOk();
      RunTasksKeepsAgree(m, tasks, walkOf);
      RunTasksAgree(m, m1, tasks, walkOf);
      DumpOutsideDest(BaseRtlRoot);
      assert Lookup(m1, BaseRtlRoot) == Lookup(m, BaseRtlRoot);
    } else {
      assert m1 == m;
    }
  }
}
