/**
 * The module renamer: rewrites the declaration line `module OLD ...` and the
 * closing marker `endmodule // OLD` of one HDL file, after moving the
 * original aside as `<file>.bak`.
 *
 * The two regular expressions are given twice: as what `re.match` accepts
 * (ghost predicates that guess where each part of the pattern starts), and
 * as the scanners the model runs; `Classify` ties the two together.
 */
module RenameModule {
  import opened Wrappers
  import opened Text
  import opened FsModel

  /** `\b` at position `k`: exactly one of the two characters around it is a word character. */
  predicate WordBoundary(s: string, k: nat)
    requires k <= |s|
  {
    (k > 0 && IsWordChar(s[k - 1])) != (k < |s| && IsWordChar(s[k]))
  }

  // ---------------------------------------------------------------------------
  // What the two regular expressions accept
  // ---------------------------------------------------------------------------

  /**
   * `^\s*module\s+OLD\b` matches `line` with the leading blanks ending at `i`
   * and the literal OLD starting at `j`.
   */
  ghost predicate DeclAt(line: string, oldName: string, i: int, j: int) {
    && 0 <= i && i + 6 < j && j + |oldName| <= |line|
    && AllSpace(line[..i])
    && line[i..i + 6] == "module"
    && AllSpace(line[i + 6..j])
    && line[j..j + |oldName|] == oldName
    && WordBoundary(line, j + |oldName|)
  }

  /** `re.match(r"^\s*module\s+" + re.escape(OLD) + r"\b", line)` succeeds. */
  ghost predicate DeclPattern(line: string, oldName: string) {
    exists i, j :: DeclAt(line, oldName, i, j)
  }

  /** `\s*$` matches `rest` with the blanks ending at `e`: at the end, or before a final newline. */
  ghost predicate EndOfLineAt(rest: string, e: int) {
    && 0 <= e <= |rest|
    && AllSpace(rest[..e])
    && (e == |rest| || (e == |rest| - 1 && rest[e] == '\n'))
  }

  ghost predicate BlankToEnd(rest: string) {
    exists e :: EndOfLineAt(rest, e)
  }

  // `^\s*endmodule\s*//\s*OLD\s*$` matches `line` with `endmodule` at `i`,
  // `//` at `j` and the literal OLD at `k`.
  ghost predicate ClosingAt(line: string, oldName: string, i: int, j: int, k: int) {
    && 0 <= i && i + 9 <= j && j + 2 <= k && k + |oldName| <= |line|
    && AllSpace(line[..i])
    && line[i..i + 9] == "endmodule"
    && AllSpace(line[i + 9..j])
    && line[j..j + 2] == "//"
    && AllSpace(line[j + 2..k])
    && line[k..k + |oldName|] == oldName
    && BlankToEnd(line[k + |oldName|..])
  }

  // `re.match(r"^\s*endmodule\s*//\s*" + re.escape(OLD) + r"\s*$", line)` succeeds.
  ghost predicate ClosingPattern(line: string, oldName: string) {
    exists i, j, k :: ClosingAt(line, oldName, i, j, k)
  }

  // ---------------------------------------------------------------------------
  // The scanners
  // ---------------------------------------------------------------------------

  /** The end of the run of blanks starting at `from`. */
  function SkipSpace(s: string, from: nat): (k: nat)
    requires from <= |s|
    ensures from <= k <= |s|
    ensures AllSpace(s[from..k])
    ensures k == |s| || !IsSpace(s[k])
    decreases |s| - from
  {
    if from < |s| && IsSpace(s[from]) then
      var k := SkipSpace(s, from + 1);
      assert s[from..k] == [s[from]] + s[from + 1..k];
      k
    else from
  }

  /** At least one blank has been read; OLD then `\b` follow at `j`, or after more blanks. */
  predicate OldWordFrom(line: string, oldName: string, j: nat)
    requires j <= |line|
    decreases |line| - j
  {
    || (j + |oldName| <= |line| && line[j..j + |oldName|] == oldName && WordBoundary(line, j + |oldName|))
    || (j < |line| && IsSpace(line[j]) && OldWordFrom(line, oldName, j + 1))
  }

  /** OLD follows at `k`, or after more blanks, and only blanks follow it. */
  predicate OldToEndFrom(line: string, oldName: string, k: nat)
    requires k <= |line|
    decreases |line| - k
  {
    || (k + |oldName| <= |line| && line[k..k + |oldName|] == oldName && AllSpace(line[k + |oldName|..]))
    || (k < |line| && IsSpace(line[k]) && OldToEndFrom(line, oldName, k + 1))
  }

  predicate IsDeclaration(line: string, oldName: string) {
    var i := SkipSpace(line, 0);
    i + 7 <= |line| && line[i..i + 6] == "module" && IsSpace(line[i + 6]) && OldWordFrom(line, oldName, i + 7)
  }

  predicate IsClosingMarker(line: string, oldName: string) {
    var i := SkipSpace(line, 0);
    && i + 9 <= |line|
    && line[i..i + 9] == "endmodule"
    && var j := SkipSpace(line, i + 9);
    && j + 2 <= |line|
    && line[j..j + 2] == "//"
    && OldToEndFrom(line, oldName, j + 2)
  }

  // ---------------------------------------------------------------------------
  // The scanners accept exactly what the regular expressions accept
  // ---------------------------------------------------------------------------

  lemma AllSpaceStep(s: string, a: nat, b: nat)
    requires a < b <= |s|
    ensures AllSpace(s[a..b]) <==> IsSpace(s[a]) && AllSpace(s[a + 1..b])
  {
    assert s[a..b] == [s[a]] + s[a + 1..b];
  }

  /** The run of blanks from `from` ends at the first non-blank. */
  lemma {:induction false} SkipSpaceAt(s: string, from: nat, i: nat)
    requires from <= i < |s| && AllSpace(s[from..i]) && !IsSpace(s[i])
    ensures SkipSpace(s, from) == i
    decreases i - from
  {
    if from < i {
      AllSpaceStep(s, from, i);
      SkipSpaceAt(s, from + 1, i);
    }
  }

  lemma {:induction false} OldWordFromSound(line: string, oldName: string, j0: nat) returns (j: nat)
    requires j0 <= |line| && OldWordFrom(line, oldName, j0)
    ensures j0 <= j && j + |oldName| <= |line|
    ensures AllSpace(line[j0..j]) && line[j..j + |oldName|] == oldName && WordBoundary(line, j + |oldName|)
    decreases |line| - j0
  {
    if j0 + |oldName| <= |line| && line[j0..j0 + |oldName|] == oldName && WordBoundary(line, j0 + |oldName|) {
      j := j0;
    } else {
      j := OldWordFromSound(line, oldName, j0 + 1);
      AllSpaceStep(line, j0, j);
    }
  }

  lemma {:induction false} OldWordFromComplete(line: string, oldName: string, j0: nat, j: nat)
    requires j0 <= j && j + |oldName| <= |line|
    requires AllSpace(line[j0..j]) && line[j..j + |oldName|] == oldName && WordBoundary(line, j + |oldName|)
    ensures OldWordFrom(line, oldName, j0)
    decreases j - j0
  {
    if j0 < j {
      AllSpaceStep(line, j0, j);
      OldWordFromComplete(line, oldName, j0 + 1, j);
    }
  }

  lemma {:induction false} OldToEndFromSound(line: string, oldName: string, k0: nat) returns (k: nat)
    requires k0 <= |line| && OldToEndFrom(line, oldName, k0)
    ensures k0 <= k && k + |oldName| <= |line|
    ensures AllSpace(line[k0..k]) && line[k..k + |oldName|] == oldName && AllSpace(line[k + |oldName|..])
    decreases |line| - k0
  {
    if k0 + |oldName| <= |line| && line[k0..k0 + |oldName|] == oldName && AllSpace(line[k0 + |oldName|..]) {
      k := k0;
    } else {
      k := OldToEndFromSound(line, oldName, k0 + 1);
      AllSpaceStep(line, k0, k);
    }
  }

  lemma {:induction false} OldToEndFromComplete(line: string, oldName: string, k0: nat, k: nat)
    requires k0 <= k && k + |oldName| <= |line|
    requires AllSpace(line[k0..k]) && line[k..k + |oldName|] == oldName && AllSpace(line[k + |oldName|..])
    ensures OldToEndFrom(line, oldName, k0)
    decreases k - k0
  {
    if k0 < k {
      AllSpaceStep(line, k0, k);
      OldToEndFromComplete(line, oldName, k0 + 1, k);
    }
  }

  /** `\s*$` accepts exactly the all-blank rests: `\s` already covers the final newline. */
  lemma BlankToEndIsAllSpace(rest: string)
    ensures BlankToEnd(rest) <==> AllSpace(rest)
  {
    if AllSpace(rest) {
      assert rest[..|rest|] == rest;
      assert EndOfLineAt(rest, |rest|);
    }
    if BlankToEnd(rest) {
      var e :| EndOfLineAt(rest, e);
      forall i | 0 <= i < |rest| ensures IsSpace(rest[i]) {
        if i < e {
          assert rest[..e][i] == rest[i];
        }
      }
    }
  }

  lemma DeclarationIsPattern(line: string, oldName: string)
    ensures IsDeclaration(line, oldName) <==> DeclPattern(line, oldName)
  {
    var i := SkipSpace(line, 0);
    assert line[..i] == line[0..i];
    if IsDeclaration(line, oldName) {
      var j := OldWordFromSound(line, oldName, i + 7);
      AllSpaceStep(line, i + 6, j);
      assert DeclAt(line, oldName, i, j);
    }
    if DeclPattern(line, oldName) {
      var i', j :| DeclAt(line, oldName, i', j);
      assert line[i'] == line[i'..i' + 6][0] == 'm';
      assert line[..i'] == line[0..i'];
      SkipSpaceAt(line, 0, i');
      AllSpaceStep(line, i' + 6, j);
      OldWordFromComplete(line, oldName, i' + 7, j);
    }
  }

  lemma ClosingMarkerSound(line: string, oldName: string)
    requires IsClosingMarker(line, oldName)
    ensures ClosingPattern(line, oldName)
  {
    var i := SkipSpace(line, 0);
    assert line[..i] == line[0..i];
    var j := SkipSpace(line, i + 9);
    var k := OldToEndFromSound(line, oldName, j + 2);
    BlankToEndIsAllSpace(line[k + |oldName|..]);
    assert ClosingAt(line, oldName, i, j, k);
  }

  lemma ClosingMarkerComplete(line: string, oldName: string, i: int, j: int, k: int)
    requires ClosingAt(line, oldName, i, j, k)
    ensures IsClosingMarker(line, oldName)
  {
    assert line[i] == line[i..i + 9][0] == 'e';
    assert line[..i] == line[0..i];
    SkipSpaceAt(line, 0, i);
    assert line[j] == line[j..j + 2][0] == '/';
    SkipSpaceAt(line, i + 9, j);
    BlankToEndIsAllSpace(line[k + |oldName|..]);
    OldToEndFromComplete(line, oldName, j + 2, k);
  }

  lemma ClosingMarkerIsPattern(line: string, oldName: string)
    ensures IsClosingMarker(line, oldName) <==> ClosingPattern(line, oldName)
  {
    if IsClosingMarker(line, oldName) {
      ClosingMarkerSound(line, oldName);
    }
    if ClosingPattern(line, oldName) {
      var i, j, k :| ClosingAt(line, oldName, i, j, k);
      ClosingMarkerComplete(line, oldName, i, j, k);
    }
  }

  // ---------------------------------------------------------------------------
  // Line classification and rewriting
  // ---------------------------------------------------------------------------

  /** The two kinds of line the renamer rewrites; the declaration test comes first. */
  datatype LineKind = Declaration | ClosingMarker | Other

  function Classify(line: string, oldName: string): (kind: LineKind)
    ensures kind == Declaration <==> DeclPattern(line, oldName)
    ensures kind == ClosingMarker <==> !DeclPattern(line, oldName) && ClosingPattern(line, oldName)
  {
    DeclarationIsPattern(line, oldName);
    ClosingMarkerIsPattern(line, oldName);
    if IsDeclaration(line, oldName) then Declaration
    else if IsClosingMarker(line, oldName) then ClosingMarker
    else Other
  }

  /**
   * Python's `s.replace(pat, rep)`: every occurrence, left to right, without
   * overlaps. Replacing a text by itself changes nothing.
   */
  function ReplaceAll(s: string, pat: string, rep: string): (r: string)
    requires pat != []
    ensures pat == rep ==> r == s
    decreases |s|
  {
    if |s| < |pat| then s
    else if s[..|pat|] == pat then
      assert s[..|pat|] + s[|pat|..] == s;
      rep + ReplaceAll(s[|pat|..], pat, rep)
    else
      assert [s[0]] + s[1..] == s;
      [s[0]] + ReplaceAll(s[1..], pat, rep)
  }

  predicate OccursAt(s: string, pat: string, k: int) {
    0 <= k && k + |pat| <= |s| && s[k..k + |pat|] == pat
  }

  ghost predicate Occurs(s: string, pat: string) {
    exists k :: OccursAt(s, pat, k)
  }

  /** Without an occurrence of the pattern, `replace` returns the text unchanged. */
  lemma {:induction false} ReplaceAbsent(s: string, pat: string, rep: string)
    requires pat != [] && !Occurs(s, pat)
    ensures ReplaceAll(s, pat, rep) == s
    decreases |s|
  {
    if |s| >= |pat| {
      assert !OccursAt(s, pat, 0);
      forall k | 0 <= k && k + |pat| <= |s[1..]| ensures !OccursAt(s[1..], pat, k) {
        assert s[1..][k..k + |pat|] == s[k + 1..k + 1 + |pat|];
        assert !OccursAt(s, pat, k + 1);
      }
      ReplaceAbsent(s[1..], pat, rep);
      assert [s[0]] + s[1..] == s;
    }
  }

  /** Blanks in front of the text pass through `replace` when the pattern starts with a non-blank. */
  lemma {:induction false} ReplaceAfterBlanks(x: string, s: string, pat: string, rep: string)
    requires pat != [] && !IsSpace(pat[0]) && AllSpace(x)
    ensures ReplaceAll(x + s, pat, rep) == x + ReplaceAll(s, pat, rep)
    decreases |x|
  {
    if x == [] {
      assert x + s == s;
    } else if |x + s| >= |pat| {
      assert (x + s)[..|pat|][0] == x[0];
      assert (x + s)[1..] == x[1..] + s;
      ReplaceAfterBlanks(x[1..], s, pat, rep);
      assert [x[0]] + x[1..] == x;
    }
  }

  /** Line `i` of the file after the rewrite. */
  function RewriteLine(line: string, oldName: string, newName: string): string {
    match Classify(line, oldName)
    case Declaration => ReplaceAll(line, "module " + oldName, "module " + newName)
    case ClosingMarker => "endmodule // " + newName + "\n"
    case Other => line
  }

  /** The lines appended to `new_lines`, one per line read. */
  function RewriteLines(lines: seq<string>, oldName: string, newName: string): seq<string> {
    if lines == [] then []
    else RewriteLines(lines[..|lines| - 1], oldName, newName) + [RewriteLine(lines[|lines| - 1], oldName, newName)]
  }

  /** The `changed` flag: some line matched one of the two patterns. */
  predicate AnyMatch(lines: seq<string>, oldName: string) {
    lines != [] && (AnyMatch(lines[..|lines| - 1], oldName) || Classify(lines[|lines| - 1], oldName) != Other)
  }

  /**
   * The rewrite keeps the number of lines; a line matching neither pattern
   * stays as it is at its index; a declaration line has every `module OLD`
   * replaced by `module NEW`; a closing marker becomes exactly `endmodule // NEW\n`.
   */
  lemma {:induction false} RewriteLinesSpec(lines: seq<string>, oldName: string, newName: string)
    ensures |RewriteLines(lines, oldName, newName)| == |lines|
    ensures forall k :: 0 <= k < |lines| ==> RewriteLines(lines, oldName, newName)[k] == RewriteLine(lines[k], oldName, newName)
    ensures forall k :: 0 <= k < |lines| && !DeclPattern(lines[k], oldName) && !ClosingPattern(lines[k], oldName) ==>
              RewriteLines(lines, oldName, newName)[k] == lines[k]
    ensures forall k :: 0 <= k < |lines| && DeclPattern(lines[k], oldName) ==>
              RewriteLines(lines, oldName, newName)[k] == ReplaceAll(lines[k], "module " + oldName, "module " + newName)
    ensures forall k :: 0 <= k < |lines| && !DeclPattern(lines[k], oldName) && ClosingPattern(lines[k], oldName) ==>
              RewriteLines(lines, oldName, newName)[k] == "endmodule // " + newName + "\n"
  {
    if lines != [] {
      var init := lines[..|lines| - 1];
      RewriteLinesSpec(init, oldName, newName);
      forall k | 0 <= k < |lines| ensures RewriteLines(lines, oldName, newName)[k] == RewriteLine(lines[k], oldName, newName) {
        if k < |lines| - 1 {
          assert init[k] == lines[k];
        }
      }
    }
  }

  /** `changed` follows the pattern match, not a difference in the text. */
  lemma {:induction false} AnyMatchIsSomeMatchingLine(lines: seq<string>, oldName: string)
    ensures AnyMatch(lines, oldName) <==>
            exists k :: 0 <= k < |lines| && (DeclPattern(lines[k], oldName) || ClosingPattern(lines[k], oldName))
  {
    if lines != [] {
      var init := lines[..|lines| - 1];
      AnyMatchIsSomeMatchingLine(init, oldName);
      if exists k :: 0 <= k < |init| && (DeclPattern(init[k], oldName) || ClosingPattern(init[k], oldName)) {
        var k :| 0 <= k < |init| && (DeclPattern(init[k], oldName) || ClosingPattern(init[k], oldName));
        assert lines[k] == init[k];
      }
      if exists k :: 0 <= k < |lines| && (DeclPattern(lines[k], oldName) || ClosingPattern(lines[k], oldName)) {
        var k :| 0 <= k < |lines| && (DeclPattern(lines[k], oldName) || ClosingPattern(lines[k], oldName));
        if k < |init| {
          assert init[k] == lines[k];
        }
      }
    }
  }

  /**
   * A declaration written with a single space, `<blanks>module OLD<rest>`,
   * becomes `<blanks>module NEW<rest>`, with `module OLD` replaced in the rest too.
   */
  lemma ReplaceLeading(pat: string, rest: string, rep: string)
    requires pat != []
    ensures ReplaceAll(pat + rest, pat, rep) == rep + ReplaceAll(rest, pat, rep)
  {
    assert (pat + rest)[..|pat|] == pat;
    assert (pat + rest)[|pat|..] == rest;
  }

  /** A line matching the declaration pattern is rewritten by `replace` over the whole line. */
  lemma DeclarationLineRewrite(line: string, oldName: string, newName: string)
    requires DeclPattern(line, oldName)
    ensures RewriteLine(line, oldName, newName) == ReplaceAll(line, "module " + oldName, "module " + newName)
  {
    assert Classify(line, oldName) == Declaration;
  }

  /** `replace` on `<blanks>module OLD<rest>` renames the leading declaration and every later `module OLD`. */
  lemma ReplaceInDeclaration(indent: string, oldName: string, newName: string, rest: string)
    requires AllSpace(indent)
    ensures ReplaceAll(indent + "module " + oldName + rest, "module " + oldName, "module " + newName)
            == indent + "module " + newName + ReplaceAll(rest, "module " + oldName, "module " + newName)
  {
    var pat, rep := "module " + oldName, "module " + newName;
    var tail := pat + rest;
    assert indent + "module " + oldName + rest == indent + tail;
    assert pat[0] == 'm';
    ReplaceAfterBlanks(indent, tail, pat, rep);
    ReplaceLeading(pat, rest, rep);
  }

  /**
   * A declaration written with a single space, `<blanks>module OLD<rest>`,
   * becomes `<blanks>module NEW<rest'>`, where `rest'` has every `module OLD`
   * replaced too.
   */
  lemma DeclarationRenamed(line: string, indent: string, oldName: string, newName: string, rest: string)
    requires line == indent + "module " + oldName + rest && AllSpace(indent)
    requires DeclPattern(line, oldName)
    ensures RewriteLine(line, oldName, newName) == indent + "module " + newName + ReplaceAll(rest, "module " + oldName, "module " + newName)
  {
    DeclarationLineRewrite(line, oldName, newName);
    ReplaceInDeclaration(indent, oldName, newName, rest);
  }

  /** `module<TAB>foo;` is a declaration of `foo`. */
  lemma TabSeparatedIsDeclaration()
    ensures IsDeclaration("module\tfoo;\n", "foo")
  {
    var line := "module\tfoo;\n";
    assert SkipSpace(line, 0) == 0;
    assert line[..6] == "module";
    assert line[7..10] == "foo";
    assert OldWordFrom(line, "foo", 7);
  }

  /** `module foo` with a space does not occur in `module<TAB>foo;`. */
  lemma TabSeparatedHasNoSpacedName()
    ensures !Occurs("module\tfoo;\n", "module foo")
  {
    var line, pat := "module\tfoo;\n", "module foo";
    forall k | 0 <= k && k + |pat| <= |line| ensures !OccursAt(line, pat, k) {
      assert line[k..k + |pat|][6] == line[k + 6];
      assert pat[6] == ' ';
    }
  }

  /**
   * `module<TAB>foo;` matches the declaration pattern, but `replace` looks for
   * `module foo` with a space and leaves the line as it was.
   */
  lemma TabSeparatedDeclarationKeepsItsName()
    ensures Classify("module\tfoo;\n", "foo") == Declaration
    ensures RewriteLine("module\tfoo;\n", "foo", "bar") == "module\tfoo;\n"
  {
    var line := "module\tfoo;\n";
    TabSeparatedIsDeclaration();
    assert Classify(line, "foo") == Declaration;
    DeclarationLineRewrite(line, "foo", "bar");
    assert "module " + "foo" == "module foo" && "module " + "bar" == "module bar";
    TabSeparatedHasNoSpacedName();
    ReplaceAbsent(line, "module foo", "module bar");
  }

  // ---------------------------------------------------------------------------
  // The whole operation on the filesystem
  // ---------------------------------------------------------------------------

  datatype RenameOutcome =
    | FileNotFound            // reported, nothing read or written
    | IsADirectory            // open() raises
    | NoMatch                 // reported, the file is left alone
    | BackupIsADirectory      // the rename to the backup path raises
    | Renamed(backup: Path)

  /** `path.with_suffix(path.suffix + ".bak")`: the file name with `.bak` appended. */
  function BackupPath(p: Path): (b: Path)
    requires p != []
    ensures |b| == |p| && b != p && Parent(b) == Parent(p)
  {
    var b := Parent(p) + [Name(p) + ".bak"];
    assert |Name(b)| == |Name(p)| + 4;
    b
  }

  datatype RenameRun = RenameRun(outcome: RenameOutcome, nodes: map<Path, Node>)

  /** The lines `readlines()` returns for the file at `p`. */
  function LinesAt(m: map<Path, Node>, p: Path): seq<string>
    requires IsFileAt(m, p)
  {
    Lines(TranslateNewlines(m[p].content))
  }

  /** Some line of `lines` matches one of the two patterns. */
  ghost predicate SomeLineMatches(lines: seq<string>, oldName: string) {
    exists k :: 0 <= k < |lines| && (DeclPattern(lines[k], oldName) || ClosingPattern(lines[k], oldName))
  }

  /** What `rename_verilog_module(path, oldName, newName)` reports and leaves on disk. */
  function RenameEffect(m: map<Path, Node>, path: Path, oldName: string, newName: string): RenameRun
    requires WellFormed(m)
  {
    if path !in m then RenameRun(FileNotFound, m)
    else if m[path].Dir? then RenameRun(IsADirectory, m)
    else
      var lines := LinesAt(m, path);
      if !AnyMatch(lines, oldName) then RenameRun(NoMatch, m)
      else
        var b := BackupPath(path);
        if !RenameOk(m, path, b) then RenameRun(BackupIsADirectory, m)
        else RenameRun(Renamed(b), AfterRename(m, path, b)[path := File(Concat(RewriteLines(lines, oldName, newName)))])
  }

  /** The loop over the lines read: the rewritten lines and the `changed` flag. */
  method RewriteFileLines(lines: seq<string>, oldName: string, newName: string)
    returns (newLines: seq<string>, changed: bool)
    ensures newLines == RewriteLines(lines, oldName, newName)
    ensures changed == AnyMatch(lines, oldName)
  {
    changed := false;
    newLines := [];
    var i := 0;
    while i < |lines|
      invariant 0 <= i <= |lines|
      invariant newLines == RewriteLines(lines[..i], oldName, newName)
      invariant changed == AnyMatch(lines[..i], oldName)
    {
      var line := lines[i];
      match Classify(line, oldName) {
        case Declaration =>
          line := ReplaceAll(line, "module " + oldName, "module " + newName);
          changed := true;
        case ClosingMarker =>
          line := "endmodule // " + newName + "\n";
          changed := true;
        case Other =>
      }
      newLines := newLines + [line];
      assert lines[..i + 1][..i] == lines[..i];
      i := i + 1;
    }
    assert lines[..i] == lines;
  }

  method RenameVerilogModule(fs: FileSystem, path: Path, oldName: string, newName: string)
    returns (outcome: RenameOutcome)
    requires fs.Valid()
    modifies fs
    ensures fs.Valid()
    ensures RenameRun(outcome, fs.nodes) == RenameEffect(old(fs.nodes), path, oldName, newName)
  {
    var found := fs.Exists(path);
    if !found {
      return FileNotFound;
    }
    var isFile := fs.IsFile(path);
    if !isFile {
      return IsADirectory;
    }
    var lines := fs.ReadLines(path);
    var newLines, changed := RewriteFileLines(lines, oldName, newName);
    if !changed {
      return NoMatch;
    }
    var backup := BackupPath(path);
    ghost var m0 := fs.nodes;
    var renamed := fs.Rename(path, backup);
    if !renamed {
      return BackupIsADirectory;
    }
    ghost var m1 := fs.nodes;
    assert m1 == AfterRename(m0, path, backup);
    var written := fs.WriteText(path, Concat(newLines));
    assert written;
    outcome := Renamed(backup);
  }

  /**
   * The outcome a run reports is decided by the file, the patterns and the
   * backup target, and every outcome but a rename leaves the filesystem as it was.
   */
  lemma RenameOutcomeCases(m: map<Path, Node>, path: Path, oldName: string, newName: string)
    requires WellFormed(m)
    ensures var r := RenameEffect(m, path, oldName, newName);
      && (r.outcome == FileNotFound <==> path !in m)
      && (r.outcome == IsADirectory <==> IsDirAt(m, path))
      && (r.outcome == NoMatch <==> IsFileAt(m, path) && !SomeLineMatches(LinesAt(m, path), oldName))
      && (r.outcome == BackupIsADirectory <==>
            IsFileAt(m, path) && SomeLineMatches(LinesAt(m, path), oldName) && !RenameOk(m, path, BackupPath(path)))
      && (!r.outcome.Renamed? ==> r.nodes == m)
  {
    if IsFileAt(m, path) {
      AnyMatchIsSomeMatchingLine(LinesAt(m, path), oldName);
    }
  }

  /**
   * After a rename, the backup holds the original file byte for byte, the
   * original path holds the rewritten lines, nothing
   * else changed, and the tree is still well formed.
   */
  lemma RenamedResult(m: map<Path, Node>, path: Path, oldName: string, newName: string)
    requires WellFormed(m)
    requires RenameEffect(m, path, oldName, newName).outcome.Renamed?
    ensures IsFileAt(m, path) && SomeLineMatches(LinesAt(m, path), oldName)
    ensures var r := RenameEffect(m, path, oldName, newName);
      var b := BackupPath(path);
      var lines := LinesAt(m, path);
      && r.outcome.backup == b
      && b in r.nodes && r.nodes[b] == m[path]
      && path in r.nodes && r.nodes[path] == File(Concat(RewriteLines(lines, oldName, newName)))
      && (forall q :: q != path && q != b ==> Lookup(r.nodes, q) == Lookup(m, q))
      && WellFormed(r.nodes)
  {
    var b := BackupPath(path);
    var lines := LinesAt(m, path);
    assert IsFileAt(m, path) && AnyMatch(lines, oldName) && RenameOk(m, path, b);
    AnyMatchIsSomeMatchingLine(lines, oldName);
    var m1 := AfterRename(m, path, b);
    var text := Concat(RewriteLines(lines, oldName, newName));
    var m2 := m1[path := File(text)];
    assert RenameEffect(m, path, oldName, newName) == RenameRun(Renamed(b), m2);
    forall q | q != path && q != b ensures Lookup(m2, q) == Lookup(m, q) {
      assert q in m2 <==> q in m;
    }
    RenameKeepsWellFormed(m, path, b);
    assert WriteOk(m1, path);
    WriteFileKeepsWellFormed(m1, path, text);
  }

  // ---------------------------------------------------------------------------
  // Command line
  // ---------------------------------------------------------------------------

  datatype CliResult = Usage | Ran(outcome: RenameOutcome)

  /**
   * `rename_module.py FILE OLD NEW`: anything but exactly three arguments
   * prints the usage and exits with status 1 without touching the filesystem.
   */
  method RunCli(fs: FileSystem, argv: seq<string>) returns (result: CliResult)
    requires fs.Valid()
    modifies fs
    ensures fs.Valid()
    ensures result == Usage <==> |argv| != 4
    ensures |argv| != 4 ==> fs.nodes == old(fs.nodes)
    ensures |argv| == 4 ==>
      RenameRun(result.outcome, fs.nodes) == RenameEffect(old(fs.nodes), ParsePath(argv[1]), argv[2], argv[3])
  {
    if |argv| != 4 {
      return Usage;
    }
    var outcome := RenameVerilogModule(fs, ParsePath(argv[1]), argv[2], argv[3]);
    result := Ran(outcome);
  }
}
