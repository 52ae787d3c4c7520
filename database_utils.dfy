/** Database helpers: the line-based SQL script runner, media-path
    resolution under the project root, file URLs and the default connection
    name. The database engine is an oracle: `failing` is the set of
    statement texts whose execution fails. */
module DatabaseUtils {
  import opened Options
  import opened Text

  // ---------------------------------------------------------------------------
  // Script splitting

  /** A script file as the runner finds it; `lines` are the lines as read,
      without their terminators. */
  datatype ScriptFile = Missing | Unopenable | Readable(lines: seq<string>)

  /** How the runner treats a line: skipped as a comment, appended and
      completing a statement, or appended and continuing one. */
  datatype LineKind = Comment | Completes | Continues

  /** A line whose trimmed text starts with "--" or "//" is a comment;
      otherwise a trimmed text ending in ';' completes a statement. */
  function KindOf(line: string): (k: LineKind)
    ensures k == Comment <==> StartsWith(Trim(line), "--") || StartsWith(Trim(line), "//")
    ensures k == Completes <==>
              !StartsWith(Trim(line), "--") && !StartsWith(Trim(line), "//") && EndsWith(Trim(line), ";")
  {
    var trimmed := Trim(line);
    if StartsWith(trimmed, "--") || StartsWith(trimmed, "//") then Comment
    else if EndsWith(trimmed, ";") then Completes
    else Continues
  }

  /** A completing line is never blank. */
  lemma CompletingLineNotBlank(line: string)
    requires KindOf(line) == Completes
    ensures !IsQtBlank(line)
  {
    assert Trim(line) != [];
  }

  datatype ScriptLine = ScriptLine(text: string, kind: LineKind)

  /** Every line paired with its kind. */
  function Classify(lines: seq<string>): (r: seq<ScriptLine>)
    ensures |r| == |lines|
    ensures forall k :: 0 <= k < |lines| ==> r[k] == ScriptLine(lines[k], KindOf(lines[k]))
  {
    seq(|lines|, k requires 0 <= k < |lines| => ScriptLine(lines[k], KindOf(lines[k])))
  }

  /** The statements the runner hands to the database, in order, when it
      reads `lines` with `pending` accumulated so far: each kept line is
      appended with a '\n', a statement is flushed at a completing line, and
      non-blank leftover text is one last statement. */
  function SplitFrom(lines: seq<ScriptLine>, pending: string): seq<string>
    decreases |lines|
  {
    if lines == [] then (if IsQtBlank(pending) then [] else [pending])
    else
      match lines[0].kind
      case Comment => SplitFrom(lines[1..], pending)
      case Completes => [pending + lines[0].text + "\n"] + SplitFrom(lines[1..], "")
      case Continues => SplitFrom(lines[1..], pending + lines[0].text + "\n")
  }

  function SplitStatements(lines: seq<string>): seq<string> {
    SplitFrom(Classify(lines), "")
  }

  /** One step of the splitter on the line in front. */
  lemma SplitFromCons(x: ScriptLine, tail: seq<ScriptLine>, pending: string)
    ensures SplitFrom([x] + tail, pending)
         == match x.kind
            case Comment => SplitFrom(tail, pending)
            case Completes => [pending + x.text + "\n"] + SplitFrom(tail, "")
            case Continues => SplitFrom(tail, pending + x.text + "\n")
  {
    assert ([x] + tail)[0] == x;
    assert ([x] + tail)[1..] == tail;
  }

  /** Each line's text followed by '\n', concatenated. */
  function JoinLines(lines: seq<ScriptLine>): (r: string)
    ensures |r| >= |lines|
  {
    if lines == [] then "" else lines[0].text + "\n" + JoinLines(lines[1..])
  }

  lemma JoinLinesCons(x: ScriptLine, tail: seq<ScriptLine>)
    ensures JoinLines([x] + tail) == x.text + "\n" + JoinLines(tail)
  {
    assert ([x] + tail)[0] == x;
    assert ([x] + tail)[1..] == tail;
  }

  /** Lines that are all appended without completing a statement. */
  predicate OpenLines(lines: seq<ScriptLine>) {
    forall k :: 0 <= k < |lines| ==> lines[k].kind == Continues
  }

  lemma AppendLineAssoc(pending: string, line: string, more: string)
    ensures pending + line + "\n" + more == (pending + line + "\n") + more
    ensures pending + line + "\n" + more == pending + (line + "\n" + more)
  {
  }

  /** A comment line contributes nothing wherever it stands. */
  lemma {:induction false} CommentLineIgnored(before: seq<ScriptLine>, comment: ScriptLine,
                                              after: seq<ScriptLine>, pending: string)
    requires comment.kind == Comment
    ensures SplitFrom(before + [comment] + after, pending) == SplitFrom(before + after, pending)
    decreases |before|
  {
    if before == [] {
      assert before + [comment] + after == [comment] + after;
      SplitFromCons(comment, after, pending);
      assert before + after == after;
    } else {
      var x := before[0];
      assert before + [comment] + after == [x] + (before[1..] + [comment] + after);
      assert before + after == [x] + (before[1..] + after);
      SplitFromCons(x, before[1..] + [comment] + after, pending);
      SplitFromCons(x, before[1..] + after, pending);
      match x.kind
      case Comment => CommentLineIgnored(before[1..], comment, after, pending);
      case Completes => CommentLineIgnored(before[1..], comment, after, "");
      case Continues => CommentLineIgnored(before[1..], comment, after, pending + x.text + "\n");
    }
  }

  lemma FlushLastLine(last: ScriptLine, rest: seq<ScriptLine>, pending: string)
    requires last.kind == Completes
    ensures SplitFrom([last] + rest, pending) == [pending + JoinLines([last])] + SplitFrom(rest, "")
  {
    SplitFromCons(last, rest, pending);
    JoinLinesCons(last, []);
    AppendLineAssoc(pending, last.text, "");
    assert pending + JoinLines([last]) == pending + last.text + "\n";
  }

  lemma FlushAfterOpenLine(x: ScriptLine, open': seq<ScriptLine>, last: ScriptLine,
                           rest: seq<ScriptLine>, pending: string)
    requires x.kind == Continues
    requires SplitFrom(open' + [last] + rest, pending + x.text + "\n")
             == [pending + x.text + "\n" + JoinLines(open' + [last])] + SplitFrom(rest, "")
    ensures SplitFrom([x] + open' + [last] + rest, pending)
            == [pending + JoinLines([x] + open' + [last])] + SplitFrom(rest, "")
  {
    var tail := open' + [last] + rest;
    assert [x] + open' + [last] + rest == [x] + tail;
    SplitFromCons(x, tail, pending);
    assert [x] + open' + [last] == [x] + (open' + [last]);
    JoinLinesCons(x, open' + [last]);
    AppendLineAssoc(pending, x.text, JoinLines(open' + [last]));
  }

  /** Open lines followed by a completing line are flushed as one statement:
      the pending text and each line followed by '\n'. */
  lemma {:induction false} FlushAtSemicolon(open: seq<ScriptLine>, last: ScriptLine,
                                            rest: seq<ScriptLine>, pending: string)
    requires OpenLines(open)
    requires last.kind == Completes
    ensures SplitFrom(open + [last] + rest, pending) == [pending + JoinLines(open + [last])] + SplitFrom(rest, "")
    decreases |open|
  {
    if open == [] {
      assert open + [last] + rest == [last] + rest;
      assert open + [last] == [last];
      FlushLastLine(last, rest, pending);
    } else {
      var x := open[0];
      assert OpenLines(open[1..]);
      FlushAtSemicolon(open[1..], last, rest, pending + x.text + "\n");
      FlushAfterOpenLine(x, open[1..], last, rest, pending);
      assert open == [x] + open[1..];
    }
  }

  /** Text left after the last line is run as a final statement exactly when
      it is not blank. */
  lemma {:induction false} LeftoverFlushed(open: seq<ScriptLine>, pending: string)
    requires OpenLines(open)
    ensures var text := pending + JoinLines(open);
            SplitFrom(open, pending) == if IsQtBlank(text) then [] else [text]
    decreases |open|
  {
    if open == [] {
      assert pending + JoinLines(open) == pending;
    } else {
      var x := open[0];
      assert open == [x] + open[1..];
      SplitFromCons(x, open[1..], pending);
      JoinLinesCons(x, open[1..]);
      assert OpenLines(open[1..]);
      LeftoverFlushed(open[1..], pending + x.text + "\n");
      AppendLineAssoc(pending, x.text, JoinLines(open[1..]));
    }
  }

  /** Appending a line that is not blank gives text that is not blank. */
  lemma NotBlankAfterAppend(pending: string, line: string)
    requires !IsQtBlank(line)
    ensures !IsQtBlank(pending + line + "\n")
  {
    var j :| 0 <= j < |line| && !IsQtSpace(line[j]);
    assert (pending + line + "\n")[|pending| + j] == line[j];
  }

  /** Every completing line has some text that is not blank. */
  predicate CompletingNotBlank(lines: seq<ScriptLine>) {
    forall k :: 0 <= k < |lines| && lines[k].kind == Completes ==> !IsQtBlank(lines[k].text)
  }

  /** No statement in `stmts` is blank. */
  predicate NoneBlank(stmts: seq<string>) {
    forall k :: 0 <= k < |stmts| ==> !IsQtBlank(stmts[k])
  }

  /** Nothing blank is ever handed to `executeStatement` by the splitter. */
  lemma {:induction false} SplitNotBlank(lines: seq<ScriptLine>, pending: string)
    requires CompletingNotBlank(lines)
    ensures NoneBlank(SplitFrom(lines, pending))
    decreases |lines|
  {
    if lines == [] {
    } else {
      var x := lines[0];
      assert lines == [x] + lines[1..];
      SplitFromCons(x, lines[1..], pending);
      assert CompletingNotBlank(lines[1..]) by {
        forall k | 0 <= k < |lines[1..]| && lines[1..][k].kind == Completes
          ensures !IsQtBlank(lines[1..][k].text)
        {
          assert lines[1..][k] == lines[k + 1];
        }
      }
      if x.kind == Comment {
        SplitNotBlank(lines[1..], pending);
      } else if x.kind == Continues {
        SplitNotBlank(lines[1..], pending + x.text + "\n");
      } else {
        SplitNotBlank(lines[1..], "");
        NotBlankAfterAppend(pending, x.text);
        NoneBlankCons(pending + x.text + "\n", SplitFrom(lines[1..], ""));
      }
    }
  }

  lemma NoneBlankCons(first: string, rest: seq<string>)
    requires !IsQtBlank(first) && NoneBlank(rest)
    ensures NoneBlank([first] + rest)
  {
    forall k | 0 <= k < |[first] + rest| ensures !IsQtBlank(([first] + rest)[k]) {
      if k > 0 { assert ([first] + rest)[k] == rest[k - 1]; }
    }
  }

  lemma SplitStatementsNotBlank(lines: seq<string>)
    ensures forall k :: 0 <= k < |SplitStatements(lines)| ==> !IsQtBlank(SplitStatements(lines)[k])
  {
    var classified := Classify(lines);
    forall k | 0 <= k < |classified| && classified[k].kind == Completes
      ensures !IsQtBlank(classified[k].text)
    {
      CompletingLineNotBlank(classified[k].text);
    }
    assert SplitStatements(lines) == SplitFrom(classified, "");
    SplitNotBlank(Classify(lines), "");
  }

  // ---------------------------------------------------------------------------
  // Running statements

  /** What `executeStatement` runs: None for a blank statement, otherwise
      the trimmed text with one trailing ';' chopped. */
  function Prepared(stmt: string): (r: Option<string>)
    ensures r.None? <==> IsQtBlank(stmt)
    ensures r.Some? ==> Trim(stmt) == r.value + ";" || (Trim(stmt) == r.value && !EndsWith(Trim(stmt), ";"))
  {
    var t := Trim(stmt);
    if t == [] then None
    else if EndsWith(t, ";") then Some(t[..|t| - 1])
    else Some(t)
  }

  function PrepareAll(stmts: seq<string>): (r: seq<Option<string>>)
    ensures |r| == |stmts|
  {
    if stmts == [] then [] else [Prepared(stmts[0])] + PrepareAll(stmts[1..])
  }

  /** One statement: a blank one succeeds without reaching the database;
      otherwise its prepared text is executed. Returns the success flag and
      what was executed. */
  function Step(p: Option<string>, failing: set<string>): (bool, seq<string>) {
    match p
    case None => (true, [])
    case Some(q) => (q !in failing, [q])
  }

  /** `executeStatement`. */
  function ExecuteStatement(stmt: string, failing: set<string>): (r: (bool, seq<string>))
    ensures IsQtBlank(stmt) ==> r == (true, [])
    ensures !IsQtBlank(stmt) ==> r.1 == [Prepared(stmt).value] && (r.0 <==> Prepared(stmt).value !in failing)
  {
    Step(Prepared(stmt), failing)
  }

  /** Runs prepared statements in order and stops at the first failure;
      returns the success flag and the texts executed, the failing one
      included. */
  function RunPrepared(ps: seq<Option<string>>, failing: set<string>): (bool, seq<string>)
    decreases |ps|
  {
    if ps == [] then (true, [])
    else
      var e := Step(ps[0], failing);
      if !e.0 then (false, e.1)
      else
        var rest := RunPrepared(ps[1..], failing);
        (rest.0, e.1 + rest.1)
  }

  function RunStatements(stmts: seq<string>, failing: set<string>): (bool, seq<string>) {
    RunPrepared(PrepareAll(stmts), failing)
  }

  /** The texts that reach the database when nothing fails. */
  function Executable(ps: seq<Option<string>>): seq<string>
    decreases |ps|
  {
    if ps == [] then [] else (if ps[0].Some? then [ps[0].value] else []) + Executable(ps[1..])
  }

  lemma RunPreparedCons(p: Option<string>, tail: seq<Option<string>>, failing: set<string>)
    ensures var e := Step(p, failing);
            var rest := RunPrepared(tail, failing);
            RunPrepared([p] + tail, failing) == if !e.0 then (false, e.1) else (rest.0, e.1 + rest.1)
    ensures Executable([p] + tail) == Step(p, failing).1 + Executable(tail)
  {
    assert ([p] + tail)[0] == p;
    assert ([p] + tail)[1..] == tail;
  }

  /** The run succeeds exactly when no executable statement fails; it
      executes a prefix of them, all but the last successfully, and a failed
      run ends with the statement that failed. */
  lemma {:induction false} RunStopsAtFirstFailure(ps: seq<Option<string>>, failing: set<string>)
    ensures var r := RunPrepared(ps, failing);
            && (r.0 <==> forall q :: q in Executable(ps) ==> q !in failing)
            && |r.1| <= |Executable(ps)| && r.1 == Executable(ps)[..|r.1|]
            && (r.0 ==> r.1 == Executable(ps))
            && (!r.0 ==> r.1 != [] && r.1[|r.1| - 1] in failing)
            && (forall k :: 0 <= k < |r.1| - 1 ==> r.1[k] !in failing)
    decreases |ps|
  {
    if ps != [] {
      var p, tail := ps[0], ps[1..];
      assert ps == [p] + tail;
      RunStopsAtFirstFailure(tail, failing);
      RunPreparedCons(p, tail, failing);
      var e := Step(p, failing);
      var rest := RunPrepared(tail, failing);
      var all := Executable(tail);
      if e.0 {
        assert forall q :: q in e.1 ==> q !in failing;
        assert (e.1 + all)[..|e.1 + rest.1|] == e.1 + all[..|rest.1|];
        forall q | q in e.1 + all
          ensures q in e.1 || q in all
        {
        }
      }
    }
  }

  /** A script of statements that all succeed is run completely. */
  lemma ScriptSucceeds(lines: seq<string>, failing: set<string>)
    requires var ps := PrepareAll(SplitStatements(lines)); forall q :: q in Executable(ps) ==> q !in failing
    ensures RunStatements(SplitStatements(lines), failing) == (true, Executable(PrepareAll(SplitStatements(lines))))
  {
    RunStopsAtFirstFailure(PrepareAll(SplitStatements(lines)), failing);
  }

  lemma RunStatementsCons(stmt: string, tail: seq<string>, failing: set<string>)
    ensures var e := ExecuteStatement(stmt, failing);
            var rest := RunStatements(tail, failing);
            RunStatements([stmt] + tail, failing) == if !e.0 then (false, e.1) else (rest.0, e.1 + rest.1)
  {
    assert ([stmt] + tail)[0] == stmt;
    assert ([stmt] + tail)[1..] == tail;
    assert PrepareAll([stmt] + tail) == [Prepared(stmt)] + PrepareAll(tail);
    RunPreparedCons(Prepared(stmt), PrepareAll(tail), failing);
  }

  /** The outcome of the rest of a script read from line `i` on, with
      `statement` accumulated, after `executed` has already run. */
  function Outcome(classified: seq<ScriptLine>, i: nat, statement: string, executed: seq<string>,
                   failing: set<string>): (bool, seq<string>)
    requires i <= |classified|
  {
    var r := RunStatements(SplitFrom(classified[i..], statement), failing);
    (r.0, executed + r.1)
  }

  /** Reading one more line: a comment or a continuing line changes only the
      pending text; a completing line runs the statement it completes. */
  lemma OutcomeStep(classified: seq<ScriptLine>, i: nat, statement: string, executed: seq<string>,
                    failing: set<string>)
    requires i < |classified|
    ensures var x := classified[i];
            var acc := statement + x.text + "\n";
            var e := ExecuteStatement(acc, failing);
            Outcome(classified, i, statement, executed, failing)
            == match x.kind
               case Comment => Outcome(classified, i + 1, statement, executed, failing)
               case Continues => Outcome(classified, i + 1, acc, executed, failing)
               case Completes =>
                 if !e.0 then (false, executed + e.1)
                 else Outcome(classified, i + 1, "", executed + e.1, failing)
  {
    var x := classified[i];
    assert classified[i..] == [x] + classified[i + 1..];
    SplitFromCons(x, classified[i + 1..], statement);
    if x.kind == Completes {
      OutcomeCompletes(classified, i, statement, executed, failing);
    }
  }

  /** The completing case of `OutcomeStep`. */
  lemma OutcomeCompletes(classified: seq<ScriptLine>, i: nat, statement: string, executed: seq<string>,
                         failing: set<string>)
    requires i < |classified|
    requires SplitFrom(classified[i..], statement)
             == [statement + classified[i].text + "\n"] + SplitFrom(classified[i + 1..], "")
    ensures var e := ExecuteStatement(statement + classified[i].text + "\n", failing);
            Outcome(classified, i, statement, executed, failing)
            == if !e.0 then (false, executed + e.1)
               else Outcome(classified, i + 1, "", executed + e.1, failing)
  {
    var acc := statement + classified[i].text + "\n";
    var tail := SplitFrom(classified[i + 1..], "");
    RunStatementsCons(acc, tail, failing);
    var e := ExecuteStatement(acc, failing);
    var rest := RunStatements(tail, failing);
    assert executed + (e.1 + rest.1) == executed + e.1 + rest.1;
  }

  /** At the end of the file only the leftover text remains. */
  lemma OutcomeAtEnd(classified: seq<ScriptLine>, statement: string, executed: seq<string>, failing: set<string>)
    ensures var e := ExecuteStatement(statement, failing);
            Outcome(classified, |classified|, statement, executed, failing)
            == if IsQtBlank(statement) then (true, executed) else (e.0, executed + e.1)
  {
    assert classified[|classified|..] == [];
    assert RunStatements([], failing) == (true, []);
    if !IsQtBlank(statement) {
      RunStatementsCons(statement, [], failing);
      assert [statement] + [] == [statement];
      var e := ExecuteStatement(statement, failing);
      assert e.1 + [] == e.1;
    }
    assert executed + [] == executed;
  }

  /** Whether `QString::trimmed` leaves nothing of `s`. */
  method TrimmedIsEmpty(s: string) returns (empty: bool)
    ensures empty <==> IsQtBlank(s)
  {
    empty := Trim(s) == [];
  }

  /** `executeSqlScript`: false for a missing or unopenable file; otherwise
      reads line by line, flushing each completed statement to the database
      and stopping at the first failure, then runs the leftover text. */
  method ExecuteSqlScript(file: ScriptFile, failing: set<string>) returns (ok: bool, executed: seq<string>)
    ensures !file.Readable? ==> !ok && executed == []
    ensures file.Readable? ==> (ok, executed) == RunStatements(SplitStatements(file.lines), failing)
  {
    if !file.Readable? {
      return false, [];
    }
    var lines := file.lines;
    ghost var classified := Classify(lines);
    var statement := "";
    executed := [];
    var i := 0;
    assert classified[0..] == classified;
    assert [] + RunStatements(SplitStatements(lines), failing).1 == RunStatements(SplitStatements(lines), failing).1;
    assert Outcome(classified, 0, statement, executed, failing) == RunStatements(SplitStatements(lines), failing);
    while i < |lines|
      invariant 0 <= i <= |lines|
      invariant Outcome(classified, i, statement, executed, failing) == RunStatements(SplitStatements(lines), failing)
    {
      var line := lines[i];
      var kind := KindOf(line);
      OutcomeStep(classified, i, statement, executed, failing);
      assert classified[i] == ScriptLine(line, kind);
      if kind == Comment {
        i := i + 1;
        continue;
      }
      statement := statement + line + "\n";
      if kind == Completes {
        var e := ExecuteStatement(statement, failing);
        executed := executed + e.1;
        if !e.0 {
          return false, executed;
        }
        statement := "";
      }
      i := i + 1;
    }
    OutcomeAtEnd(classified, statement, executed, failing);
    var blank := TrimmedIsEmpty(statement);
    if !blank {
      var e := ExecuteStatement(statement, failing);
      executed := executed + e.1;
      if !e.0 {
        return false, executed;
      }
    }
    ok := true;
  }

  // ---------------------------------------------------------------------------
  // Media paths

  predicate IsDriveLetter(c: char) { 'A' <= c <= 'Z' || 'a' <= c <= 'z' }

  /** `QDir::isAbsolutePath`, taken over both platforms: a leading '/', a
      Qt resource path (':'), or a drive root such as "C:/" or "C:\". */
  predicate IsAbsolutePath(p: string) {
    (|p| > 0 && (p[0] == '/' || p[0] == ':'))
    || (|p| >= 3 && IsDriveLetter(p[0]) && p[1] == ':' && (p[2] == '/' || p[2] == '\\'))
  }

  /** `QDir(dir).filePath(name)` for a relative `name`. */
  function JoinPath(dir: string, name: string): (r: string)
    ensures StartsWith(r, dir) && EndsWith(r, name)
  {
    if dir != [] && dir[|dir| - 1] == '/' then dir + name else dir + "/" + name
  }

  /** `toAbsoluteMediaPath` with the project root passed in: "" stays "", an
      absolute path is returned as is, and a relative one is joined under
      `<root>/FinalProject`. */
  function ToAbsoluteMediaPath(relativePath: string, root: string): (r: string)
    ensures relativePath == [] ==> r == []
    ensures IsAbsolutePath(relativePath) ==> r == relativePath
    ensures relativePath != [] && !IsAbsolutePath(relativePath) ==>
              r == JoinPath(JoinPath(root, "FinalProject"), relativePath)
  {
    if relativePath == [] then []
    else if IsAbsolutePath(relativePath) then relativePath
    else JoinPath(JoinPath(root, "FinalProject"), relativePath)
  }

  /** Resolving twice is resolving once, given an absolute root. */
  lemma ToAbsoluteIdempotent(p: string, root: string)
    requires IsAbsolutePath(root)
    ensures ToAbsoluteMediaPath(ToAbsoluteMediaPath(p, root), root) == ToAbsoluteMediaPath(p, root)
  {
    var a := ToAbsoluteMediaPath(p, root);
    if p != [] && !IsAbsolutePath(p) {
      var base := JoinPath(root, "FinalProject");
      assert base[..|root|] == root;
      assert a[..|base|] == base;
      assert a[0] == root[0] && a[1] == base[1] && a[2] == base[2];
      assert |root| >= 3 ==> a[1] == root[1] && a[2] == root[2];
    }
  }

  const FileScheme := "file://"

  /** `toFileUrl`: "" for "", otherwise the file URL of the resolved path
      (a drive path gains the '/' that `QUrl::fromLocalFile` puts before it). */
  function ToFileUrl(relativePath: string, root: string): string {
    var absolute := ToAbsoluteMediaPath(relativePath, root);
    if absolute == [] then []
    else FileScheme + (if absolute[0] == '/' then absolute else "/" + absolute)
  }

  /** The URL is empty exactly for an empty path; otherwise it is the
      scheme followed by an absolute path. */
  lemma FileUrlShape(relativePath: string, root: string)
    ensures ToFileUrl(relativePath, root) == [] <==> relativePath == []
    ensures relativePath != [] ==> StartsWith(ToFileUrl(relativePath, root), FileScheme + "/")
  {
    var url := ToFileUrl(relativePath, root);
    if relativePath != [] {
      var absolute := ToAbsoluteMediaPath(relativePath, root);
      var path := if absolute[0] == '/' then absolute else "/" + absolute;
      assert url == FileScheme + path && path[0] == '/';
      assert url[..|FileScheme| + 1] == FileScheme + [path[0]];
    }
  }

  /** A path that starts like "C:". */
  predicate StartsWithDrive(p: string) {
    |p| >= 2 && IsDriveLetter(p[0]) && p[1] == ':'
  }

  /** Reading a file URL back (`QUrl::toLocalFile`): the text after the
      scheme, less the '/' in front of a drive letter. */
  function LocalPathOf(url: string): (r: string)
    ensures StartsWith(url, FileScheme) ==> |r| < |url|
  {
    if !StartsWith(url, FileScheme) then url
    else
      var path := url[|FileScheme|..];
      if |path| > 0 && path[0] == '/' && StartsWithDrive(path[1..]) then path[1..] else path
  }

  /** The URL of a Unix path or of a drive path reads back as that path. */
  lemma FileUrlRoundTrip(relativePath: string, root: string)
    requires relativePath != []
    requires var a := ToAbsoluteMediaPath(relativePath, root);
             if a[0] == '/' then !StartsWithDrive(a[1..]) else StartsWithDrive(a)
    ensures LocalPathOf(ToFileUrl(relativePath, root)) == ToAbsoluteMediaPath(relativePath, root)
  {
    var a := ToAbsoluteMediaPath(relativePath, root);
    var url := ToFileUrl(relativePath, root);
    FileUrlShape(relativePath, root);
    assert StartsWith(url, FileScheme) by {
      assert url[..|FileScheme|] == (url[..|FileScheme| + 1])[..|FileScheme|];
    }
    if a[0] == '/' {
      assert url[|FileScheme|..] == a;
    } else {
      assert url[|FileScheme|..] == "/" + a;
      assert ("/" + a)[1..] == a;
    }
  }

  // ---------------------------------------------------------------------------
  // Connections

  const DefaultConnectionName := "nebula-shared"

  /** `openDatabase`'s choice of connection name. */
  function ConnectionName(requested: string): (r: string)
    ensures r != []
    ensures requested != [] ==> r == requested
    ensures requested == [] ==> r == DefaultConnectionName
  {
    if requested == [] then DefaultConnectionName else requested
  }
}
