/**
 * The end of an audit run (src/handlers/handleFinish.ts:13-89): given what
 * the analysis of the audit JSON produced, print the report, save the JSON
 * artifact, report unused exceptions and end the process with the verdict.
 *
 * Console output, the file system and process exit are not performed; each
 * becomes an effect appended to a trace, and the outcome of the file-system
 * calls is an input.
 */
module HandleFinish {
  import opened ReportJson

  /** What the analysis of the audit JSON hands over. */
  datatype ProcessResult = ProcessResult(
    unhandledIds: seq<string>,
    report: seq<Row>,
    failed: bool,
    unusedExceptionIds: seq<string>,
    unusedExceptionModules: seq<string>)

  /** How the file system answers while the artifact is saved. */
  datatype SaveEnv = SaveEnv(
    dirExists: bool,    // the report directory is already there
    mkdirFails: bool,   // creating the directory throws
    writeFails: bool)   // writing the file throws

  /** The directory the artifact goes to, and the artifact's file. */
  const REPORT_DIR: string := ".sast"
  const REPORT_FILE: string := ".sast/better_npm_report.json"

  /** Exit codes of the process. */
  const EXIT_OK: int := 0
  const EXIT_FAILED: int := 1

  /** The lines the run prints. */
  datatype Message =
    | CannotProcessJson                                   // the audit JSON could not be analysed
    | ExportFailed                                        // saving the artifact threw
    | VulnerabilitiesFound(count: nat, advisories: seq<string>)
    | AllGood

  /** One observable step of a run. */
  datatype Effect =
    | ErrorLine(message: Message)                         // a line on standard error
    | InfoLine(message: Message)                          // a line on standard output
    | PrintSecurityReport(rows: seq<Row>)                 // the coloured table
    | MakeDir(dir: string)
    | WriteFile(file: string, entries: seq<ReportEntry>)  // the JSON array of records
    | ReportUnusedExceptions(ids: seq<string>, modules: seq<string>)
    | Exit(code: int)

  // ---------------------------------------------------------------------
  // Saving the artifact (lines 80-89).

  /** The directory can be used: it was there or it was created. */
  predicate DirReady(env: SaveEnv) {
    env.dirExists || !env.mkdirFails
  }

  /**
   * What a save does: call mkdir when the directory is missing, then call
   * the file write if the directory is usable; a call stays in the trace
   * even when it throws, and any thrown error becomes one line on standard
   * error and ends the save, never the run.
   */
  function SaveEffects(entries: seq<ReportEntry>, env: SaveEnv): seq<Effect> {
    (if env.dirExists then [] else [MakeDir(REPORT_DIR)])
    + (if !DirReady(env) then [ErrorLine(ExportFailed)]
       else [WriteFile(REPORT_FILE, entries)] + (if env.writeFails then [ErrorLine(ExportFailed)] else []))
  }

  method SaveJsonReport(entries: seq<ReportEntry>, env: SaveEnv) returns (effects: seq<Effect>)
    ensures effects == SaveEffects(entries, env)
  {
    effects := [];
    if !env.dirExists {
      effects := effects + [MakeDir(REPORT_DIR)];
      if env.mkdirFails {
        effects := effects + [ErrorLine(ExportFailed)];
        return;
      }
    }
    effects := effects + [WriteFile(REPORT_FILE, entries)];
    if env.writeFails {
      effects := effects + [ErrorLine(ExportFailed)];
    }
  }

  // ---------------------------------------------------------------------
  // Reading a trace.

  /** The contents passed to file-write calls, in order, whether or not the call threw. */
  function Writes(t: seq<Effect>): seq<seq<ReportEntry>> {
    if t == [] then []
    else if t[0].WriteFile? then [t[0].entries] + Writes(t[1..])
    else Writes(t[1..])
  }

  /** The files a write call was made for, in order. */
  function WrittenFiles(t: seq<Effect>): seq<string> {
    if t == [] then []
    else if t[0].WriteFile? then [t[0].file] + WrittenFiles(t[1..])
    else WrittenFiles(t[1..])
  }

  lemma {:induction false} WritesAppend(a: seq<Effect>, b: seq<Effect>)
    ensures Writes(a + b) == Writes(a) + Writes(b)
    ensures WrittenFiles(a + b) == WrittenFiles(a) + WrittenFiles(b)
    decreases |a|
  {
    if a == [] {
      assert a + b == b;
    } else {
      assert (a + b)[0] == a[0];
      assert (a + b)[1..] == a[1..] + b;
      WritesAppend(a[1..], b);
    }
  }

  lemma {:induction false} NoWrites(t: seq<Effect>)
    requires forall i :: 0 <= i < |t| ==> !t[i].WriteFile?
    ensures Writes(t) == [] && WrittenFiles(t) == []
    decreases |t|
  {
    if t != [] {
      NoWrites(t[1..]);
    }
  }

  /**
   * The contents that reached a file, in order: a write call counts unless
   * the step right after it is the error line its throw produces.
   */
  function Stored(t: seq<Effect>): seq<seq<ReportEntry>> {
    if t == [] then []
    else if t[0].WriteFile? && !(|t| > 1 && t[1] == ErrorLine(ExportFailed))
    then [t[0].entries] + Stored(t[1..])
    else Stored(t[1..])
  }

  /** A write at the end of `a` cannot be undone by `b` unless `b` starts with the export error. */
  predicate Separate(a: seq<Effect>, b: seq<Effect>) {
    a == [] || b == [] || !a[|a| - 1].WriteFile? || b[0] != ErrorLine(ExportFailed)
  }

  lemma {:induction false} StoredAppend(a: seq<Effect>, b: seq<Effect>)
    requires Separate(a, b)
    ensures Stored(a + b) == Stored(a) + Stored(b)
    decreases |a|
  {
    if a == [] {
      assert a + b == b;
    } else if |a| == 1 {
      assert a + b == [a[0]] + b;
      assert Stored(a) == (if a[0].WriteFile? then [a[0].entries] else []);
    } else {
      var c := a + b;
      assert c[1..] == a[1..] + b;
      assert c[0] == a[0] && c[1] == a[1];
      assert a[1..][|a[1..]| - 1] == a[|a| - 1];
      StoredAppend(a[1..], b);
    }
  }

  lemma {:induction false} NoStores(t: seq<Effect>)
    requires forall i :: 0 <= i < |t| ==> !t[i].WriteFile?
    ensures Stored(t) == []
    decreases |t|
  {
    if t != [] {
      NoStores(t[1..]);
    }
  }

  /** No step of `t` ends the process or reports unused exceptions. */
  predicate Quiet(t: seq<Effect>) {
    forall i :: 0 <= i < |t| ==> !t[i].Exit? && !t[i].ReportUnusedExceptions?
  }

  /** A save never ends the process and never reports unused exceptions. */
  lemma SaveIsQuiet(entries: seq<ReportEntry>, env: SaveEnv)
    ensures Quiet(SaveEffects(entries, env))
  {
  }

  /**
   * A save calls the file write for the report file exactly once, with the
   * artifact, when the directory is usable and not at all otherwise; the
   * artifact reaches the file exactly when that call does not throw; the
   * save never ends the process and never reports unused exceptions; it
   * logs a failure exactly when a file-system call threw.
   */
  lemma SaveWritesOnce(entries: seq<ReportEntry>, env: SaveEnv)
    ensures Writes(SaveEffects(entries, env)) == (if DirReady(env) then [entries] else [])
    ensures WrittenFiles(SaveEffects(entries, env)) == (if DirReady(env) then [REPORT_FILE] else [])
    ensures Quiet(SaveEffects(entries, env))
    ensures ErrorLine(ExportFailed) in SaveEffects(entries, env) <==> !DirReady(env) || env.writeFails
    ensures Stored(SaveEffects(entries, env)) == (if DirReady(env) && !env.writeFails then [entries] else [])
  {
    var t := SaveEffects(entries, env);
    var mk: seq<Effect> := if env.dirExists then [] else [MakeDir(REPORT_DIR)];
    var err: seq<Effect> := if env.writeFails then [ErrorLine(ExportFailed)] else [];
    if DirReady(env) {
      assert t == mk + ([WriteFile(REPORT_FILE, entries)] + err);
      WritesAppend(mk, [WriteFile(REPORT_FILE, entries)] + err);
      WritesAppend([WriteFile(REPORT_FILE, entries)], err);
      StoredAppend(mk, [WriteFile(REPORT_FILE, entries)] + err);
      assert Stored(mk) == [];
      if env.writeFails {
        assert Stored([WriteFile(REPORT_FILE, entries)] + err) == Stored(err);
      }
    } else {
      assert t == mk + [ErrorLine(ExportFailed)];
      WritesAppend(mk, [ErrorLine(ExportFailed)]);
    }
  }

  // ---------------------------------------------------------------------
  // The run (lines 13-74).

  /** The verdict: failure when the audit JSON could not be analysed or a vulnerability is unhandled. */
  function ExitCode(result: ProcessResult): (code: int)
    ensures code == EXIT_FAILED <==> result.failed || |result.unhandledIds| > 0
    ensures code == EXIT_OK <==> !result.failed && result.unhandledIds == []
  {
    if result.failed || |result.unhandledIds| > 0 then EXIT_FAILED else EXIT_OK
  }

  /** The last line printed before a successful analysis exits. */
  function VerdictLine(result: ProcessResult): Effect {
    if |result.unhandledIds| > 0
    then ErrorLine(VulnerabilitiesFound(|result.unhandledIds|, result.unhandledIds))
    else InfoLine(AllGood)
  }

  /** The coloured table, printed only for a non-empty report (lines 30-31). */
  function Display(report: seq<Row>): seq<Effect> {
    if |report| > 0 then [PrintSecurityReport(report)] else []
  }

  /** What follows the save: unused exceptions, the verdict line, the exit (lines 61-73). */
  function Closing(result: ProcessResult): seq<Effect> {
    [ReportUnusedExceptions(result.unusedExceptionIds, result.unusedExceptionModules),
     VerdictLine(result),
     Exit(ExitCode(result))]
  }

  /**
   * The steps of a run: when the analysis failed, one error line and exit;
   * otherwise the table, the save of the artifact, and the closing steps.
   */
  function FinishTrace(result: ProcessResult, env: SaveEnv): seq<Effect> {
    if result.failed then
      [ErrorLine(CannotProcessJson), Exit(EXIT_FAILED)]
    else
      Display(result.report) + SaveEffects(ReportArtifact(result.report), env) + Closing(result)
  }

  method Finish(result: ProcessResult, env: SaveEnv) returns (code: int, trace: seq<Effect>)
    ensures code == ExitCode(result)
    ensures trace == FinishTrace(result, env)
  {
    trace := [];
    if result.failed {
      trace := trace + [ErrorLine(CannotProcessJson)];
      code := EXIT_FAILED;
      trace := trace + [Exit(code)];
      return;
    }

    var jsonContent: seq<ReportEntry>;
    if |result.report| > 0 {
      trace := trace + [PrintSecurityReport(result.report)];
      var cleanArray := CleanReport(result.report);
      jsonContent := ToEntries(cleanArray);
    } else {
      jsonContent := [];
    }
    assert trace == Display(result.report);
    assert jsonContent == ReportArtifact(result.report);
    var saved := SaveJsonReport(jsonContent, env);
    trace := trace + saved;
    ghost var saveDone := trace;

    trace := trace + [ReportUnusedExceptions(result.unusedExceptionIds, result.unusedExceptionModules)];

    if |result.unhandledIds| > 0 {
      trace := trace + [ErrorLine(VulnerabilitiesFound(|result.unhandledIds|, result.unhandledIds))];
      code := EXIT_FAILED;
    } else {
      trace := trace + [InfoLine(AllGood)];
      code := EXIT_OK;
    }
    trace := trace + [Exit(code)];
    assert trace == saveDone + Closing(result);
  }

  // ---------------------------------------------------------------------
  // What every run guarantees.

  /** Step `i` of a three-phase trace, read from the phase it falls in. */
  lemma PhaseAt(a: seq<Effect>, b: seq<Effect>, c: seq<Effect>, i: nat)
    requires i < |a + b + c|
    ensures (a + b + c)[i] == if i < |a| then a[i] else if i < |a| + |b| then b[i - |a|] else c[i - |a| - |b|]
  {
  }

  /** Every run ends with exactly one exit, carrying the verdict, as its last step. */
  lemma ExitIsLast(result: ProcessResult, env: SaveEnv)
    ensures |FinishTrace(result, env)| >= 2
    ensures FinishTrace(result, env)[|FinishTrace(result, env)| - 1] == Exit(ExitCode(result))
    ensures forall i :: 0 <= i < |FinishTrace(result, env)| - 1 ==> !FinishTrace(result, env)[i].Exit?
  {
    if !result.failed {
      var t := FinishTrace(result, env);
      var display, save, closing := Display(result.report), SaveEffects(ReportArtifact(result.report), env), Closing(result);
      SaveIsQuiet(ReportArtifact(result.report), env);
      assert t == display + save + closing;
      forall i | 0 <= i < |t| - 1 ensures !t[i].Exit? {
        PhaseAt(display, save, closing, i);
      }
      PhaseAt(display, save, closing, |t| - 1);
    }
  }

  /** A run whose analysis failed exits with 1 and does nothing else but say so. */
  lemma FailedRunOnlyExits(result: ProcessResult, env: SaveEnv)
    requires result.failed
    ensures ExitCode(result) == EXIT_FAILED
    ensures FinishTrace(result, env) == [ErrorLine(CannotProcessJson), Exit(EXIT_FAILED)]
    ensures Writes(FinishTrace(result, env)) == []
  {
    NoWrites(FinishTrace(result, env));
  }

  /** Position `u` of `t` is the only report of unused exceptions, and every file write comes before it. */
  predicate UnusedReportedAfterWrites(t: seq<Effect>, u: nat) {
    && u < |t|
    && t[u].ReportUnusedExceptions?
    && (forall i :: 0 <= i < |t| && t[i].ReportUnusedExceptions? ==> i == u)
    && (forall i :: 0 <= i < |t| && t[i].WriteFile? ==> i < u)
  }

  /** Only the save phase of a run can store anything. */
  lemma StoredInRun(display: seq<Effect>, save: seq<Effect>, closing: seq<Effect>)
    requires |display| <= 1 && (display == [] || display[0].PrintSecurityReport?)
    requires |closing| > 0 && closing[0].ReportUnusedExceptions?
    requires forall i :: 0 <= i < |closing| ==> !closing[i].WriteFile?
    ensures Stored(display + save + closing) == Stored(save)
  {
    StoredAppend(display, save);
    StoredAppend(display + save, closing);
    assert Stored(display) == [];
    NoStores(closing);
  }

  /**
   * After a successful analysis the file write is called exactly once, for
   * the report file with the records of the cleaned report, when the
   * directory is usable, and never otherwise; those records reach the file
   * exactly when, in addition, the write does not throw.
   */
  lemma SuccessfulRunWritesOnce(result: ProcessResult, env: SaveEnv)
    requires !result.failed
    ensures Writes(FinishTrace(result, env)) == (if DirReady(env) then [ReportArtifact(result.report)] else [])
    ensures WrittenFiles(FinishTrace(result, env)) == (if DirReady(env) then [REPORT_FILE] else [])
    ensures Stored(FinishTrace(result, env))
         == (if DirReady(env) && !env.writeFails then [ReportArtifact(result.report)] else [])
  {
    var display, save, closing := Display(result.report), SaveEffects(ReportArtifact(result.report), env), Closing(result);
    var opening := display + save;
    NoWrites(display);
    NoWrites(closing);
    SaveWritesOnce(ReportArtifact(result.report), env);
    WritesAppend(display, save);
    assert Writes(opening) == Writes(save) && WrittenFiles(opening) == WrittenFiles(save);
    WritesAppend(opening, closing);
    StoredInRun(display, save, closing);
    assert FinishTrace(result, env) == opening + closing;
  }

  /**
   * After a successful analysis the unused exceptions are reported exactly
   * once, after every file write, followed only by the verdict line and the
   * exit.
   */
  lemma SuccessfulRunOrder(result: ProcessResult, env: SaveEnv)
    requires !result.failed
    ensures |FinishTrace(result, env)| >= 3
    ensures FinishTrace(result, env)[|FinishTrace(result, env)| - 3]
         == ReportUnusedExceptions(result.unusedExceptionIds, result.unusedExceptionModules)
    ensures UnusedReportedAfterWrites(FinishTrace(result, env), |FinishTrace(result, env)| - 3)
    ensures FinishTrace(result, env)[|FinishTrace(result, env)| - 2] == VerdictLine(result)
    ensures FinishTrace(result, env)[|FinishTrace(result, env)| - 1] == Exit(ExitCode(result))
  {
    var t := FinishTrace(result, env);
    var display, save, closing := Display(result.report), SaveEffects(ReportArtifact(result.report), env), Closing(result);
    SaveIsQuiet(ReportArtifact(result.report), env);
    assert t == display + save + closing;
    var u := |display| + |save|;
    forall i | 0 <= i < |t|
      ensures t[i].ReportUnusedExceptions? ==> i == u
      ensures t[i].WriteFile? ==> i < u
    {
      PhaseAt(display, save, closing, i);
    }
    PhaseAt(display, save, closing, u);
    PhaseAt(display, save, closing, u + 1);
    PhaseAt(display, save, closing, u + 2);
  }

  /**
   * How saving went never changes the verdict: two runs on the same
   * analysis result end with the same steps after the save, and so with
   * the same exit.
   */
  lemma SaveOutcomeKeepsVerdict(result: ProcessResult, env1: SaveEnv, env2: SaveEnv)
    ensures |FinishTrace(result, env1)| >= 2 && |FinishTrace(result, env2)| >= 2
    ensures FinishTrace(result, env1)[|FinishTrace(result, env1)| - 1]
         == FinishTrace(result, env2)[|FinishTrace(result, env2)| - 1]
    ensures !result.failed ==>
              (FinishTrace(result, env1)[|FinishTrace(result, env1)| - 3..]
               == FinishTrace(result, env2)[|FinishTrace(result, env2)| - 3..])
  {
  }

  /**
   * An empty report still produces an artifact: the file write is called
   * with the empty array when the directory is usable, and no table is
   * printed.
   */
  lemma EmptyReportStillSaved(result: ProcessResult, env: SaveEnv)
    requires !result.failed && result.report == []
    ensures Writes(FinishTrace(result, env)) == (if DirReady(env) then [[]] else [])
    ensures forall i :: 0 <= i < |FinishTrace(result, env)| ==> !FinishTrace(result, env)[i].PrintSecurityReport?
  {
    EmptyReportArtifact();
    SuccessfulRunWritesOnce(result, env);
    var t := FinishTrace(result, env);
    var save, closing := SaveEffects([], env), Closing(result);
    assert t == [] + save + closing;
    forall i | 0 <= i < |t| ensures !t[i].PrintSecurityReport? {
      PhaseAt([], save, closing, i);
    }
  }
}
