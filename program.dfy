/** `write_concat_text_file` of the command-line program: a manifest of the given
    sources written line by line to a temp file that is then renamed over `path`. */
module Program {
  import opened Common
  import opened Files
  import Manifest
  import Paths

  /** The calls `write_concat_text_file` makes: create the temp file, one write per
      source line, a flush when `flush` is set (the program does not flush), rename. */
  function ConcatTextPlan(path: string, sources: seq<string>, flush: bool): seq<FsOp>
    requires Paths.TempPath(path).Some?
  {
    ReplacePlan(Paths.TempPath(path).value, path, Manifest.TerminatedLines(sources), flush)
  }

  /** `write_concat_text_file`: the calls that take effect and the result, as `Performed`
      and `OutcomeOf` give them for the plan without a flush. A failed write is returned
      by the next write; the failure of the last write is returned by nothing. */
  method WriteConcatTextFile(path: string, sources: seq<string>, fault: Option<IoFault>)
    returns (ops: seq<FsOp>, r: Outcome)
    requires Paths.TempPath(path).Some?
    ensures ops == Performed(ConcatTextPlan(path, sources, false), fault)
    ensures r == OutcomeOf(ConcatTextPlan(path, sources, false), fault)
  {
    var temp := Paths.TempPath(path).value;
    ghost var lines := Manifest.TerminatedLines(sources);
    if fault.Some? {
      ReplacePlanFailsAt(temp, path, lines, false, fault, fault.value.at);
    }
    ops := [];
    if FailsAt(fault, 0) {
      return ops, Fail(fault.value.error);
    }
    ops := ops + [Create(temp)];
    // Whether the last write failed; the next write would return its error.
    var pending := false;
    var i := 0;
    while i < |sources|
      invariant 0 <= i <= |sources|
      invariant fault.Some? ==> 0 < fault.value.at && i <= fault.value.at
      invariant pending <==> 0 < i && FailsAt(fault, i)
      invariant !pending ==> ops == [Create(temp)] + Writes(temp, lines[..i])
      invariant pending ==> ops == [Create(temp)] + Writes(temp, lines[..i - 1])
    {
      if pending {
        return ops, Fail(fault.value.error);
      }
      var line := Manifest.Line(sources[i]) + "\n";
      if FailsAt(fault, i + 1) {
        pending := true;
      } else {
        WritesSnoc(temp, lines, i);
        ops := ops + [Write(temp, line)];
      }
      i := i + 1;
    }
    assert lines[..|sources|] == lines;
    if FailsAt(fault, |sources| + 1) {
      return ops, Fail(fault.value.error);
    }
    // The file is dropped without a flush: a pending error is lost.
    ops := ops + [Rename(temp, path)];
    r := Pass;
  }

  /** `write_concat_text_file` with the temp file flushed before the rename, so that the
      failure of any write is returned and stops the rename. */
  method WriteConcatTextFileFlushed(path: string, sources: seq<string>, fault: Option<IoFault>)
    returns (ops: seq<FsOp>, r: Outcome)
    requires Paths.TempPath(path).Some?
    ensures ops == Performed(ConcatTextPlan(path, sources, true), fault)
    ensures r == OutcomeOf(ConcatTextPlan(path, sources, true), fault)
  {
    var temp := Paths.TempPath(path).value;
    ghost var lines := Manifest.TerminatedLines(sources);
    if fault.Some? {
      ReplacePlanFailsAt(temp, path, lines, true, fault, fault.value.at);
    }
    ops := [];
    if FailsAt(fault, 0) {
      return ops, Fail(fault.value.error);
    }
    ops := ops + [Create(temp)];
    var pending := false;
    var i := 0;
    while i < |sources|
      invariant 0 <= i <= |sources|
      invariant fault.Some? ==> 0 < fault.value.at && i <= fault.value.at
      invariant pending <==> 0 < i && FailsAt(fault, i)
      invariant !pending ==> ops == [Create(temp)] + Writes(temp, lines[..i])
      invariant pending ==> ops == [Create(temp)] + Writes(temp, lines[..i - 1])
    {
      if pending {
        return ops, Fail(fault.value.error);
      }
      var line := Manifest.Line(sources[i]) + "\n";
      if FailsAt(fault, i + 1) {
        pending := true;
      } else {
        WritesSnoc(temp, lines, i);
        ops := ops + [Write(temp, line)];
      }
      i := i + 1;
    }
    assert lines[..|sources|] == lines;
    if pending || FailsAt(fault, |sources| + 1) {
      return ops, Fail(fault.value.error);
    }
    ops := ops + [Flush(temp)];
    if FailsAt(fault, |sources| + 2) {
      return ops, Fail(fault.value.error);
    }
    ops := ops + [Rename(temp, path)];
    r := Pass;
  }

  /** What `write_concat_text_file` leaves on disk. Without a fault `path` holds the
      concatenation, over the sources in order, of one newline-terminated
      `file '<source>'` line each, which reads back as exactly the sources when none holds
      a newline, and the temp
      file is gone. When the last write fails the call still returns `Ok` and `path`
      holds every line but the last. Any other failure returns its error and leaves
      `path` as it was. */
  lemma WriteConcatTextFileEffect(fs: FileSystem, path: string, sources: seq<string>,
                                  fault: Option<IoFault>)
    requires Paths.TempPath(path).Some?
    ensures var plan := ConcatTextPlan(path, sources, false);
      var r := ApplyAll(fs, Performed(plan, fault));
      var temp := Paths.TempPath(path).value;
      if !Interrupts(plan, fault) then
        && OutcomeOf(plan, fault) == Pass
        && r == (fs - {temp})[path := Manifest.ConcatText(sources)]
        && (Manifest.NoNewlines(sources) ==> Manifest.ParseTerminated(r[path]) == Some(sources))
      else if sources != [] && FailsAt(fault, |sources|) then
        && OutcomeOf(plan, fault) == Pass
        && r == (fs - {temp})[path := Manifest.ConcatText(sources[..|sources| - 1])]
      else
        && OutcomeOf(plan, fault) == Fail(fault.value.error)
        && (path in r <==> path in fs) && (path in fs ==> r[path] == fs[path])
  {
    Paths.TempPathIsSibling(path);
    var temp := Paths.TempPath(path).value;
    var lines := Manifest.TerminatedLines(sources);
    ReplaceEffect(fs, temp, path, lines, false, fault);
    UnreportedInReplacePlan(temp, path, lines, false, fault);
    if sources != [] {
      assert lines[..|lines| - 1] == Manifest.TerminatedLines(sources[..|sources| - 1]);
    }
    if Manifest.NoNewlines(sources) {
      Manifest.ConcatTextRoundTrip(sources);
    }
  }

  /** With the flush, writing the manifest is all-or-nothing on disk: `Ok` means `path`
      holds every line and reads back as exactly the sources when none holds a newline;
      an error means `path` is
      as it was. */
  lemma WriteConcatTextFileFlushedEffect(fs: FileSystem, path: string, sources: seq<string>,
                                         fault: Option<IoFault>)
    requires Paths.TempPath(path).Some?
    ensures var plan := ConcatTextPlan(path, sources, true);
      var r := ApplyAll(fs, Performed(plan, fault));
      if OutcomeOf(plan, fault).Pass? then
        && r == (fs - {Paths.TempPath(path).value})[path := Manifest.ConcatText(sources)]
        && (Manifest.NoNewlines(sources) ==> Manifest.ParseTerminated(r[path]) == Some(sources))
      else
        (path in r <==> path in fs) && (path in fs ==> r[path] == fs[path])
  {
    Paths.TempPathIsSibling(path);
    var temp := Paths.TempPath(path).value;
    FlushedReplaceIsAllOrNothing(fs, temp, path, Manifest.TerminatedLines(sources), fault);
    if Manifest.NoNewlines(sources) {
      Manifest.ConcatTextRoundTrip(sources);
    }
  }

  /** The last write's error is lost: with it failing, `write_concat_text_file` returns
      `Ok` while `path` lacks the last source's line. */
  lemma WriteConcatTextFileLosesWriteError(fs: FileSystem, path: string, sources: seq<string>,
                                           error: Error)
    requires Paths.TempPath(path).Some?
    requires sources != []
    ensures var plan := ConcatTextPlan(path, sources, false);
      var fault := Some(IoFault(|sources|, error));
      var r := ApplyAll(fs, Performed(plan, fault));
      && OutcomeOf(plan, fault) == Pass
      && path in r && r[path] != Manifest.ConcatText(sources)
  {
    Paths.TempPathIsSibling(path);
    var temp := Paths.TempPath(path).value;
    var lines := Manifest.TerminatedLines(sources);
    assert lines[|lines| - 1] != "";
    UnflushedWriteErrorIsLost(fs, temp, path, lines, error);
  }
}
