/** `ConcatFile`: a manifest file on disk and the entries it lists, rewritten in full
    through a temp file each time a video is appended. */
module Stream {
  import opened Common
  import opened Files
  import Manifest
  import Paths

  /** The calls `append_video` makes after the push: create the temp file, write the
      whole manifest of `entries` to it, flush it when `flush` is set (the program does
      not), rename it over `path`. */
  function AppendPlan(path: string, entries: seq<string>, flush: bool): seq<FsOp>
    requires Paths.TempPath(path).Some?
  {
    ReplacePlan(Paths.TempPath(path).value, path, [Manifest.FileContent(entries)], flush)
  }

  /** The append plan call by call, and what takes effect for each failing call: a
      failed write is returned only when the flush follows it. */
  lemma AppendPlanFailsAt(path: string, entries: seq<string>, flush: bool, fault: Option<IoFault>)
    requires Paths.TempPath(path).Some?
    ensures var plan := AppendPlan(path, entries, flush);
      var temp := Paths.TempPath(path).value;
      var text := Manifest.FileContent(entries);
      var done := Performed(plan, fault);
      var r := OutcomeOf(plan, fault);
      && plan == [Create(temp), Write(temp, text)] + (if flush then [Flush(temp)] else []) + [Rename(temp, path)]
      && (FailsAt(fault, 0) ==> done == [] && r == Fail(fault.value.error))
      && (FailsAt(fault, 1) && flush ==> done == [Create(temp)] && r == Fail(fault.value.error))
      && (FailsAt(fault, 1) && !flush ==> done == [Create(temp), Rename(temp, path)] && r == Pass)
      && (FailsAt(fault, 2) ==> done == [Create(temp), Write(temp, text)] && r == Fail(fault.value.error))
      && (FailsAt(fault, 3) && flush ==> done == [Create(temp), Write(temp, text), Flush(temp)] && r == Fail(fault.value.error))
      && (fault.None? || fault.value.at >= |plan| ==> done == plan && r == Pass)
  {
    var temp := Paths.TempPath(path).value;
    var text := Manifest.FileContent(entries);
    assert Writes(temp, [text]) == [Write(temp, text)];
    if fault.Some? {
      ReplacePlanFailsAt(temp, path, [text], flush, fault, fault.value.at);
      assert [text][..0] == [];
    }
  }

  class ConcatFile {
    var path: string
    var entries: seq<string>

    constructor (path: string, entries: seq<string>)
      ensures this.path == path && this.entries == entries
    {
      this.path := path;
      this.entries := entries;
    }

    /** `file_content`. */
    function FileContent(): string
      reads this
    {
      Manifest.FileContent(entries)
    }

    /** `append_video`: the new path becomes the last entry before any file is touched,
        so the entry stays even when a later call fails; the text written is the
        manifest of the grown list. The file is dropped without a flush, so a failure
        of the write is never returned and the rename goes ahead. */
    method AppendVideo(video: string, fault: Option<IoFault>) returns (ops: seq<FsOp>, r: Outcome)
      requires Paths.TempPath(path).Some?
      modifies this`entries
      ensures entries == old(entries) + [video]
      ensures ops == Performed(AppendPlan(path, entries, false), fault)
      ensures r == OutcomeOf(AppendPlan(path, entries, false), fault)
    {
      entries := entries + [video];
      AppendPlanFailsAt(path, entries, false, fault);
      var temp := Paths.TempPath(path).value;
      var text := FileContent();
      ops := [];
      if FailsAt(fault, 0) {
        return ops, Fail(fault.value.error);
      }
      ops := ops + [Create(temp)];
      if !FailsAt(fault, 1) {
        ops := ops + [Write(temp, text)];
      }
      if FailsAt(fault, 2) {
        return ops, Fail(fault.value.error);
      }
      ops := ops + [Rename(temp, path)];
      r := Pass;
    }

    /** `append_video` with the temp file flushed before the rename, so that a failed
        write is returned and stops the rename. */
    method AppendVideoFlushed(video: string, fault: Option<IoFault>) returns (ops: seq<FsOp>, r: Outcome)
      requires Paths.TempPath(path).Some?
      modifies this`entries
      ensures entries == old(entries) + [video]
      ensures ops == Performed(AppendPlan(path, entries, true), fault)
      ensures r == OutcomeOf(AppendPlan(path, entries, true), fault)
    {
      entries := entries + [video];
      AppendPlanFailsAt(path, entries, true, fault);
      var temp := Paths.TempPath(path).value;
      var text := FileContent();
      ops := [];
      if FailsAt(fault, 0) {
        return ops, Fail(fault.value.error);
      }
      ops := ops + [Create(temp)];
      if FailsAt(fault, 1) {
        return ops, Fail(fault.value.error);
      }
      ops := ops + [Write(temp, text)];
      if FailsAt(fault, 2) {
        return ops, Fail(fault.value.error);
      }
      ops := ops + [Flush(temp)];
      if FailsAt(fault, 3) {
        return ops, Fail(fault.value.error);
      }
      ops := ops + [Rename(temp, path)];
      r := Pass;
    }
  }

  /** What `append_video` leaves on disk. Without a fault `path` holds the manifest of
      the grown entry list, which reads back as exactly those entries when none holds a
      newline, and the temp file is gone. A failed write still returns `Ok` and leaves
      `path` empty. Any other
      failure returns its error and leaves `path` as it was. */
  lemma AppendVideoEffect(fs: FileSystem, path: string, entries: seq<string>, video: string,
                          fault: Option<IoFault>)
    requires Paths.TempPath(path).Some?
    ensures var plan := AppendPlan(path, entries + [video], false);
      var r := ApplyAll(fs, Performed(plan, fault));
      var temp := Paths.TempPath(path).value;
      if !Interrupts(plan, fault) then
        && OutcomeOf(plan, fault) == Pass
        && r == (fs - {temp})[path := Manifest.FileContent(entries + [video])]
        && (Manifest.NoNewlines(entries + [video]) ==> Manifest.ParseJoined(r[path]) == Some(entries + [video]))
      else if FailsAt(fault, 1) then
        && OutcomeOf(plan, fault) == Pass
        && r == (fs - {temp})[path := ""]
      else
        && OutcomeOf(plan, fault) == Fail(fault.value.error)
        && (path in r <==> path in fs) && (path in fs ==> r[path] == fs[path])
  {
    Paths.TempPathIsSibling(path);
    var temp := Paths.TempPath(path).value;
    var text := Manifest.FileContent(entries + [video]);
    ReplaceEffect(fs, temp, path, [text], false, fault);
    UnreportedInReplacePlan(temp, path, [text], false, fault);
    assert Concat([text]) == text by {
      assert [text][1..] == [];
    }
    assert [text][..0] == [];
    if Manifest.NoNewlines(entries + [video]) {
      Manifest.FileContentRoundTrip(entries + [video]);
    }
  }

  /** With the flush, appending is all-or-nothing on disk: `Ok` means `path` holds the
      manifest of the grown list, which reads back as exactly those entries when none
      holds a newline; an error
      means `path` is as it was. */
  lemma AppendVideoFlushedEffect(fs: FileSystem, path: string, entries: seq<string>, video: string,
                                 fault: Option<IoFault>)
    requires Paths.TempPath(path).Some?
    ensures var plan := AppendPlan(path, entries + [video], true);
      var r := ApplyAll(fs, Performed(plan, fault));
      if OutcomeOf(plan, fault).Pass? then
        && r == (fs - {Paths.TempPath(path).value})[path := Manifest.FileContent(entries + [video])]
        && (Manifest.NoNewlines(entries + [video]) ==> Manifest.ParseJoined(r[path]) == Some(entries + [video]))
      else
        (path in r <==> path in fs) && (path in fs ==> r[path] == fs[path])
  {
    Paths.TempPathIsSibling(path);
    var temp := Paths.TempPath(path).value;
    var text := Manifest.FileContent(entries + [video]);
    FlushedReplaceIsAllOrNothing(fs, temp, path, [text], fault);
    assert Concat([text]) == text by {
      assert [text][1..] == [];
    }
    if Manifest.NoNewlines(entries + [video]) {
      Manifest.FileContentRoundTrip(entries + [video]);
    }
  }

  /** The write's error is lost: with the write failing, `append_video` returns `Ok`
      while the manifest it leaves is empty, although the entry list is not. */
  lemma AppendVideoLosesWriteError(fs: FileSystem, path: string, entries: seq<string>, video: string,
                                   error: Error)
    requires Paths.TempPath(path).Some?
    ensures var plan := AppendPlan(path, entries + [video], false);
      var fault := Some(IoFault(1, error));
      var r := ApplyAll(fs, Performed(plan, fault));
      && OutcomeOf(plan, fault) == Pass
      && path in r && r[path] == ""
      && Manifest.FileContent(entries + [video]) != ""
  {
    Paths.TempPathIsSibling(path);
    var temp := Paths.TempPath(path).value;
    var text := Manifest.FileContent(entries + [video]);
    UnflushedWriteErrorIsLost(fs, temp, path, [text], error);
    assert [text][..0] == [];
  }
}
