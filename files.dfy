/** The file-system calls the manifest writers make (`File::create`, `write_all`,
    `flush`, `fs::rename`), as a trace of operations over a map from path to contents.

    `write_all` on a tokio `File` hands the bytes to a background write and returns
    `Ok` at once; a failure of that write is returned by the next write or flush on the
    file. A failed write that no later write or flush follows is therefore never
    reported, and the calls after it go ahead. */
module Files {
  import opened Common

  datatype FsOp =
    | Create(path: string)
    | Write(path: string, data: string)
    | Flush(path: string)
    | Rename(from: string, to: string)

  type FileSystem = map<string, string>

  /** The only call of a run that fails, by its position in the plan, and its error. At
      most one call fails per run: every other call succeeds, including the calls after
      a failed write whose error goes unreported. */
  datatype IoFault = IoFault(at: nat, error: Error)

  /** True when `fault` names call number `k` of the plan. */
  predicate FailsAt(fault: Option<IoFault>, k: nat) {
    fault.Some? && fault.value.at == k
  }

  function ContentsOf(fs: FileSystem, p: string): string {
    if p in fs then fs[p] else ""
  }

  /** `create` truncates, a write appends to the open file, a flush changes no contents,
      `rename` moves the contents and replaces the target. */
  function Apply(fs: FileSystem, op: FsOp): FileSystem {
    match op
    case Create(p) => fs[p := ""]
    case Write(p, data) => fs[p := ContentsOf(fs, p) + data]
    case Flush(_) => fs
    case Rename(a, b) => if a in fs then (fs - {a})[b := fs[a]] else fs
  }

  function ApplyAll(fs: FileSystem, ops: seq<FsOp>): FileSystem
    decreases |ops|
  {
    if ops == [] then fs else ApplyAll(Apply(fs, ops[0]), ops[1..])
  }

  /** True when `fault` hits a call of the plan. */
  predicate Interrupts(plan: seq<FsOp>, fault: Option<IoFault>) {
    fault.Some? && fault.value.at < |plan|
  }

  /** True when the failing call is a write that no write or flush follows, so that its
      error is never returned. */
  predicate Unreported(plan: seq<FsOp>, fault: Option<IoFault>) {
    && Interrupts(plan, fault)
    && plan[fault.value.at].Write?
    && (fault.value.at + 1 == |plan|
        || !(plan[fault.value.at + 1].Write? || plan[fault.value.at + 1].Flush?))
  }

  /** The calls that take effect: all of them without a fault; all but the failed write
      when its error goes unreported; otherwise those before the failing call (a reported
      write failure stops the write or flush that reports it). */
  function Performed(plan: seq<FsOp>, fault: Option<IoFault>): seq<FsOp> {
    if !Interrupts(plan, fault) then plan
    else if Unreported(plan, fault) then plan[..fault.value.at] + plan[fault.value.at + 1..]
    else plan[..fault.value.at]
  }

  /** What the function returns: `Ok(())`, or the error of a failing call that is reported. */
  function OutcomeOf(plan: seq<FsOp>, fault: Option<IoFault>): Outcome {
    if Interrupts(plan, fault) && !Unreported(plan, fault) then Fail(fault.value.error) else Pass
  }

  function Concat(chunks: seq<string>): string
    decreases |chunks|
  {
    if chunks == [] then "" else chunks[0] + Concat(chunks[1..])
  }

  function Writes(p: string, chunks: seq<string>): (ops: seq<FsOp>)
    ensures |ops| == |chunks|
  {
    seq(|chunks|, i requires 0 <= i < |chunks| => Write(p, chunks[i]))
  }

  /** Write-to-temp-then-rename: create `temp`, write the chunks to it in order, flush it
      when `flush` is set, then rename it over `target`. */
  function ReplacePlan(temp: string, target: string, chunks: seq<string>, flush: bool): (plan: seq<FsOp>)
    ensures |plan| == |chunks| + (if flush then 3 else 2)
  {
    [Create(temp)] + Writes(temp, chunks) + (if flush then [Flush(temp)] else []) + [Rename(temp, target)]
  }

  /** The calls of a plan, position by position. */
  lemma ReplacePlanAt(temp: string, target: string, chunks: seq<string>, flush: bool, k: nat)
    requires k < |ReplacePlan(temp, target, chunks, flush)|
    ensures var plan := ReplacePlan(temp, target, chunks, flush);
      plan[k] == if k == 0 then Create(temp)
                 else if k <= |chunks| then Write(temp, chunks[k - 1])
                 else if flush && k == |chunks| + 1 then Flush(temp)
                 else Rename(temp, target)
  {
  }

  /** A write error goes unreported exactly when the plan does not flush and the last
      write is the one that fails. */
  lemma UnreportedInReplacePlan(temp: string, target: string, chunks: seq<string>, flush: bool,
                                fault: Option<IoFault>)
    ensures Unreported(ReplacePlan(temp, target, chunks, flush), fault)
            <==> !flush && chunks != [] && FailsAt(fault, |chunks|)
  {
    var plan := ReplacePlan(temp, target, chunks, flush);
    if Interrupts(plan, fault) {
      var k := fault.value.at;
      ReplacePlanAt(temp, target, chunks, flush, k);
      if k + 1 < |plan| {
        ReplacePlanAt(temp, target, chunks, flush, k + 1);
      }
    }
  }

  /** The writes of one more chunk are the writes so far and one more. */
  lemma WritesSnoc(p: string, chunks: seq<string>, j: nat)
    requires j < |chunks|
    ensures Writes(p, chunks[..j + 1]) == Writes(p, chunks[..j]) + [Write(p, chunks[j])]
  {
    assert Writes(p, chunks[..j + 1])[..j] == Writes(p, chunks[..j]);
  }

  /** What a replace plan does when the call at position `k` fails: nothing when it is the
      create; the create and the writes before it when it is a write whose error the next
      write or the flush returns; everything but that write when it is the last write and
      nothing returns its error; everything before it when it is the flush or the rename;
      everything when there is no such call. Only a reported failure is returned. */
  lemma ReplacePlanFailsAt(temp: string, target: string, chunks: seq<string>, flush: bool,
                           fault: Option<IoFault>, k: nat)
    requires FailsAt(fault, k)
    ensures var plan := ReplacePlan(temp, target, chunks, flush);
      var n := |chunks|;
      var lost := !flush && k == n && n > 0;
      && Performed(plan, fault) ==
           (if k == 0 then []
            else if lost then [Create(temp)] + Writes(temp, chunks[..n - 1]) + [Rename(temp, target)]
            else if k <= n then [Create(temp)] + Writes(temp, chunks[..k - 1])
            else if k < |plan| then [Create(temp)] + Writes(temp, chunks) + plan[n + 1..k]
            else plan)
      && OutcomeOf(plan, fault) == (if k < |plan| && !lost then Fail(fault.value.error) else Pass)
  {
    var plan := ReplacePlan(temp, target, chunks, flush);
    var n := |chunks|;
    UnreportedInReplacePlan(temp, target, chunks, flush, fault);
    if 0 < k < |plan| {
      var head := [Create(temp)] + Writes(temp, chunks);
      assert plan == head + plan[n + 1..];
      if k <= n {
        assert plan[..k] == [Create(temp)] + Writes(temp, chunks[..k - 1]);
        if !flush && k == n {
          assert plan[k + 1..] == [Rename(temp, target)];
        }
      } else {
        assert plan[..k] == head + plan[n + 1..k];
      }
    }
  }

  lemma {:induction false} ApplyWrites(fs: FileSystem, p: string, chunks: seq<string>)
    requires p in fs
    ensures ApplyAll(fs, Writes(p, chunks)) == fs[p := fs[p] + Concat(chunks)]
    decreases |chunks|
  {
    if chunks == [] {
      assert Writes(p, chunks) == [];
      assert fs[p] + "" == fs[p];
    } else {
      var fs' := Apply(fs, Write(p, chunks[0]));
      assert Writes(p, chunks)[1..] == Writes(p, chunks[1..]);
      ApplyWrites(fs', p, chunks[1..]);
      assert fs[p] + chunks[0] + Concat(chunks[1..]) == fs[p] + Concat(chunks);
    }
  }

  lemma {:induction false} ApplyAllAppend(fs: FileSystem, a: seq<FsOp>, b: seq<FsOp>)
    ensures ApplyAll(fs, a + b) == ApplyAll(ApplyAll(fs, a), b)
    decreases |a|
  {
    if a == [] {
      assert a + b == b;
    } else {
      assert (a + b)[1..] == a[1..] + b;
      ApplyAllAppend(Apply(fs, a[0]), a[1..], b);
    }
  }

  lemma ApplyOne(fs: FileSystem, op: FsOp)
    ensures ApplyAll(fs, [op]) == Apply(fs, op)
  {
    assert [op][1..] == [];
  }

  lemma {:induction false} ConcatSnoc(chunks: seq<string>)
    requires chunks != []
    ensures Concat(chunks) == Concat(chunks[..|chunks| - 1]) + chunks[|chunks| - 1]
    decreases |chunks|
  {
    if |chunks| == 1 {
      assert chunks[..0] == [];
      assert Concat(chunks[1..]) == "";
    } else {
      assert chunks[1..][..|chunks[1..]| - 1] == chunks[..|chunks| - 1][1..];
      ConcatSnoc(chunks[1..]);
    }
  }

  /** Calls that name only `temp` leave every other file as it was. */
  predicate OnlyTouches(ops: seq<FsOp>, temp: string) {
    forall i :: 0 <= i < |ops| ==> ops[i] in {Create(temp), Flush(temp)} || (ops[i].Write? && ops[i].path == temp)
  }

  lemma {:induction false} OnlyTouchesFrame(fs: FileSystem, ops: seq<FsOp>, temp: string)
    requires OnlyTouches(ops, temp)
    ensures var r := ApplyAll(fs, ops);
      forall q :: q != temp ==> (q in r <==> q in fs) && (q in fs ==> r[q] == fs[q])
    decreases |ops|
  {
    if ops != [] {
      assert OnlyTouches(ops[1..], temp) by {
        forall i | 0 <= i < |ops[1..]| ensures ops[1..][i] == ops[i + 1] { }
      }
      var fs1 := Apply(fs, ops[0]);
      assert ops[0] == Create(temp) || ops[0] == Flush(temp) || (ops[0].Write? && ops[0].path == temp);
      assert forall q :: q != temp ==> (q in fs1 <==> q in fs) && (q in fs ==> fs1[q] == fs[q]);
      OnlyTouchesFrame(fs1, ops[1..], temp);
    }
  }

  /** The whole plan leaves `target` holding the chunks in order and removes `temp`;
      every other file is untouched. */
  lemma CompletedPlan(fs: FileSystem, temp: string, target: string, chunks: seq<string>, flush: bool)
    requires temp != target
    ensures ApplyAll(fs, ReplacePlan(temp, target, chunks, flush)) == (fs - {temp})[target := Concat(chunks)]
  {
    var fs1 := Apply(fs, Create(temp));
    var flushes: seq<FsOp> := if flush then [Flush(temp)] else [];
    var plan := ReplacePlan(temp, target, chunks, flush);
    assert plan == [Create(temp)] + (Writes(temp, chunks) + (flushes + [Rename(temp, target)]));
    ApplyAllAppend(fs, [Create(temp)], Writes(temp, chunks) + (flushes + [Rename(temp, target)]));
    ApplyOne(fs, Create(temp));
    ApplyAllAppend(fs1, Writes(temp, chunks), flushes + [Rename(temp, target)]);
    ApplyWrites(fs1, temp, chunks);
    var fs2 := fs1[temp := "" + Concat(chunks)];
    assert "" + Concat(chunks) == Concat(chunks);
    ApplyAllAppend(fs2, flushes, [Rename(temp, target)]);
    if flush {
      ApplyOne(fs2, Flush(temp));
    }
    assert ApplyAll(fs2, flushes) == fs2;
    ApplyOne(fs2, Rename(temp, target));
    assert (fs2 - {temp})[target := fs2[temp]] == (fs - {temp})[target := Concat(chunks)];
  }

  /** The effect of a plan whichever call fails. Without a fault the target holds the
      complete text and the temp file is gone. When the last write fails unreported (only
      possible without a flush) the rename still happens and the target holds the text
      without its last chunk. Any other failure stops before the rename: no file other
      than `temp` changes. */
  lemma ReplaceEffect(fs: FileSystem, temp: string, target: string, chunks: seq<string>, flush: bool,
                      fault: Option<IoFault>)
    requires temp != target
    ensures var plan := ReplacePlan(temp, target, chunks, flush);
      var r := ApplyAll(fs, Performed(plan, fault));
      if !Interrupts(plan, fault) then
        r == (fs - {temp})[target := Concat(chunks)]
      else if Unreported(plan, fault) then
        && !flush && chunks != [] && FailsAt(fault, |chunks|)
        && r == (fs - {temp})[target := Concat(chunks[..|chunks| - 1])]
      else
        forall q :: q != temp ==> (q in r <==> q in fs) && (q in fs ==> r[q] == fs[q])
  {
    var plan := ReplacePlan(temp, target, chunks, flush);
    UnreportedInReplacePlan(temp, target, chunks, flush, fault);
    if !Interrupts(plan, fault) {
      CompletedPlan(fs, temp, target, chunks, flush);
    } else if Unreported(plan, fault) {
      var n := |chunks|;
      var shorter := chunks[..n - 1];
      assert Performed(plan, fault) == ReplacePlan(temp, target, shorter, false) by {
        assert plan[..n] == [Create(temp)] + Writes(temp, shorter);
        assert plan[n + 1..] == [Rename(temp, target)];
      }
      CompletedPlan(fs, temp, target, shorter, false);
    } else {
      var k := fault.value.at;
      assert OnlyTouches(plan[..k], temp) by {
        forall i | 0 <= i < k ensures plan[..k][i] == plan[i] {
          ReplacePlanAt(temp, target, chunks, flush, i);
        }
      }
      OnlyTouchesFrame(fs, plan[..k], temp);
    }
  }

  /** With a flush before the rename, replacing is all-or-nothing: `Ok` means the target
      holds the complete text and the temp file is gone; an error means no file other
      than `temp` changed. */
  lemma FlushedReplaceIsAllOrNothing(fs: FileSystem, temp: string, target: string, chunks: seq<string>,
                                     fault: Option<IoFault>)
    requires temp != target
    ensures var plan := ReplacePlan(temp, target, chunks, true);
      var r := ApplyAll(fs, Performed(plan, fault));
      if OutcomeOf(plan, fault).Pass? then
        r == (fs - {temp})[target := Concat(chunks)]
      else
        forall q :: q != temp ==> (q in r <==> q in fs) && (q in fs ==> r[q] == fs[q])
  {
    ReplaceEffect(fs, temp, target, chunks, true, fault);
    UnreportedInReplacePlan(temp, target, chunks, true, fault);
  }

  /** Without a flush, a failure of the last write is lost: the call returns `Ok` and the
      target is left holding the text without the last chunk. */
  lemma UnflushedWriteErrorIsLost(fs: FileSystem, temp: string, target: string, chunks: seq<string>,
                                  error: Error)
    requires temp != target
    requires chunks != [] && chunks[|chunks| - 1] != ""
    ensures var plan := ReplacePlan(temp, target, chunks, false);
      var fault := Some(IoFault(|chunks|, error));
      && OutcomeOf(plan, fault) == Pass
      && target in ApplyAll(fs, Performed(plan, fault))
      && ApplyAll(fs, Performed(plan, fault))[target] == Concat(chunks[..|chunks| - 1])
      && ApplyAll(fs, Performed(plan, fault))[target] != Concat(chunks)
  {
    var fault := Some(IoFault(|chunks|, error));
    UnreportedInReplacePlan(temp, target, chunks, false, fault);
    ReplaceEffect(fs, temp, target, chunks, false, fault);
    ConcatSnoc(chunks);
  }
}
