/**
 * What one conversion job reports, taken as a whole: the job ends with a
 * single complete or error event unless the user's cancel stopped it before
 * any image failed, only successful packing completes it, every progress
 * value is a percentage, and after a successful job the window shows a full
 * bar, the finished status and a stopped run.
 */
module Jobs {
  import opened Wrappers
  import opened Numerals
  import opened Discovery
  import opened Events
  import opened Converter

  /** Only the last of `es` may end a job. */
  predicate EndsAtMostOnce(es: seq<Event>)
  {
    forall k :: 0 <= k < |es| - 1 ==> !es[k].IsTerminal()
  }

  lemma EndsAtMostOnceConcat(a: seq<Event>, b: seq<Event>)
    requires forall e: Event :: e in a ==> !e.IsTerminal()
    requires EndsAtMostOnce(b)
    ensures EndsAtMostOnce(a + b)
  {
    forall k | 0 <= k < |a + b| - 1
      ensures !(a + b)[k].IsTerminal()
    {
      if k < |a| {
        assert (a + b)[k] == a[k];
      } else {
        assert (a + b)[k] == b[k - |a|];
      }
    }
  }

  /** A conversion never completes a job: its events are status lines, progress values and errors. */
  lemma {:induction false} ConversionNeverCompletes(tasks: seq<Task>, n: nat, total: nat, level: Level, codec: Codec)
    requires n <= |tasks|
    ensures forall e: Event :: e in ConversionEvents(tasks, n, total, level, codec) ==> !e.Complete?
  {
    if n > 0 {
      ConversionNeverCompletes(tasks, n - 1, total, level, codec);
      if EncodedBefore(tasks, n - 1, level, codec) {
        var step := StepEvents(tasks[n - 1], n, total, level, codec);
        assert |step| == 2 && !step[0].Complete? && !step[1].Complete?;
        assert forall e: Event :: e in step ==> e == step[0] || e == step[1];
      }
    }
  }

  /**
   * The events of a run over the images found end with one terminal event,
   * and nothing before it is terminal, unless the user's cancel stopped the
   * run before any image failed.
   */
  lemma RunEndsOnce(outputPath: string, tasks: seq<Task>, level: Level, codec: Codec, cancelBefore: nat,
                    packError: Option<string>)
    requires tasks != []
    ensures var es := RunEvents(outputPath, tasks, level, codec, cancelBefore, packError);
      && es != [] && EndsAtMostOnce(es)
      && (Last(es).IsTerminal() <==> !CancelledCleanly(tasks, cancelBefore, level, codec))
  {
    var n := Attempted(|tasks|, true, cancelBefore);
    var conv := ConversionEvents(tasks, n, |tasks|, level, codec);
    var head := [Progress(0.0), Status(Preparing(|tasks|))];
    var es := RunEvents(outputPath, tasks, level, codec, cancelBefore, packError);
    ConversionTerminalLast(tasks, n, |tasks|, level, codec);
    if Converted(tasks, cancelBefore, level, codec) {
      var pack := PackEvents(outputPath, packError);
      assert es == (head + conv) + pack;
      assert forall e: Event :: e in head + conv ==> !e.IsTerminal();
      EndsAtMostOnceConcat(head + conv, pack);
      assert Last(es) == pack[1];
    } else {
      assert es == head + conv;
      if EncodedBefore(tasks, n, level, codec) {
        assert forall e: Event :: e in es ==> !e.IsTerminal();
        assert Last(es) in es;
      } else {
        EndsAtMostOnceConcat(head, conv);
        assert Last(es) == Last(conv);
      }
    }
  }

  /**
   * Every job ends with one complete or error event, and nothing before it
   * is terminal, unless the user's cancel stopped the run over the images
   * found before any of them failed.
   */
  lemma JobEndsOnce(s: Settings, input: Input, codec: Codec, cancelBefore: nat, packError: Option<string>)
    ensures var es := JobEvents(s, input, codec, cancelBefore, packError);
      && es != [] && EndsAtMostOnce(es)
      && (Last(es).IsTerminal() <==>
            !(input.Extracted? && Tasks(input.files, s.format) != [] &&
              CancelledCleanly(Tasks(input.files, s.format), cancelBefore, ReadLevel(s.quality), codec)))
  {
    match input
    case Missing =>
    case Unreadable(_) =>
    case Extracted(files) =>
      var tasks := Tasks(files, s.format);
      if tasks != [] {
        var run := RunEvents(s.outputPath, tasks, ReadLevel(s.quality), codec, cancelBefore, packError);
        RunEndsOnce(s.outputPath, tasks, ReadLevel(s.quality), codec, cancelBefore, packError);
        EndsAtMostOnceConcat([Status(Unpacking)], run);
        assert Last([Status(Unpacking)] + run) == Last(run);
      }
  }

  /** A run over the images found completes, with the output path, exactly when it packs an archive. */
  lemma RunCompletesIffPacked(outputPath: string, tasks: seq<Task>, level: Level, codec: Codec, cancelBefore: nat,
                              packError: Option<string>)
    requires tasks != []
    ensures var es := RunEvents(outputPath, tasks, level, codec, cancelBefore, packError);
      es != [] &&
      (Last(es) == Complete(outputPath) <==> Converted(tasks, cancelBefore, level, codec) && packError.None?)
  {
    var n := Attempted(|tasks|, true, cancelBefore);
    var pre := [Progress(0.0), Status(Preparing(|tasks|))] + ConversionEvents(tasks, n, |tasks|, level, codec);
    var es := RunEvents(outputPath, tasks, level, codec, cancelBefore, packError);
    if Converted(tasks, cancelBefore, level, codec) {
      assert es == pre + PackEvents(outputPath, packError);
    } else {
      assert es == pre;
      ConversionNeverCompletes(tasks, n, |tasks|, level, codec);
      assert Last(es) in pre;
    }
  }

  /** A job completes, with the output path, exactly when it packs an archive. */
  lemma ArchiveIffComplete(s: Settings, input: Input, codec: Codec, cancelBefore: nat, packError: Option<string>)
    ensures var es := JobEvents(s, input, codec, cancelBefore, packError);
      es != [] &&
      (JobArchive(s, input, codec, cancelBefore, packError).Some? <==> Last(es) == Complete(s.outputPath))
  {
    match input
    case Missing =>
    case Unreadable(_) =>
    case Extracted(files) =>
      var tasks := Tasks(files, s.format);
      if tasks != [] {
        var run := RunEvents(s.outputPath, tasks, ReadLevel(s.quality), codec, cancelBefore, packError);
        RunCompletesIffPacked(s.outputPath, tasks, ReadLevel(s.quality), codec, cancelBefore, packError);
        assert Last([Status(Unpacking)] + run) == Last(run);
      }
  }

  /** Every progress value a job reports is a percentage. */
  lemma JobProgressInRange(s: Settings, input: Input, codec: Codec, cancelBefore: nat, packError: Option<string>)
    ensures forall e: Event :: e in JobEvents(s, input, codec, cancelBefore, packError) && e.Progress? ==>
              0.0 <= e.value <= 100.0
  {
    if input.Extracted? && Tasks(input.files, s.format) != [] {
      var tasks := Tasks(input.files, s.format);
      var n := Attempted(|tasks|, true, cancelBefore);
      ConversionProgressInRange(tasks, n, |tasks|, ReadLevel(s.quality), codec);
    }
  }

  /** The label of a full bar. */
  lemma FullLabel()
    ensures PercentLabel(100.0) == "100%"
  {
    assert Trunc(100.0) == 100;
    assert NatToString(10) == "10";
    assert NatToString(100) == "100";
  }

  /**
   * A run in which every image converted and packing succeeds ends with the
   * bar at 100, the packing status and the complete event.
   */
  lemma ConvertedRunEnd(outputPath: string, tasks: seq<Task>, level: Level, codec: Codec, cancelBefore: nat)
    requires tasks != [] && Converted(tasks, cancelBefore, level, codec)
    ensures var es := RunEvents(outputPath, tasks, level, codec, cancelBefore, None);
      && |es| >= 3 && es[|es| - 3] == Progress(100.0)
      && es[|es| - 2] == Status(Packing) && es[|es| - 1] == Complete(outputPath)
  {
    var conv := ConversionEvents(tasks, |tasks|, |tasks|, level, codec);
    assert Attempted(|tasks|, true, cancelBefore) == |tasks|;
    ConversionEncodedRun(tasks, |tasks|, |tasks|, level, codec);
    var pre := [Progress(0.0), Status(Preparing(|tasks|))] + conv;
    var pack := [Status(Packing), Complete(outputPath)];
    assert PackEvents(outputPath, None) == pack;
    assert RunEvents(outputPath, tasks, level, codec, cancelBefore, None) == pre + pack;
    assert pre[|pre| - 1] == Last(conv);
  }

  /**
   * A job that packs its archive ends with the bar at 100, the packing
   * status and the complete event.
   */
  lemma SuccessfulJobEnd(s: Settings, input: Input, codec: Codec, cancelBefore: nat, packError: Option<string>)
    requires JobArchive(s, input, codec, cancelBefore, packError).Some?
    ensures var es := JobEvents(s, input, codec, cancelBefore, packError);
      && |es| >= 3 && es[|es| - 3] == Progress(100.0)
      && es[|es| - 2] == Status(Packing) && es[|es| - 1] == Complete(s.outputPath)
  {
    var tasks := Tasks(input.files, s.format);
    var run := RunEvents(s.outputPath, tasks, ReadLevel(s.quality), codec, cancelBefore, None);
    ConvertedRunEnd(s.outputPath, tasks, ReadLevel(s.quality), codec, cancelBefore);
    var es := [Status(Unpacking)] + run;
    assert JobEvents(s, input, codec, cancelBefore, packError) == es;
    assert es[|es| - 3] == run[|run| - 3] && es[|es| - 2] == run[|run| - 2] && es[|es| - 1] == run[|run| - 1];
  }

  /**
   * After a job that packed its archive, the window shows a full bar, the
   * label `100%`, the finished status, and the run is over, whatever it
   * showed before.
   */
  lemma SuccessfulJobScreen(v: View, s: Settings, input: Input, codec: Codec, cancelBefore: nat,
                            packError: Option<string>)
    requires JobArchive(s, input, codec, cancelBefore, packError).Some?
    ensures RenderAll(v, JobEvents(s, input, codec, cancelBefore, packError)) == View(100.0, "100%", Finished, false)
  {
    SuccessfulJobEnd(s, input, codec, cancelBefore, packError);
    FinishedScreen(v, JobEvents(s, input, codec, cancelBefore, packError));
    FullLabel();
  }

  /**
   * Once the window has consumed a job's events it is still running exactly
   * when it was before and the user's cancel stopped the run over the images
   * found before any of them failed; a job that failed leaves the failure
   * status on the window.
   */
  lemma JobScreen(v: View, s: Settings, input: Input, codec: Codec, cancelBefore: nat, packError: Option<string>)
    ensures var es := JobEvents(s, input, codec, cancelBefore, packError);
      && (RenderAll(v, es).running <==>
            v.running && input.Extracted? && Tasks(input.files, s.format) != [] &&
            CancelledCleanly(Tasks(input.files, s.format), cancelBefore, ReadLevel(s.quality), codec))
      && (Last(es).Error? ==> RenderAll(v, es).status == Failed)
  {
    var es := JobEvents(s, input, codec, cancelBefore, packError);
    JobEndsOnce(s, input, codec, cancelBefore, packError);
    RunningUntilTerminal(v, es);
    if Last(es).IsTerminal() {
      assert es[|es| - 1].IsTerminal();
      LatestStatusWins(v, es, |es| - 1);
    } else {
      assert forall j :: 0 <= j < |es| ==> !es[j].IsTerminal();
    }
  }
}
