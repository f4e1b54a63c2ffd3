/**
 * The application object and its conversion job, run sequentially: the job
 * converts one image after the other on the calling thread, and the user's
 * cancel arrives at a chosen point between two conversions.
 *
 * The filesystem is reduced to the set of relative paths in the scratch
 * directory, the input archive to what extracting it yields, and the image
 * library to a `Codec` value that says which files fail to open or to save.
 */
module Converter {
  import opened Wrappers
  import opened Numerals
  import opened Quality
  import opened PosixPath
  import opened Naming
  import opened Discovery
  import opened Events

  const Ready: string := "就绪"
  const InputMissing: string := "输入文件不存在"
  const Unpacking: string := "正在解压文件..."
  const NoImages: string := "未找到JPG/PNG图片文件"
  const Packing: string := "正在压缩输出文件..."
  const Cancelling: string := "正在取消..."

  /** The text of the `ZeroDivisionError` Python raises dividing two integers by zero. */
  const DivisionByZero: string := "division by zero"

  function Preparing(count: nat): string { "准备转换 " + NatToString(count) + " 张图片..." }

  function Processing(path: string): string { "处理中：" + Basename(path) }

  function ConversionFailed(path: string, message: string): string { "转换 " + Basename(path) + " 失败：\n" + message }

  function JobFailed(message: string): string { "处理失败：\n" + message }

  /**
   * The text of the `ValueError` Python's `int()` raises on a malformed
   * numeral, for a text that `repr` writes between single quotes unchanged:
   * at most 200 characters, with no quote, backslash or control character.
   */
  function NotAnInteger(text: string): string { "invalid literal for int() with base 10: '" + text + "'" }

  /** What happens to the input archive: it is missing, it cannot be extracted, or it yields its files in walk order. */
  datatype Input = Missing | Unreadable(message: string) | Extracted(files: seq<string>)

  /**
   * The image library as the job sees it: the error opening a file raises,
   * if any, and the error saving it at a given quality raises, if any.
   */
  datatype Codec = Codec(openError: string -> Option<string>, saveError: (string, string, int) -> Option<string>)

  /**
   * The quality as the conversion reads it: the text's integer, or the
   * error `int()` raises on it.
   */
  datatype Level = Level(value: int) | Malformed(text: string)

  function ReadLevel(quality: string): Level
  {
    match ParseInt(quality)
    case Some(q) => Level(q)
    case None => Malformed(quality)
  }

  /**
   * Why converting `src` to `dst` fails, if it does: the file does not open,
   * the quality text is not an integer, or the save fails.
   */
  function ConversionError(src: string, dst: string, level: Level, codec: Codec): Option<string>
  {
    match codec.openError(src)
    case Some(message) => Some(message)
    case None =>
      match level
      case Malformed(text) => Some(NotAnInteger(text))
      case Level(q) => codec.saveError(src, dst, q)
  }

  /** The progress value after `done` of `total` images: a percentage. */
  function Percent(done: nat, total: nat): (r: real)
    requires total > 0
    ensures done <= total ==> 0.0 <= r <= 100.0
    ensures r == 100.0 <==> done == total
  {
    (done as real / total as real) * 100.0
  }

  function Min(a: nat, b: nat): nat { if a <= b then a else b }

  function Last<T>(s: seq<T>): T
    requires s != []
  {
    s[|s| - 1]
  }

  /** No task before index `n` fails to convert. */
  predicate EncodedBefore(tasks: seq<Task>, n: nat, level: Level, codec: Codec)
    requires n <= |tasks|
  {
    forall k :: 0 <= k < n ==> ConversionError(tasks[k].src, tasks[k].dst, level, codec).None?
  }

  /**
   * The two events converting one image queues while the job runs: which
   * file is being processed, then either the new progress value, `done` being
   * the count after this image, or the error that stops the run.
   */
  function StepEvents(t: Task, done: nat, total: nat, level: Level, codec: Codec): seq<Event>
  {
    [Status(Processing(t.src))] +
    match ConversionError(t.src, t.dst, level, codec)
    case Some(message) => [Error(ConversionFailed(t.src, message))]
    case None => if total == 0 then [Error(ConversionFailed(t.src, DivisionByZero))] else [Progress(Percent(done, total))]
  }

  /**
   * The events a sequential run queues converting the first `n` of `tasks`
   * out of `total`: each task's two events, up to and including the first
   * failure.
   */
  function ConversionEvents(tasks: seq<Task>, n: nat, total: nat, level: Level, codec: Codec): seq<Event>
    requires n <= |tasks|
  {
    if n == 0 then []
    else if EncodedBefore(tasks, n - 1, level, codec) then
      ConversionEvents(tasks, n - 1, total, level, codec) + StepEvents(tasks[n - 1], n, total, level, codec)
    else
      ConversionEvents(tasks, n - 1, total, level, codec)
  }

  /** The two events of one conversion: the status, then a progress value or a terminal error. */
  lemma StepShape(t: Task, done: nat, total: nat, level: Level, codec: Codec)
    requires 0 < done <= total
    ensures var r := StepEvents(t, done, total, level, codec);
      && |r| == 2 && r[0].Status?
      && (ConversionError(t.src, t.dst, level, codec).None? ==> r[1] == Progress(Percent(done, total)))
      && (ConversionError(t.src, t.dst, level, codec).Some? ==> r[1].Error?)
  {
  }

  /** Every progress value a sequential run reports is a percentage. */
  lemma {:induction false} ConversionProgressInRange(tasks: seq<Task>, n: nat, total: nat, level: Level, codec: Codec)
    requires n <= |tasks| && n <= total
    ensures forall e :: e in ConversionEvents(tasks, n, total, level, codec) && e.Progress? ==> 0.0 <= e.value <= 100.0
  {
    if n > 0 {
      ConversionProgressInRange(tasks, n - 1, total, level, codec);
      if EncodedBefore(tasks, n - 1, level, codec) {
        var step := StepEvents(tasks[n - 1], n, total, level, codec);
        StepShape(tasks[n - 1], n, total, level, codec);
        assert forall e :: e in step ==> e == step[0] || e == step[1];
      }
    }
  }

  /**
   * A terminal event can only come last in what a sequential run reports,
   * and it comes exactly when a conversion failed.
   */
  lemma {:induction false} ConversionTerminalLast(tasks: seq<Task>, n: nat, total: nat, level: Level, codec: Codec)
    requires n <= |tasks| && n <= total
    ensures forall k :: 0 <= k < |ConversionEvents(tasks, n, total, level, codec)| - 1 ==>
              !ConversionEvents(tasks, n, total, level, codec)[k].IsTerminal()
    ensures EncodedBefore(tasks, n, level, codec) ==>
              forall e :: e in ConversionEvents(tasks, n, total, level, codec) ==> !e.IsTerminal()
    ensures !EncodedBefore(tasks, n, level, codec) ==>
              ConversionEvents(tasks, n, total, level, codec) != [] && Last(ConversionEvents(tasks, n, total, level, codec)).Error?
  {
    if n > 0 {
      var prev := ConversionEvents(tasks, n - 1, total, level, codec);
      ConversionTerminalLast(tasks, n - 1, total, level, codec);
      if EncodedBefore(tasks, n - 1, level, codec) {
        var step := StepEvents(tasks[n - 1], n, total, level, codec);
        StepShape(tasks[n - 1], n, total, level, codec);
        var r := prev + step;
        assert ConversionEvents(tasks, n, total, level, codec) == r;
        forall k | 0 <= k < |r| - 1
          ensures !r[k].IsTerminal()
        {
          if k < |prev| {
            assert r[k] == prev[k];
          } else {
            assert r[k] == step[0];
          }
        }
        if ConversionError(tasks[n - 1].src, tasks[n - 1].dst, level, codec).None? {
          forall e | e in r
            ensures !e.IsTerminal()
          {
            if e !in prev {
              assert e == step[0] || e == step[1];
            }
          }
        } else {
          assert Last(r) == step[1];
        }
      } else {
        assert ConversionEvents(tasks, n, total, level, codec) == prev;
      }
    }
  }

  /** A run without failure reports two events per image, the last one its final percentage. */
  lemma {:induction false} ConversionEncodedRun(tasks: seq<Task>, n: nat, total: nat, level: Level, codec: Codec)
    requires n <= |tasks| && n <= total
    requires EncodedBefore(tasks, n, level, codec)
    ensures |ConversionEvents(tasks, n, total, level, codec)| == 2 * n
    ensures n > 0 ==> Last(ConversionEvents(tasks, n, total, level, codec)) == Progress(Percent(n, total))
  {
    if n > 0 {
      ConversionEncodedRun(tasks, n - 1, total, level, codec);
      StepShape(tasks[n - 1], n, total, level, codec);
    }
  }

  /** Converting the task at `i` extends a run without failure exactly when that task converts. */
  lemma EncodedBeforeNext(tasks: seq<Task>, i: nat, level: Level, codec: Codec)
    requires i < |tasks|
    ensures EncodedBefore(tasks, i + 1, level, codec) <==>
            EncodedBefore(tasks, i, level, codec) && ConversionError(tasks[i].src, tasks[i].dst, level, codec).None?
  {
  }

  /** Tasks after the first failure queue nothing. */
  lemma {:induction false} ConversionEventsStop(tasks: seq<Task>, i: nat, j: nat, total: nat, level: Level, codec: Codec)
    requires i <= j <= |tasks|
    requires !EncodedBefore(tasks, i, level, codec)
    ensures ConversionEvents(tasks, j, total, level, codec) == ConversionEvents(tasks, i, total, level, codec)
    decreases j
  {
    if j > i {
      assert !EncodedBefore(tasks, j - 1, level, codec);
      ConversionEventsStop(tasks, i, j - 1, total, level, codec);
    }
  }

  /** How many of the first `n` tasks convert before the first failure among them. */
  function ConvertedCount(tasks: seq<Task>, n: nat, level: Level, codec: Codec): (r: nat)
    requires n <= |tasks|
    ensures r <= n
  {
    if n == 0 || EncodedBefore(tasks, n, level, codec) then n else ConvertedCount(tasks, n - 1, level, codec)
  }

  /**
   * The count is the longest run of converted tasks among the first `n`:
   * every task before it converts, and when it falls short of `n` the task
   * at the count fails.
   */
  lemma {:induction false} ConvertedCountFacts(tasks: seq<Task>, n: nat, level: Level, codec: Codec)
    requires n <= |tasks|
    ensures var c := ConvertedCount(tasks, n, level, codec);
      && EncodedBefore(tasks, c, level, codec)
      && (c < n ==> ConversionError(tasks[c].src, tasks[c].dst, level, codec).Some?)
  {
    if n > 0 && !EncodedBefore(tasks, n, level, codec) {
      ConvertedCountFacts(tasks, n - 1, level, codec);
      var c := ConvertedCount(tasks, n - 1, level, codec);
      if c == n - 1 {
        assert ConversionError(tasks[n - 1].src, tasks[n - 1].dst, level, codec).Some?;
      }
    }
  }

  /** One more task of a run without failure so far: counted and written exactly when it converts. */
  lemma ConvertedCountNext(tasks: seq<Task>, i: nat, level: Level, codec: Codec)
    requires i < |tasks| && EncodedBefore(tasks, i, level, codec)
    ensures ConvertedCount(tasks, i, level, codec) == i
    ensures ConvertedCount(tasks, i + 1, level, codec) == if EncodedBefore(tasks, i + 1, level, codec) then i + 1 else i
    ensures TargetsBefore(tasks, i + 1) == TargetsBefore(tasks, i) + {tasks[i].dst}
  {
  }

  /** Tasks after the first failure add nothing to the count. */
  lemma {:induction false} ConvertedCountStop(tasks: seq<Task>, i: nat, j: nat, level: Level, codec: Codec)
    requires i <= j <= |tasks|
    requires !EncodedBefore(tasks, i, level, codec)
    ensures ConvertedCount(tasks, j, level, codec) == ConvertedCount(tasks, i, level, codec)
    decreases j
  {
    if j > i {
      assert !EncodedBefore(tasks, j, level, codec);
      ConvertedCountStop(tasks, i, j - 1, level, codec);
    }
  }

  /**
   * How many tasks a sequential run gets to: none when the run was stopped
   * before it began, otherwise those before the user's cancel, if any (the
   * events of the tasks after a failure are dropped by `ConversionEvents`).
   */
  function Attempted(count: nat, wasRunning: bool, cancelBefore: nat): (r: nat)
    ensures r <= count
  {
    if wasRunning then Min(cancelBefore, count) else 0
  }

  /**
   * The job gets to the check where the user cancels: the first check is
   * always reached, a later one when the run had started and no task before
   * the previous one failed.
   */
  predicate CancelReached(tasks: seq<Task>, wasRunning: bool, cancelBefore: nat, level: Level, codec: Codec)
  {
    cancelBefore <= |tasks| &&
    (cancelBefore == 0 || (wasRunning && EncodedBefore(tasks, cancelBefore - 1, level, codec)))
  }

  /**
   * Where a stopped run ends: at the check `i` where it was cancelled, at
   * the check after its first failure, or before it began.
   */
  lemma StoppedRun(tasks: seq<Task>, i: nat, cancelBefore: nat, wasRunning: bool, level: Level, codec: Codec)
    requires i <= |tasks| && i <= cancelBefore
    requires i == cancelBefore ||
             (i == 0 && !wasRunning) ||
             (0 < i && wasRunning && !EncodedBefore(tasks, i, level, codec))
    requires wasRunning ==> i == cancelBefore || 0 < i
    requires wasRunning && 0 < i ==> EncodedBefore(tasks, i - 1, level, codec)
    requires !wasRunning ==> i == 0
    ensures ConversionEvents(tasks, Attempted(|tasks|, wasRunning, cancelBefore), |tasks|, level, codec) ==
            ConversionEvents(tasks, i, |tasks|, level, codec)
    ensures ConvertedCount(tasks, Attempted(|tasks|, wasRunning, cancelBefore), level, codec) ==
            ConvertedCount(tasks, i, level, codec)
    ensures !(wasRunning && cancelBefore > |tasks| && EncodedBefore(tasks, |tasks|, level, codec))
    ensures CancelReached(tasks, wasRunning, cancelBefore, level, codec) <==> i == cancelBefore
  {
    if wasRunning && i != cancelBefore {
      ConversionEventsStop(tasks, i, Min(cancelBefore, |tasks|), |tasks|, level, codec);
      ConvertedCountStop(tasks, i, Min(cancelBefore, |tasks|), level, codec);
    }
  }

  /** Every task converted and no cancel before the check that follows the last one. */
  predicate Converted(tasks: seq<Task>, cancelBefore: nat, level: Level, codec: Codec)
  {
    cancelBefore > |tasks| && EncodedBefore(tasks, |tasks|, level, codec)
  }

  /** A run in which every task converted counts every task. */
  lemma ConvertedCountOfConverted(tasks: seq<Task>, cancelBefore: nat, level: Level, codec: Codec)
    requires Converted(tasks, cancelBefore, level, codec)
    ensures ConvertedCount(tasks, Attempted(|tasks|, true, cancelBefore), level, codec) == |tasks|
  {
  }

  /** The user's cancel stopped the run before any task failed. */
  predicate CancelledCleanly(tasks: seq<Task>, cancelBefore: nat, level: Level, codec: Codec)
  {
    cancelBefore <= |tasks| && EncodedBefore(tasks, cancelBefore, level, codec)
  }

  /**
   * Everything a job queues, for a run that was going when the job began:
   * the missing-input error; the unpacking status followed by the extraction
   * error, the no-images error or the run over the images found.
   */
  function JobEvents(s: Settings, input: Input, codec: Codec, cancelBefore: nat, packError: Option<string>): seq<Event>
  {
    match input
    case Missing => [Error(InputMissing)]
    case Unreadable(message) => [Status(Unpacking), Error(JobFailed(message))]
    case Extracted(files) =>
      var tasks := Tasks(files, s.format);
      if tasks == [] then [Status(Unpacking), Error(NoImages)]
      else [Status(Unpacking)] + RunEvents(s.outputPath, tasks, ReadLevel(s.quality), codec, cancelBefore, packError)
  }

  /**
   * What a job queues once it has found its images: the reset bar, the
   * count, the conversions and, when every image converted, the packing
   * status and the outcome of packing.
   */
  function RunEvents(outputPath: string, tasks: seq<Task>, level: Level, codec: Codec, cancelBefore: nat, packError: Option<string>): seq<Event>
  {
    [Progress(0.0), Status(Preparing(|tasks|))] +
    ConversionEvents(tasks, Attempted(|tasks|, true, cancelBefore), |tasks|, level, codec) +
    (if Converted(tasks, cancelBefore, level, codec) then PackEvents(outputPath, packError) else [])
  }

  /** The packing status, then the complete event or the error packing raises. */
  function PackEvents(outputPath: string, packError: Option<string>): seq<Event>
  {
    [Status(Packing)] +
    match packError
    case None => [Complete(outputPath)]
    case Some(message) => [Error(JobFailed(message))]
  }

  /** The entries a job packs into the output archive, when it gets that far and packing succeeds. */
  function JobArchive(s: Settings, input: Input, codec: Codec, cancelBefore: nat, packError: Option<string>): Option<set<string>>
  {
    match input
    case Extracted(files) =>
      var tasks := Tasks(files, s.format);
      if tasks != [] && Converted(tasks, cancelBefore, ReadLevel(s.quality), codec) && packError.None?
      then Some(PackedEntries(files, s.format))
      else None
    case _ => None
  }

  lemma AppendAfter(q: seq<Event>, a: seq<Event>, b: seq<Event>)
    ensures (q + a) + b == q + (a + b)
  {
  }

  /** Which files the window was pointed at and with what settings. */
  datatype Settings = Settings(inputPath: string, outputPath: string, format: Format, quality: string)

  /** The job's bookkeeping: the counters, the progress queue and the scratch directory's files. */
  datatype JobState = JobState(totalFiles: nat, processedFiles: nat, queue: seq<Event>, scratch: set<string>)

  class App {
    var inputPath: string
    var outputPath: string
    var format: Format
    var quality: string

    /** Shared by the job, the cancel button and the queue consumer. */
    var running: bool
    var totalFiles: nat
    var processedFiles: nat
    var queue: seq<Event>
    var scratch: set<string>

    var progress: real
    var labelText: string
    var status: string

    function Screen(): View
      reads this
    {
      View(progress, labelText, status, running)
    }

    function Config(): Settings
      reads this
    {
      Settings(inputPath, outputPath, format, quality)
    }

    function Job(): JobState
      reads this
    {
      JobState(totalFiles, processedFiles, queue, scratch)
    }

    /** A fresh window: nothing chosen, WebP at quality 80, an empty bar and the ready status. */
    constructor ()
      ensures Config() == Settings("", "", WebP, DefaultQuality)
      ensures Job() == JobState(0, 0, [], {})
      ensures Screen() == View(0.0, "0%", Ready, false)
      ensures Screen().labelText == PercentLabel(Screen().progress)
    {
      inputPath := "";
      outputPath := "";
      format := WebP;
      quality := DefaultQuality;
      running := false;
      totalFiles := 0;
      processedFiles := 0;
      queue := [];
      scratch := {};
      progress := 0.0;
      labelText := "0%";
      status := Ready;
      assert IntToString(Trunc(0.0)) == "0";
    }

    /** Checks the quality text, putting the default back when it is rejected. */
    method ValidateQuality() returns (ok: bool)
      modifies this
      ensures ok == Validate(old(quality)).accepted
      ensures Config() == old(Config()).(quality := Validate(old(quality)).text)
      ensures Job() == old(Job()) && Screen() == old(Screen())
    {
      var verdict := Validate(quality);
      ok := verdict.accepted;
      quality := verdict.text;
    }

    /** Proposes an output path next to the input when an input is chosen or the format changes. */
    method UpdateOutputSuffix()
      modifies this
      ensures Config() == old(Config()).(outputPath := DefaultOutputPath(inputPath, format, old(outputPath)))
      ensures Job() == old(Job()) && Screen() == old(Screen())
    {
      outputPath := DefaultOutputPath(inputPath, format, outputPath);
    }

    /**
     * The start button: a job starts exactly when the quality is accepted
     * and both paths are chosen, in a new, empty scratch directory.
     */
    method Start() returns (started: bool)
      modifies this
      ensures started <==> Validate(old(quality)).accepted && inputPath != "" && outputPath != ""
      ensures Config() == old(Config()).(quality := Validate(old(quality)).text)
      ensures started ==> running && Job() == old(Job()).(scratch := {})
      ensures !started ==> running == old(running) && Job() == old(Job())
      ensures progress == old(progress) && labelText == old(labelText) && status == old(status)
    {
      started := ValidateQuality();
      if !started {
        return;
      }
      if inputPath == "" || outputPath == "" {
        started := false;
        return;
      }
      running := true;
      scratch := {};
    }

    /** The cancel button: once confirmed, the run is stopped and the status says so. */
    method Cancel(confirmed: bool)
      modifies this
      ensures confirmed ==> Screen() == old(Screen()).(status := Cancelling, running := false)
      ensures !confirmed ==> Screen() == old(Screen())
      ensures Config() == old(Config()) && Job() == old(Job())
    {
      if confirmed {
        running := false;
        status := Cancelling;
      }
    }

    /**
     * Converts one image while the run goes on: reports the file, then either
     * counts it and reports the new progress, or reports the error and stops
     * the run. Once the run is stopped it does nothing.
     */
    method ConvertImage(src: string, dst: string, codec: Codec, ghost level: Level)
      requires level == ReadLevel(quality)
      modifies this
      ensures !old(running) ==> Job() == old(Job()) && !running
      ensures old(running) ==> queue == old(queue) + StepEvents(Task(src, dst), old(processedFiles) + 1, totalFiles, level, codec)
      ensures old(running) ==> (running <==> ConversionError(src, dst, level, codec).None? && totalFiles > 0)
      ensures var encoded := old(running) && ConversionError(src, dst, level, codec).None?;
        && processedFiles == old(processedFiles) + (if encoded then 1 else 0)
        && scratch == old(scratch) + (if encoded then {dst} else {})
      ensures totalFiles == old(totalFiles) && Config() == old(Config())
      ensures progress == old(progress) && labelText == old(labelText) && status == old(status)
    {
      if !running {
        return;
      }
      var processing := [Status(Processing(src))];
      queue := queue + processing;
      var failure := ConversionError(src, dst, ReadLevel(quality), codec);
      if failure.Some? {
        var failed := [Error(ConversionFailed(src, failure.value))];
        queue := queue + failed;
        running := false;
        AppendAfter(old(queue), processing, failed);
        return;
      }
      scratch := scratch + {dst};
      processedFiles := processedFiles + 1;
      var outcome;
      if totalFiles == 0 {
        outcome := [Error(ConversionFailed(src, DivisionByZero))];
        running := false;
      } else {
        outcome := [Progress(Percent(processedFiles, totalFiles))];
      }
      queue := queue + outcome;
      AppendAfter(old(queue), processing, outcome);
    }

    method RunConversions(tasks: seq<Task>, codec: Codec, cancelBefore: nat, ghost level: Level)
      requires totalFiles == |tasks| && processedFiles == 0 && level == ReadLevel(quality)
      modifies this
      ensures queue == old(queue) + ConversionEvents(tasks, Attempted(|tasks|, old(running), cancelBefore), |tasks|, level, codec)
      ensures running <==> old(running) && cancelBefore > |tasks| && EncodedBefore(tasks, |tasks|, level, codec)
      ensures processedFiles == ConvertedCount(tasks, Attempted(|tasks|, old(running), cancelBefore), level, codec)
      ensures scratch == old(scratch) + TargetsBefore(tasks, processedFiles)
      ensures running ==> processedFiles == |tasks| && scratch == old(scratch) + Targets(tasks)
      ensures totalFiles == |tasks| && Config() == old(Config())
      ensures progress == old(progress) && labelText == old(labelText)
      ensures status == if CancelReached(tasks, old(running), cancelBefore, level, codec) then Cancelling else old(status)
    {
      var i := 0;
      while i < |tasks| && i != cancelBefore && running
        invariant i <= |tasks| && i <= cancelBefore
        invariant totalFiles == |tasks| && Config() == old(Config()) && level == ReadLevel(quality)
        invariant progress == old(progress) && labelText == old(labelText) && status == old(status)
        invariant queue == old(queue) + ConversionEvents(tasks, i, |tasks|, level, codec)
        invariant processedFiles == ConvertedCount(tasks, i, level, codec)
        invariant scratch == old(scratch) + TargetsBefore(tasks, processedFiles)
        invariant running ==> old(running) && EncodedBefore(tasks, i, level, codec) && processedFiles == i
        invariant 0 < i ==> old(running) && EncodedBefore(tasks, i - 1, level, codec)
        invariant !running ==> (i == 0 && !old(running)) || (0 < i && !EncodedBefore(tasks, i, level, codec))
      {
        ConvertedCountNext(tasks, i, level, codec);
        ConvertTask(tasks, i, codec, level);
        AppendAfter(old(queue), ConversionEvents(tasks, i, |tasks|, level, codec), StepEvents(tasks[i], i + 1, |tasks|, level, codec));
        i := i + 1;
      }
      if i == cancelBefore {
        Cancel(true);
      }
      if i == |tasks| {
        TargetsBeforeIsPrefix(tasks, i);
        assert tasks[..i] == tasks;
      }
      if !running {
        StoppedRun(tasks, i, cancelBefore, old(running), level, codec);
      }
    }

    /**
     * The conversion job, from the running start of a run in a new, empty
     * scratch directory: its events, the entries of the archive it packs
     * (when packing succeeds; `packError` is the error packing raises, if
     * any) and the scratch directory removed on every path.
     */
    method BackgroundProcess(input: Input, codec: Codec, cancelBefore: nat, packError: Option<string>)
      returns (archive: Option<set<string>>)
      requires running && scratch == {}
      modifies this
      ensures queue == old(queue) + JobEvents(Config(), input, codec, cancelBefore, packError)
      ensures archive == JobArchive(Config(), input, codec, cancelBefore, packError)
      ensures Config() == old(Config()) && scratch == {}
      ensures progress == old(progress) && labelText == old(labelText)
      ensures !input.Extracted? || Tasks(input.files, format) == [] ==>
                running && status == old(status) && totalFiles == old(totalFiles) && processedFiles == old(processedFiles)
      ensures input.Extracted? && Tasks(input.files, format) != [] ==>
                && totalFiles == |Tasks(input.files, format)|
                && processedFiles == ConvertedCount(Tasks(input.files, format), Attempted(totalFiles, true, cancelBefore),
                                                    ReadLevel(quality), codec)
                && (running <==> Converted(Tasks(input.files, format), cancelBefore, ReadLevel(quality), codec))
                && (running ==> processedFiles == totalFiles)
                && status == if CancelReached(Tasks(input.files, format), true, cancelBefore, ReadLevel(quality), codec)
                             then Cancelling else old(status)
    {
      match input {
        case Missing =>
          queue := queue + [Error(InputMissing)];
          scratch := {};
          return None;
        case Unreadable(message) =>
          queue := queue + [Status(Unpacking), Error(JobFailed(message))];
          scratch := {};
          return None;
        case Extracted(files) =>
          queue := queue + [Status(Unpacking)];
          ghost var tasks := Tasks(files, format);
          ghost var rest := if tasks == [] then [Error(NoImages)]
                            else RunEvents(outputPath, tasks, ReadLevel(quality), codec, cancelBefore, packError);
          archive := ProcessFiles(files, codec, cancelBefore, packError, ReadLevel(quality));
          if running && tasks != [] {
            ConvertedCountOfConverted(tasks, cancelBefore, ReadLevel(quality), codec);
          }
          AppendAfter(old(queue), [Status(Unpacking)], rest);
      }
    }

    /** Steps 3 to 8 of the job, on the files extraction wrote to the empty scratch directory. */
    method ProcessFiles(files: seq<string>, codec: Codec, cancelBefore: nat, packError: Option<string>,
                        ghost level: Level)
      returns (archive: Option<set<string>>)
      requires running && scratch == {} && level == ReadLevel(quality)
      modifies this
      ensures Tasks(files, format) == [] ==> queue == old(queue) + [Error(NoImages)] && archive == None
      ensures Tasks(files, format) == [] ==>
                running && status == old(status) && totalFiles == old(totalFiles) && processedFiles == old(processedFiles)
      ensures Tasks(files, format) != [] ==>
                && queue == old(queue) + RunEvents(outputPath, Tasks(files, format), level, codec, cancelBefore, packError)
                && archive == (if Converted(Tasks(files, format), cancelBefore, level, codec) && packError.None?
                               then Some(PackedEntries(files, format)) else None)
                && totalFiles == |Tasks(files, format)|
                && processedFiles == ConvertedCount(Tasks(files, format), Attempted(totalFiles, true, cancelBefore), level, codec)
                && (running <==> Converted(Tasks(files, format), cancelBefore, level, codec))
                && status == if CancelReached(Tasks(files, format), true, cancelBefore, level, codec)
                             then Cancelling else old(status)
      ensures Config() == old(Config()) && scratch == {}
      ensures progress == old(progress) && labelText == old(labelText)
    {
      scratch := FileSet(files);
      var tasks := Discover(files, format);
      if tasks == [] {
        queue := queue + [Error(NoImages)];
        scratch := {};
        return None;
      }
      archive := ConvertAndPack(files, tasks, codec, cancelBefore, packError, level);
    }

    /**
     * Steps 4 to 8 of the job, once images were found: the counters are
     * reset, the images converted and, when all of them converted, the
     * originals deleted and the scratch directory packed.
     */
    method ConvertAndPack(ghost files: seq<string>, tasks: seq<Task>, codec: Codec, cancelBefore: nat, packError: Option<string>,
                          ghost level: Level)
      returns (archive: Option<set<string>>)
      requires running && level == ReadLevel(quality) && tasks == Tasks(files, format) && tasks != [] && scratch == FileSet(files)
      modifies this
      ensures queue == old(queue) + RunEvents(outputPath, tasks, level, codec, cancelBefore, packError)
      ensures archive == if Converted(tasks, cancelBefore, level, codec) && packError.None?
                         then Some(PackedEntries(files, format)) else None
      ensures totalFiles == |tasks|
      ensures processedFiles == ConvertedCount(tasks, Attempted(|tasks|, true, cancelBefore), level, codec)
      ensures running <==> Converted(tasks, cancelBefore, level, codec)
      ensures status == if CancelReached(tasks, true, cancelBefore, level, codec) then Cancelling else old(status)
      ensures Config() == old(Config()) && scratch == {}
      ensures progress == old(progress) && labelText == old(labelText)
    {
      totalFiles := |tasks|;
      processedFiles := 0;
      var counted := [Progress(0.0), Status(Preparing(totalFiles))];
      queue := queue + counted;
      ghost var conversions := ConversionEvents(tasks, Attempted(|tasks|, true, cancelBefore), |tasks|, level, codec);
      RunConversions(tasks, codec, cancelBefore, level);
      AppendAfter(old(queue), counted, conversions);
      archive := FinishRun(files, tasks, packError);
      AppendAfter(old(queue), counted + conversions, if running then PackEvents(outputPath, packError) else []);
    }

    /**
     * Steps 6 to 8 of the job, once the conversions are over: when the run
     * is still going the originals are deleted and what is left in the
     * scratch directory is packed; the scratch directory is removed either way.
     */
    method FinishRun(ghost files: seq<string>, tasks: seq<Task>, packError: Option<string>)
      returns (archive: Option<set<string>>)
      requires tasks == Tasks(files, format) && (running ==> scratch == FileSet(files) + Targets(tasks))
      modifies this
      ensures queue == old(queue) + if old(running) then PackEvents(outputPath, packError) else []
      ensures archive == if old(running) && packError.None? then Some(PackedEntries(files, format)) else None
      ensures scratch == {} && Config() == old(Config()) && Screen() == old(Screen())
      ensures totalFiles == old(totalFiles) && processedFiles == old(processedFiles)
    {
      if !running {
        assert queue + [] == queue;
        scratch := {};
        return None;
      }
      RemoveOriginals(tasks);
      assert scratch == PackedEntries(files, format) by {
        ScratchAfterRemoval(files, format);
      }
      archive := Pack(packError);
    }

    /** Step 6 of the job: each original image still in the scratch directory is deleted. */
    method RemoveOriginals(tasks: seq<Task>)
      modifies this
      ensures scratch == old(scratch) - SourcesBefore(tasks, |tasks|)
      ensures Config() == old(Config()) && Screen() == old(Screen())
      ensures queue == old(queue) && totalFiles == old(totalFiles) && processedFiles == old(processedFiles)
    {
      var j := 0;
      while j < |tasks|
        invariant j <= |tasks|
        invariant scratch == old(scratch) - SourcesBefore(tasks, j)
        invariant Config() == old(Config()) && Screen() == old(Screen())
        invariant queue == old(queue) && totalFiles == old(totalFiles) && processedFiles == old(processedFiles)
      {
        if tasks[j].src in scratch {
          scratch := scratch - {tasks[j].src};
        }
        j := j + 1;
      }
    }

    /**
     * Steps 7 and 8 of the job, after the originals are deleted: the
     * packing status, then the archive of what the scratch directory holds
     * and the complete event, or the error packing raises; the scratch
     * directory is removed either way.
     */
    method Pack(packError: Option<string>) returns (archive: Option<set<string>>)
      modifies this
      ensures queue == old(queue) + PackEvents(outputPath, packError)
      ensures archive == if packError.None? then Some(old(scratch)) else None
      ensures scratch == {} && Config() == old(Config()) && Screen() == old(Screen())
      ensures totalFiles == old(totalFiles) && processedFiles == old(processedFiles)
    {
      queue := queue + [Status(Packing)];
      if packError.Some? {
        queue := queue + [Error(JobFailed(packError.value))];
        scratch := {};
        return None;
      }
      archive := Some(scratch);
      queue := queue + [Complete(outputPath)];
      scratch := {};
    }

    /** Task `i` of a run in which every earlier task was encoded. */
    method ConvertTask(tasks: seq<Task>, i: nat, codec: Codec, ghost level: Level)
      requires i < |tasks| && running && totalFiles == |tasks| && processedFiles == i
      requires level == ReadLevel(quality) && EncodedBefore(tasks, i, level, codec)
      modifies this
      ensures queue == old(queue) + StepEvents(tasks[i], i + 1, |tasks|, level, codec)
      ensures ConversionEvents(tasks, i + 1, |tasks|, level, codec) ==
              ConversionEvents(tasks, i, |tasks|, level, codec) + StepEvents(tasks[i], i + 1, |tasks|, level, codec)
      ensures running <==> EncodedBefore(tasks, i + 1, level, codec)
      ensures running ==> processedFiles == i + 1 && scratch == old(scratch) + {tasks[i].dst}
      ensures !running ==> processedFiles == i && scratch == old(scratch)
      ensures totalFiles == old(totalFiles) && Config() == old(Config())
      ensures progress == old(progress) && labelText == old(labelText) && status == old(status)
    {
      EncodedBeforeNext(tasks, i, level, codec);
      ConvertImage(tasks[i].src, tasks[i].dst, codec, level);
    }

    /** The consumer's handling of one event. */
    method Handle(e: Event)
      modifies this
      ensures Screen() == Render(old(Screen()), e)
      ensures Config() == old(Config()) && Job() == old(Job())
    {
      match e
      case Progress(x) =>
        progress := x;
        labelText := PercentLabel(x);
      case Status(text) =>
        status := text;
      case Complete(_) =>
        status := Finished;
        running := false;
      case Error(_) =>
        status := Failed;
        running := false;
    }

    /** One turn of the consumer: takes the oldest event, if any, and handles it. */
    method ConsumeNext()
      modifies this
      ensures old(queue) == [] ==> Screen() == old(Screen()) && queue == []
      ensures old(queue) != [] ==> Screen() == Render(old(Screen()), old(queue)[0]) && queue == old(queue)[1..]
      ensures Config() == old(Config())
      ensures totalFiles == old(totalFiles) && processedFiles == old(processedFiles) && scratch == old(scratch)
    {
      if queue != [] {
        var e := queue[0];
        queue := queue[1..];
        Handle(e);
      }
    }

    /** The consumer running until the queue is empty. */
    method DrainQueue()
      modifies this
      ensures queue == [] && Screen() == RenderAll(old(Screen()), old(queue))
      ensures Config() == old(Config())
      ensures totalFiles == old(totalFiles) && processedFiles == old(processedFiles) && scratch == old(scratch)
    {
      while queue != []
        invariant RenderAll(Screen(), queue) == RenderAll(old(Screen()), old(queue))
        invariant Config() == old(Config())
        invariant totalFiles == old(totalFiles) && processedFiles == old(processedFiles) && scratch == old(scratch)
        decreases |queue|
      {
        ConsumeNext();
      }
    }
  }
}
