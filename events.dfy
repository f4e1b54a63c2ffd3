/**
 * The progress queue shared by the conversion job and the window, and what
 * the window's consumer does with each event it takes off that queue.
 *
 * The window is reduced to the four things the consumer writes: the value of
 * the progress bar, the percentage label next to it, the status line and the
 * application's `running` flag.
 */
module Events {
  import opened Wrappers
  import opened Numerals

  /** One entry of the progress queue, tagged by its `type` key. */
  datatype Event =
    | Progress(value: real)
    | Status(text: string)
    | Complete(path: string)
    | Error(text: string)
  {
    /** Complete and error events end a job: they stop the run and re-enable the start button. */
    predicate IsTerminal() { Complete? || Error? }
  }

  const Finished: string := "转换完成！"
  const Failed: string := "转换失败"

  /** What the window shows of a job. */
  datatype View = View(progress: real, labelText: string, status: string, running: bool)

  /** Python's `int()` on a float: the integer part, rounded toward zero. */
  function Trunc(x: real): (r: int)
    ensures x >= 0.0 ==> r as real <= x < r as real + 1.0
    ensures x < 0.0 ==> r as real - 1.0 < x <= r as real
  {
    if x >= 0.0 then x.Floor else 0 - (0.0 - x).Floor
  }

  /** The label text for a bar value: its integer part followed by `%`. */
  function PercentLabel(value: real): string
  {
    IntToString(Trunc(value)) + "%"
  }

  /** The status line an event writes, if it writes one. */
  function StatusOf(e: Event): Option<string>
  {
    match e
    case Progress(_) => None
    case Status(text) => Some(text)
    case Complete(_) => Some(Finished)
    case Error(_) => Some(Failed)
  }

  /** The consumer's handling of one event. */
  function Render(v: View, e: Event): View
  {
    match e
    case Progress(x) => v.(progress := x, labelText := PercentLabel(x))
    case Status(text) => v.(status := text)
    case Complete(_) => v.(status := Finished, running := false)
    case Error(_) => v.(status := Failed, running := false)
  }

  /** The consumer's handling of a run of events, oldest first. */
  function RenderAll(v: View, es: seq<Event>): View
    decreases |es|
  {
    if es == [] then v else RenderAll(Render(v, es[0]), es[1..])
  }

  /** The labelText shows the integer part of the bar value, read back by Python's `int()`. */
  lemma LabelReadsBack(value: real)
    ensures var labelText := PercentLabel(value);
      labelText[|labelText| - 1] == '%' && ParseInt(labelText[..|labelText| - 1]) == Some(Trunc(value))
  {
    var digits := IntToString(Trunc(value));
    assert PercentLabel(value)[..|PercentLabel(value)| - 1] == digits;
    ParseIntToString(Trunc(value));
  }

  /**
   * One event: a progress event moves only the bar and its labelText, a status
   * event changes only the status line, and complete and error events set
   * their fixed status and stop the run.
   */
  lemma RenderOne(v: View, e: Event)
    ensures var r := Render(v, e);
      && (e.Progress? ==> r == v.(progress := e.value, labelText := PercentLabel(e.value)))
      && (r.status == match StatusOf(e) case Some(s) => s case None => v.status)
      && (r.running == (v.running && !e.IsTerminal()))
      && (e.Progress? ==> r.status == v.status && r.running == v.running)
      && (!e.Progress? ==> r.progress == v.progress && r.labelText == v.labelText)
  {
  }

  /** Consuming events keeps the labelText in step with the bar. */
  lemma {:induction false} LabelTracksProgress(v: View, es: seq<Event>)
    requires v.labelText == PercentLabel(v.progress)
    ensures RenderAll(v, es).labelText == PercentLabel(RenderAll(v, es).progress)
    decreases |es|
  {
    if es != [] {
      LabelTracksProgress(Render(v, es[0]), es[1..]);
    }
  }

  /** Without a progress event the bar and its labelText stay as they were. */
  lemma {:induction false} NoProgressKeepsBar(v: View, es: seq<Event>)
    requires forall j :: 0 <= j < |es| ==> !es[j].Progress?
    ensures RenderAll(v, es).progress == v.progress && RenderAll(v, es).labelText == v.labelText
    decreases |es|
  {
    if es != [] {
      NoProgressKeepsBar(Render(v, es[0]), es[1..]);
    }
  }

  /** The bar shows the latest progress event's value and the labelText its integer part. */
  lemma {:induction false} LatestProgressWins(v: View, es: seq<Event>, k: nat)
    requires k < |es| && es[k].Progress?
    requires forall j :: k < j < |es| ==> !es[j].Progress?
    ensures RenderAll(v, es).progress == es[k].value
    ensures RenderAll(v, es).labelText == PercentLabel(es[k].value)
    decreases |es|
  {
    if k == 0 {
      NoProgressKeepsBar(Render(v, es[0]), es[1..]);
    } else {
      LatestProgressWins(Render(v, es[0]), es[1..], k - 1);
    }
  }

  /** Without an event that writes the status line it stays as it was. */
  lemma {:induction false} NoStatusKeepsLine(v: View, es: seq<Event>)
    requires forall j :: 0 <= j < |es| ==> StatusOf(es[j]).None?
    ensures RenderAll(v, es).status == v.status
    decreases |es|
  {
    if es != [] {
      NoStatusKeepsLine(Render(v, es[0]), es[1..]);
    }
  }

  /** The status line shows what the latest status-writing event writes. */
  lemma {:induction false} LatestStatusWins(v: View, es: seq<Event>, k: nat)
    requires k < |es| && StatusOf(es[k]).Some?
    requires forall j :: k < j < |es| ==> StatusOf(es[j]).None?
    ensures RenderAll(v, es).status == StatusOf(es[k]).value
    decreases |es|
  {
    if k == 0 {
      NoStatusKeepsLine(Render(v, es[0]), es[1..]);
    } else {
      LatestStatusWins(Render(v, es[0]), es[1..], k - 1);
    }
  }

  /**
   * The consumer never starts a run: after a run of events the application
   * is running exactly when it was before and none of the events was
   * terminal.
   */
  lemma {:induction false} RunningUntilTerminal(v: View, es: seq<Event>)
    ensures RenderAll(v, es).running <==> v.running && forall j :: 0 <= j < |es| ==> !es[j].IsTerminal()
    decreases |es|
  {
    if es != [] {
      RunningUntilTerminal(Render(v, es[0]), es[1..]);
      if forall j :: 0 <= j < |es| ==> !es[j].IsTerminal() {
        assert forall j :: 0 <= j < |es| - 1 ==> !es[1..][j].IsTerminal() by {
          forall j | 0 <= j < |es| - 1 ensures !es[1..][j].IsTerminal() {
            assert es[1..][j] == es[j + 1];
          }
        }
      } else if !es[0].IsTerminal() {
        var j :| 0 <= j < |es| && es[j].IsTerminal();
        assert es[1..][j - 1] == es[j];
      }
    }
  }

  /**
   * Events ending with a progress value, a status line and the complete
   * event leave the bar at that value, the finished status and the run over.
   */
  lemma FinishedScreen(v: View, es: seq<Event>)
    requires |es| >= 3 && es[|es| - 3].Progress? && es[|es| - 2].Status? && es[|es| - 1].Complete?
    ensures RenderAll(v, es) == View(es[|es| - 3].value, PercentLabel(es[|es| - 3].value), Finished, false)
  {
    LatestProgressWins(v, es, |es| - 3);
    LatestStatusWins(v, es, |es| - 1);
    RunningUntilTerminal(v, es);
  }

  /** Consuming two runs of events one after the other is consuming their concatenation. */
  lemma {:induction false} RenderAllConcat(v: View, a: seq<Event>, b: seq<Event>)
    ensures RenderAll(v, a + b) == RenderAll(RenderAll(v, a), b)
    decreases |a|
  {
    if a != [] {
      assert (a + b)[0] == a[0];
      assert (a + b)[1..] == a[1..] + b;
      RenderAllConcat(Render(v, a[0]), a[1..], b);
    } else {
      assert a + b == b;
    }
  }
}
