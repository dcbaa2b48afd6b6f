/** The file-transfer progress bar: the base bar plus the byte counts, the
    time since data was last received, and a stall notification raised on
    every timer tick once no report has arrived for the stall interval. */
module FileTransfer {

  import opened Wrappers
  import opened Strings
  import opened Redraw
  import opened ProgressBar
  import opened TimeSpanExtensions

  /** The stall notification: when data was last received and when the stall
      was noticed, both in ticks. */
  datatype StallEvent = StallEvent(lastDataReceived: int, timeOutTriggered: int)
  {
    /** `TimeOutTriggered - LastDataReceived`. */
    function Elapsed(): int
    {
      timeOutTriggered - lastDataReceived
    }
  }

  /** The base display configuration and the two toggles the transfer bar adds. */
  datatype TransferView = TransferView(style: BarStyle, displayBytes: bool, displayLastRxTime: bool)

  /** `" {(int)(progress * 100)}% "`, or nothing when the percentage is hidden. */
  function TransferPercentPart(style: BarStyle, progress: real): string
    requires 0.0 <= progress <= 1.0
  {
    if style.displayPercentComplete then " " + NatStr(BlocksCompleted(progress, 100)) + "% " else ""
  }

  /** `" {received} of {total} "`, or nothing when the byte counts are hidden. */
  function BytesPart(view: TransferView, received: string, total: string): string
  {
    if view.displayBytes then " " + received + " of " + total + " " else ""
  }

  /** `" {elapsed} since last Rx "`, or nothing when the time is hidden. */
  function ElapsedPart(view: TransferView, elapsedTicks: int): string
  {
    if view.displayLastRxTime then " " + ToFormattedString(elapsedTicks) + " since last Rx " else ""
  }

  /** The animation glyph, or a space when the animation is hidden or the
      progress is complete. */
  function AnimationChar(style: BarStyle, progress: real, index: nat): char
    requires |style.animationSequence| > 0
  {
    if !style.displayAnimation || progress == 1.0 then ' '
    else AnimationGlyph(style.animationSequence, index)
  }

  /** The segments laid end to end, before the double spaces are replaced. */
  function RawTransferFrame(view: TransferView, received: string, total: string,
                            progress: real, elapsedTicks: int, index: nat): string
    requires 0.0 <= progress <= 1.0
    requires |view.style.animationSequence| > 0
  {
    BarPart(view.style, progress) + TransferPercentPart(view.style, progress)
      + BytesPart(view, received, total) + ElapsedPart(view, elapsedTicks)
      + " " + [AnimationChar(view.style, progress, index)] + " "
  }

  /** One frame of the transfer bar. `received` and `total` are the formatted
      byte counts. The trimmed copy of the line is thrown away, so the frame
      is never trimmed: it always ends in a space. */
  function TransferFrame(view: TransferView, received: string, total: string,
                         progress: real, elapsedTicks: int, index: nat): (r: string)
    requires 0.0 <= progress <= 1.0
    requires |view.style.animationSequence| > 0
    ensures |r| > 0 && r[|r| - 1] == ' '
  {
    var raw := RawTransferFrame(view, received, total, progress, elapsedTicks, index);
    ReplaceKeepsTrailingSpace(raw);
    ReplaceDoubleSpaces(raw)
  }

  /** The percentage is truncated, not rounded: it is the largest whole
      percent not above the progress, and it reads 100 only at completion. */
  lemma PercentTruncated(style: BarStyle, progress: real)
    requires 0.0 <= progress <= 1.0
    requires style.displayPercentComplete
    ensures exists k: nat ::
      && TransferPercentPart(style, progress) == " " + NatStr(k) + "% "
      && k as real <= progress * 100.0 < k as real + 1.0
      && k <= 100
      && (k == 100 <==> progress == 1.0)
  {
    var k := BlocksCompleted(progress, 100);
    BlocksCompletedFull(progress, 100);
    assert TransferPercentPart(style, progress) == " " + NatStr(k) + "% ";
  }

  /** Replacing double spaces only removes spaces: the other characters of the
      frame are those of the bar, the percentage, the byte counts, the elapsed
      time and the animation glyph, in that order. */
  lemma TransferFrameNonSpaces(view: TransferView, received: string, total: string,
                               progress: real, elapsedTicks: int, index: nat)
    requires 0.0 <= progress <= 1.0
    requires |view.style.animationSequence| > 0
    ensures NonSpaces(TransferFrame(view, received, total, progress, elapsedTicks, index))
         == NonSpaces(BarPart(view.style, progress)) + NonSpaces(TransferPercentPart(view.style, progress))
            + NonSpaces(BytesPart(view, received, total)) + NonSpaces(ElapsedPart(view, elapsedTicks))
            + NonSpaces([AnimationChar(view.style, progress, index)])
  {
    var bar := BarPart(view.style, progress);
    var percent := TransferPercentPart(view.style, progress);
    var bytes := BytesPart(view, received, total);
    var elapsed := ElapsedPart(view, elapsedTicks);
    var anim := [AnimationChar(view.style, progress, index)];
    ReplaceKeepsNonSpaces(RawTransferFrame(view, received, total, progress, elapsedTicks, index));
    NonSpacesOfParts(bar, percent, bytes, elapsed, anim);
  }

  /** The spaces between and after the parts add nothing to the non-space text. */
  lemma NonSpacesOfParts(bar: string, percent: string, bytes: string, elapsed: string, anim: string)
    ensures NonSpaces(bar + percent + bytes + elapsed + " " + anim + " ")
         == NonSpaces(bar) + NonSpaces(percent) + NonSpaces(bytes) + NonSpaces(elapsed) + NonSpaces(anim)
  {
    var l2 := bar + percent;
    var l3 := l2 + bytes;
    var l4 := l3 + elapsed;
    var l5 := l4 + " ";
    var l6 := l5 + anim;
    NonSpacesAppend(bar, percent);
    NonSpacesAppend(l2, bytes);
    NonSpacesAppend(l3, elapsed);
    NonSpacesSpaceAfter(l4);
    NonSpacesAppend(l5, anim);
    NonSpacesSpaceAfter(l6);
  }

  /** With every segment hidden, the three blanks around the space glyph are
      replaced in a single pass and two spaces are left. */
  lemma TransferFrameAllHidden(view: TransferView, received: string, total: string,
                               progress: real, elapsedTicks: int, index: nat)
    requires 0.0 <= progress <= 1.0
    requires |view.style.animationSequence| > 0
    requires !view.style.displayBar && !view.style.displayPercentComplete
    requires !view.displayBytes && !view.displayLastRxTime && !view.style.displayAnimation
    ensures TransferFrame(view, received, total, progress, elapsedTicks, index) == "  "
  {
    assert RawTransferFrame(view, received, total, progress, elapsedTicks, index) == "   ";
    assert "   "[2..] == " ";
    assert " "[1..] == "";
  }

  /** Frames `index` and `index + |AnimationSequence|` are the same. */
  lemma TransferFramePeriodic(view: TransferView, received: string, total: string,
                              progress: real, elapsedTicks: int, index: nat)
    requires 0.0 <= progress <= 1.0
    requires |view.style.animationSequence| > 0
    ensures TransferFrame(view, received, total, progress, elapsedTicks, index + |view.style.animationSequence|)
         == TransferFrame(view, received, total, progress, elapsedTicks, index)
  {
    AnimationPeriodic(view.style.animationSequence, index);
  }

  /** At complete progress the glyph is a space whatever the toggle says, so
      every frame is the same as the one with the animation hidden. */
  lemma TransferFrameComplete(view: TransferView, received: string, total: string,
                              elapsedTicks: int, index: nat)
    requires |view.style.animationSequence| > 0
    ensures TransferFrame(view, received, total, 1.0, elapsedTicks, index)
         == TransferFrame(view.(style := view.style.(displayAnimation := false)), received, total, 1.0, elapsedTicks, 0)
  {
    var off := view.(style := view.style.(displayAnimation := false));
    assert BarPart(off.style, 1.0) == BarPart(view.style, 1.0);
    assert TransferPercentPart(off.style, 1.0) == TransferPercentPart(view.style, 1.0);
  }

  /** Whether a tick at `now` raises the stall notification: it does exactly
      when at least `interval` ticks have passed since the last report. The
      notification is stamped with `raisedAt`, the clock read when raising. */
  function StallDecision(lastReport: int, interval: int, now: int, raisedAt: int): Option<StallEvent>
  {
    if now - lastReport < interval then None else Some(StallEvent(lastReport, raisedAt))
  }

  /** There is no deduplication: once a tick raises the notification, every
      later tick with no report in between raises it again, for the same last
      reception. */
  lemma StallRepeats(lastReport: int, interval: int, now: int, raisedAt: int, later: int, laterRaisedAt: int)
    requires StallDecision(lastReport, interval, now, raisedAt).Some?
    requires now <= later
    ensures StallDecision(lastReport, interval, later, laterRaisedAt).Some?
    ensures StallDecision(lastReport, interval, later, laterRaisedAt).value.lastDataReceived
         == StallDecision(lastReport, interval, now, raisedAt).value.lastDataReceived
  {
  }

  /** The notification is raised exactly once the stall interval has passed,
      and it then reports at least that much silence. */
  lemma StallDecisionExact(lastReport: int, interval: int, now: int, raisedAt: int)
    requires now <= raisedAt
    ensures StallDecision(lastReport, interval, now, raisedAt).Some? <==> now - lastReport >= interval
    ensures StallDecision(lastReport, interval, now, raisedAt).Some? ==>
      StallDecision(lastReport, interval, now, raisedAt).value.Elapsed() >= interval
  {
  }

  /** `FileTransferProgressBar`. The base bar's state lives in `core`; the
      transfer bar adds the time of the last report and the byte counts, and
      its own timer handler takes over the base bar's timer. */
  class FileTransferProgressBar {
    const core: ConsoleProgressBar
    var lastReportTicks: int
    var fileSizeInBytes: int
    var bytesReceived: int
    /** The stall interval, in ticks. */
    var fileStalledInterval: int
    var displayBytes: bool
    var displayLastRxTime: bool
    /** `FileHelper.FileSizeToString`. */
    const fileSizeFormat: int -> string

    ghost predicate Valid()
      reads this, core
    {
      core.Valid()
    }

    function View(): TransferView
      reads this, core
    {
      TransferView(core.Style(), displayBytes, displayLastRxTime)
    }

    /** The ticks since the last report. */
    function ElapsedTicks(now: int): int
      reads this`lastReportTicks
    {
      now - lastReportTicks
    }

    /** The base bar's defaults, the last report stamped at `now`, nothing
        received yet, the byte counts shown and the elapsed time hidden. */
    constructor (fileSizeInBytes: int, timeout: int, now: int, redirected: bool,
                 percentFormat: real -> string, fileSizeFormat: int -> string)
      ensures Valid() && core.Synced() && fresh(core)
      ensures this.fileSizeFormat == fileSizeFormat && core.redirected == redirected
      ensures core.percentFormat == percentFormat
      ensures lastReportTicks == now
      ensures this.fileSizeInBytes == fileSizeInBytes && bytesReceived == 0
      ensures fileStalledInterval == timeout
      ensures displayBytes && !displayLastRxTime
      ensures core.Style() == BarStyle(10, "[", "]", "#", "-", DefaultAnimation, true, true, true)
      ensures core.currentProgress == 0.0 && core.animationIndex == 0 && !core.disposed
      ensures core.currentText == "" && core.console == ""
      ensures core.armed == !redirected
    {
      core := new ConsoleProgressBar(redirected, percentFormat);
      lastReportTicks := now;
      this.fileSizeInBytes := fileSizeInBytes;
      bytesReceived := 0;
      fileStalledInterval := timeout;
      displayBytes := true;
      displayLastRxTime := false;
      this.fileSizeFormat := fileSizeFormat;
    }

    /** Stamps the report time, whatever the value, and stores the progress
        clamped into [0, 1]. */
    method Report(value: real, now: int)
      requires Valid()
      modifies this`lastReportTicks, core`currentProgress
      ensures Valid()
      ensures lastReportTicks == now
      ensures core.currentProgress == Clamp(value)
    {
      lastReportTicks := now;
      core.Report(value);
    }

    /** Builds the frame, growing the completed and the incomplete blocks one
        glyph at a time, and moves the animation on by one whether or not it
        is shown. */
    method GetProgressBarText(progress: real, elapsedTicks: int) returns (text: string)
      requires 0.0 <= progress <= 1.0
      requires |core.animationSequence| > 0
      modifies core`animationIndex
      ensures core.animationIndex == old(core.animationIndex) + 1
      ensures text == old(TransferFrame(View(), fileSizeFormat(bytesReceived), fileSizeFormat(fileSizeInBytes),
                                        progress, elapsedTicks, core.animationIndex))
    {
      ghost var view := View();
      var numBlocksCompleted := BlocksCompleted(progress, core.numberOfBlocks);
      var completedBlocks := "";
      var i := 0;
      while i < numBlocksCompleted
        invariant i <= numBlocksCompleted
        invariant completedBlocks == Repeat(core.completedBlock, i)
      {
        completedBlocks := completedBlocks + core.completedBlock;
        i := i + 1;
      }

      var uncompletedBlocks := "";
      var j := 0;
      while j < core.numberOfBlocks - numBlocksCompleted
        invariant j <= core.numberOfBlocks - numBlocksCompleted
        invariant uncompletedBlocks == Repeat(core.incompleteBlock, j)
      {
        uncompletedBlocks := uncompletedBlocks + core.incompleteBlock;
        j := j + 1;
      }

      var progressBar := core.startBracket + completedBlocks + uncompletedBlocks + core.endBracket + " ";
      assert core.displayBar ==> progressBar == BarPart(view.style, progress);
      var percent := " " + NatStr(BlocksCompleted(progress, 100)) + "% ";
      var bytes := " " + fileSizeFormat(bytesReceived) + " of " + fileSizeFormat(fileSizeInBytes) + " ";
      var elapsed := " " + ToFormattedString(elapsedTicks) + " since last Rx ";
      var whiteSpace := " ";
      var animation := AnimationGlyph(core.animationSequence, core.animationIndex);
      core.animationIndex := core.animationIndex + 1;

      if !core.displayBar { progressBar := ""; }
      if !core.displayPercentComplete { percent := ""; }
      if !displayBytes { bytes := ""; }
      if !displayLastRxTime { elapsed := ""; }
      if !core.displayAnimation { animation := ' '; }
      if progress == 1.0 {
        animation := ' ';
      }

      assert View() == view;
      assert progressBar == BarPart(view.style, progress);
      assert percent == TransferPercentPart(view.style, progress);
      assert bytes == BytesPart(view, fileSizeFormat(bytesReceived), fileSizeFormat(fileSizeInBytes));
      assert elapsed == ElapsedPart(view, elapsedTicks);
      assert animation == AnimationChar(view.style, progress, old(core.animationIndex));
      var fullBar := progressBar + percent + bytes + elapsed + whiteSpace + [animation] + whiteSpace;
      text := ReplaceDoubleSpaces(fullBar);
    }

    /** One timer tick at clock reading `now`; `raisedAt` is the clock read
        again when the notification is raised. A disposed bar stops there, and
        its one-shot timer, having fired, is no longer armed. Otherwise the
        frame for the time since the last report is drawn, the timer re-armed,
        and the stall notification returned when that time reaches the
        interval. */
    method TimerHandler(now: int, raisedAt: int) returns (stalled: Option<StallEvent>)
      requires Valid() && core.armed
      modifies core`armed, core`animationIndex, core`console, core`currentText
      ensures Valid()
      ensures old(core.disposed) ==>
        && stalled == None && !core.armed
        && core.animationIndex == old(core.animationIndex)
        && core.console == old(core.console) && core.currentText == old(core.currentText)
      ensures !old(core.disposed) ==>
        && core.armed && core.animationIndex == old(core.animationIndex) + 1
        && core.currentText == old(TransferFrame(View(), fileSizeFormat(bytesReceived), fileSizeFormat(fileSizeInBytes),
                                                 core.currentProgress, ElapsedTicks(now), core.animationIndex))
        && core.console == old(core.console) + RedrawOutput(old(core.currentText), core.currentText)
        && stalled == StallDecision(lastReportTicks, fileStalledInterval, now, raisedAt)
      ensures !old(core.disposed) && old(core.Synced()) && BS !in core.currentText ==> core.Synced()
    {
      if core.disposed {
        core.armed := false;
        stalled := None;
        return;
      }
      ghost var synced := core.Synced();
      var text := GetProgressBarText(core.currentProgress, ElapsedTicks(now));
      assert core.Synced() == synced;
      core.UpdateText(text);
      core.ResetTimer();
      stalled := None;
      if ElapsedTicks(now) >= fileStalledInterval {
        stalled := Some(StallEvent(lastReportTicks, raisedAt));
      }
    }

    /** Marks the bar disposed; later ticks do nothing and do not re-arm. */
    method Dispose()
      requires Valid()
      modifies core`disposed
      ensures Valid()
      ensures core.disposed
    {
      core.Dispose();
    }
  }
}
