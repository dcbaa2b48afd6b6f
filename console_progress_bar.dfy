/** The basic console progress bar: the progress cell, the frame builder, the
    redraw of the console line on every timer tick, and disposal. */
module ProgressBar {

  import opened Strings
  import opened Redraw
  import opened Arithmetic

  /** The default spinner, `ProgressAnimations.Default`. */
  const DefaultAnimation: string := "-\\|/"

  /** The display configuration both bars share. */
  datatype BarStyle = BarStyle(
    numberOfBlocks: nat,
    startBracket: string,
    endBracket: string,
    completedBlock: string,
    incompleteBlock: string,
    animationSequence: string,
    displayBar: bool,
    displayPercentComplete: bool,
    displayAnimation: bool)

  /** `Math.Max(0, Math.Min(1, value))`. */
  function Clamp(value: real): (r: real)
    ensures 0.0 <= r <= 1.0
    ensures 0.0 <= value <= 1.0 ==> r == value
    ensures value < 0.0 ==> r == 0.0
    ensures value > 1.0 ==> r == 1.0
  {
    if value < 0.0 then 0.0 else if value > 1.0 then 1.0 else value
  }

  /** `(int)(progress * NumberOfBlocks)`: the number of completed blocks. */
  function BlocksCompleted(progress: real, n: nat): (k: nat)
    requires 0.0 <= progress <= 1.0
    ensures k <= n
    ensures k as real <= progress * n as real < k as real + 1.0
  {
    assert progress * n as real <= n as real;
    (progress * n as real).Floor
  }

  /** With at least one block, the bar is full exactly when progress is 1. */
  lemma BlocksCompletedFull(progress: real, n: nat)
    requires 0.0 <= progress <= 1.0
    requires n > 0
    ensures BlocksCompleted(progress, n) == n <==> progress == 1.0
  {
    var k := BlocksCompleted(progress, n);
    if progress < 1.0 {
      assert progress * n as real < n as real;
    }
  }

  /** More progress never shows fewer completed blocks. */
  lemma BlocksCompletedMonotonic(p: real, q: real, n: nat)
    requires 0.0 <= p <= q <= 1.0
    ensures BlocksCompleted(p, n) <= BlocksCompleted(q, n)
  {
    var a := p * n as real;
    var b := q * n as real;
    assert a <= b;
    var kp := BlocksCompleted(p, n);
    var kq := BlocksCompleted(q, n);
    assert kp as real < kq as real + 1.0;
  }

  /** `StartBracket`, the completed blocks, the incomplete blocks, `EndBracket`. */
  function BarSegment(style: BarStyle, progress: real): string
    requires 0.0 <= progress <= 1.0
  {
    var k := BlocksCompleted(progress, style.numberOfBlocks);
    style.startBracket + Repeat(style.completedBlock, k)
      + Repeat(style.incompleteBlock, style.numberOfBlocks - k) + style.endBracket
  }

  /** With one-character block glyphs the bar holds exactly `NumberOfBlocks`
      glyphs between its brackets: `floor(p * N)` completed ones, then the rest
      incomplete. */
  lemma BarSegmentGlyphs(style: BarStyle, progress: real)
    requires 0.0 <= progress <= 1.0
    requires |style.completedBlock| == 1 && |style.incompleteBlock| == 1
    ensures var seg := BarSegment(style, progress);
      var n := style.numberOfBlocks;
      var k := BlocksCompleted(progress, n);
      var open := |style.startBracket|;
      && |seg| == open + n + |style.endBracket|
      && seg[..open] == style.startBracket
      && seg[open + n..] == style.endBracket
      && (forall i | open <= i < open + k :: seg[i] == style.completedBlock[0])
      && (forall i | open + k <= i < open + n :: seg[i] == style.incompleteBlock[0])
  {
    var n := style.numberOfBlocks;
    var k := BlocksCompleted(progress, n);
    RepeatGlyph(style.completedBlock, k);
    RepeatGlyph(style.incompleteBlock, n - k);
    var seg := BarSegment(style, progress);
    var open := |style.startBracket|;
    var blocks := Chars(style.completedBlock[0], k) + Chars(style.incompleteBlock[0], n - k);
    assert seg == style.startBracket + blocks + style.endBracket;
    forall i | open <= i < open + n
      ensures seg[i] == if i < open + k then style.completedBlock[0] else style.incompleteBlock[0]
    {
      assert seg[i] == blocks[i - open];
    }
  }

  /** For blocks of any length the bar is the brackets around `k` completed
      and `NumberOfBlocks - k` incomplete blocks, `k` the completed count. */
  lemma BarSegmentLength(style: BarStyle, progress: real)
    requires 0.0 <= progress <= 1.0
    ensures var k := BlocksCompleted(progress, style.numberOfBlocks);
      |BarSegment(style, progress)|
        == |style.startBracket| + k * |style.completedBlock|
           + (style.numberOfBlocks - k) * |style.incompleteBlock| + |style.endBracket|
  {
    var k := BlocksCompleted(progress, style.numberOfBlocks);
    RepeatLength(style.completedBlock, k);
    RepeatLength(style.incompleteBlock, style.numberOfBlocks - k);
  }

  /** The glyph of the animation for frame number `index`. */
  function AnimationGlyph(sequence: string, index: nat): (c: char)
    requires |sequence| > 0
    ensures c in sequence
  {
    sequence[index % |sequence|]
  }

  /** The animation repeats with a period of the sequence length. */
  lemma AnimationPeriodic(sequence: string, index: nat)
    requires |sequence| > 0
    ensures AnimationGlyph(sequence, index + |sequence|) == AnimationGlyph(sequence, index)
  {
    var n := |sequence|;
    DivModUnique(index + n, n, index / n + 1, index % n);
  }

  /** The bar segment and its separator, or nothing when the bar is hidden. */
  function BarPart(style: BarStyle, progress: real): string
    requires 0.0 <= progress <= 1.0
  {
    if style.displayBar then BarSegment(style, progress) + " " else ""
  }

  /** The percent text, left-padded with non-breaking spaces to width 4, and
      its separator, or nothing when the percentage is hidden. */
  function PercentPart(style: BarStyle, percentText: string): string
  {
    if style.displayPercentComplete then PadLeft(percentText, 4, NBSP) + " " else ""
  }

  /** The animation glyph, or nothing when the animation is hidden or the
      progress is complete. */
  function AnimationPart(style: BarStyle, progress: real, index: nat): string
    requires |style.animationSequence| > 0
  {
    if !style.displayAnimation || progress == 1.0 then ""
    else [AnimationGlyph(style.animationSequence, index)]
  }

  /** One frame of the basic bar: bar, percentage and animation glyph, each
      shown segment followed by one space, trailing white space trimmed.
      `percentText` is the culture's `P0` text of the progress. */
  function Frame(style: BarStyle, percentText: string, progress: real, index: nat): (r: string)
    requires 0.0 <= progress <= 1.0
    requires |style.animationSequence| > 0
    ensures |r| == 0 || !IsWhiteSpace(r[|r| - 1])
  {
    TrimEnd(BarPart(style, progress) + PercentPart(style, percentText)
      + AnimationPart(style, progress, index))
  }

  /** Frames `index` and `index + |AnimationSequence|` are the same. */
  lemma FramePeriodic(style: BarStyle, percentText: string, progress: real, index: nat)
    requires 0.0 <= progress <= 1.0
    requires |style.animationSequence| > 0
    ensures Frame(style, percentText, progress, index + |style.animationSequence|)
         == Frame(style, percentText, progress, index)
  {
    AnimationPeriodic(style.animationSequence, index);
    assert AnimationPart(style, progress, index + |style.animationSequence|)
        == AnimationPart(style, progress, index);
  }

  /** At complete progress the animation is gone whatever the toggle says, so
      every frame is the same. */
  lemma FrameCompleteHasNoAnimation(style: BarStyle, percentText: string, i: nat, j: nat)
    requires |style.animationSequence| > 0
    ensures Frame(style, percentText, 1.0, i) == Frame(style, percentText, 1.0, j)
    ensures Frame(style, percentText, 1.0, i)
         == Frame(style.(displayAnimation := false), percentText, 1.0, i)
  {
  }

  /** With every segment shown and a visible glyph, nothing is trimmed: the
      frame is the bar, a space, the padded percent text, a space and the glyph. */
  lemma FrameAllSegments(style: BarStyle, percentText: string, progress: real, index: nat)
    requires 0.0 <= progress < 1.0
    requires |style.animationSequence| > 0
    requires style.displayBar && style.displayPercentComplete && style.displayAnimation
    requires !IsWhiteSpace(AnimationGlyph(style.animationSequence, index))
    ensures Frame(style, percentText, progress, index)
         == BarSegment(style, progress) + " " + PadLeft(percentText, 4, NBSP) + " "
            + [AnimationGlyph(style.animationSequence, index)]
  {
    var glyph := [AnimationGlyph(style.animationSequence, index)];
    var shown := BarSegment(style, progress) + " " + PadLeft(percentText, 4, NBSP) + " ";
    assert BarPart(style, progress) + PercentPart(style, percentText)
      + AnimationPart(style, progress, index) == shown + glyph;
    assert TrimEnd(glyph) == glyph;
    TrimEndAppend(shown, glyph);
  }

  /** The frame with the bar toggled on or off, as the trimmed bar part in
      front of the trimmed rest. */
  lemma FrameBarParts(style: BarStyle, percentText: string, progress: real, index: nat)
    requires 0.0 <= progress <= 1.0
    requires |style.animationSequence| > 0
    ensures var rest := PercentPart(style, percentText) + AnimationPart(style, progress, index);
      && Frame(style.(displayBar := true), percentText, progress, index) == TrimEnd((BarSegment(style, progress) + " ") + rest)
      && Frame(style.(displayBar := false), percentText, progress, index) == TrimEnd(rest)
  {
    var on := style.(displayBar := true);
    var off := style.(displayBar := false);
    var bar := BarSegment(style, progress);
    var percent := PercentPart(style, percentText);
    var anim := AnimationPart(style, progress, index);
    BarToggleKeepsParts(style, true, percentText, progress, index);
    BarToggleKeepsParts(style, false, percentText, progress, index);
    assert BarPart(on, progress) + percent + anim == (bar + " ") + (percent + anim);
    assert BarPart(off, progress) + percent + anim == percent + anim;
  }

  lemma BarToggleKeepsParts(style: BarStyle, shown: bool, percentText: string, progress: real, index: nat)
    requires 0.0 <= progress <= 1.0
    requires |style.animationSequence| > 0
    ensures BarSegment(style.(displayBar := shown), progress) == BarSegment(style, progress)
    ensures PercentPart(style.(displayBar := shown), percentText) == PercentPart(style, percentText)
    ensures AnimationPart(style.(displayBar := shown), progress, index) == AnimationPart(style, progress, index)
  {
  }

  /** Showing the bar puts the bar segment and exactly one space in front of
      what the frame shows without it. */
  lemma FrameBarToggle(style: BarStyle, percentText: string, progress: real, index: nat)
    requires 0.0 <= progress <= 1.0
    requires |style.animationSequence| > 0
    requires Frame(style.(displayBar := false), percentText, progress, index) != ""
    ensures Frame(style.(displayBar := true), percentText, progress, index)
         == BarSegment(style, progress) + " " + Frame(style.(displayBar := false), percentText, progress, index)
  {
    FrameBarParts(style, percentText, progress, index);
    var rest := PercentPart(style, percentText) + AnimationPart(style, progress, index);
    TrimEndAppend(BarSegment(style, progress) + " ", rest);
  }

  /** When nothing but the bar would be shown, its separator is trimmed away:
      no residual space is left. */
  lemma FrameBarAlone(style: BarStyle, percentText: string, progress: real, index: nat)
    requires 0.0 <= progress <= 1.0
    requires |style.animationSequence| > 0
    requires Frame(style.(displayBar := false), percentText, progress, index) == ""
    ensures Frame(style.(displayBar := true), percentText, progress, index)
         == TrimEnd(BarSegment(style, progress))
  {
    FrameBarParts(style, percentText, progress, index);
    var rest := PercentPart(style, percentText) + AnimationPart(style, progress, index);
    var bar := BarSegment(style, progress);
    TrimEndWhiteSpaceSuffix(bar + " ", rest);
    TrimEndWhiteSpaceSuffix(bar, " ");
  }

  /** Showing the percentage puts the padded percent text and one space in
      front of the animation part, and leaves the bar part as it was. */
  lemma FramePercentToggle(style: BarStyle, percentText: string, progress: real, index: nat)
    requires 0.0 <= progress <= 1.0
    requires |style.animationSequence| > 0
    requires style.displayAnimation && progress < 1.0
    requires !IsWhiteSpace(AnimationGlyph(style.animationSequence, index))
    ensures Frame(style.(displayPercentComplete := true), percentText, progress, index)
         == BarPart(style, progress) + PadLeft(percentText, 4, NBSP) + " "
            + [AnimationGlyph(style.animationSequence, index)]
    ensures Frame(style.(displayPercentComplete := false), percentText, progress, index)
         == BarPart(style, progress) + [AnimationGlyph(style.animationSequence, index)]
  {
    var glyph := [AnimationGlyph(style.animationSequence, index)];
    assert TrimEnd(glyph) == glyph;
    FramePercentShown(style, percentText, progress, index, glyph);
    FramePercentHidden(style, percentText, progress, index, glyph);
  }

  /** Without an animation glyph (hidden, or the progress complete), showing
      the percentage appends the padded percent text and its space to the bar
      part before trimming; hiding it leaves only the trimmed bar part. */
  lemma FramePercentNoAnimation(style: BarStyle, percentText: string, progress: real, index: nat)
    requires 0.0 <= progress <= 1.0
    requires |style.animationSequence| > 0
    requires !style.displayAnimation || progress == 1.0
    ensures Frame(style.(displayPercentComplete := true), percentText, progress, index)
         == TrimEnd(BarPart(style, progress) + PadLeft(percentText, 4, NBSP) + " ")
    ensures Frame(style.(displayPercentComplete := false), percentText, progress, index)
         == TrimEnd(BarPart(style, progress))
  {
    var on := style.(displayPercentComplete := true);
    var off := style.(displayPercentComplete := false);
    var bar := BarPart(style, progress);
    assert BarPart(on, progress) == bar && AnimationPart(on, progress, index) == "";
    assert BarPart(off, progress) == bar && AnimationPart(off, progress, index) == "";
    assert bar + PercentPart(on, percentText) + AnimationPart(on, progress, index)
        == bar + PadLeft(percentText, 4, NBSP) + " ";
    assert bar + PercentPart(off, percentText) + AnimationPart(off, progress, index) == bar;
  }

  lemma FramePercentShown(style: BarStyle, percentText: string, progress: real, index: nat,
                          glyph: string)
    requires 0.0 <= progress <= 1.0
    requires |style.animationSequence| > 0
    requires style.displayAnimation && progress < 1.0
    requires glyph == [AnimationGlyph(style.animationSequence, index)] && TrimEnd(glyph) == glyph
    ensures Frame(style.(displayPercentComplete := true), percentText, progress, index)
         == BarPart(style, progress) + PadLeft(percentText, 4, NBSP) + " " + glyph
  {
    var on := style.(displayPercentComplete := true);
    var bar := BarPart(style, progress);
    assert BarPart(on, progress) == bar;
    var shown := bar + PadLeft(percentText, 4, NBSP) + " ";
    assert bar + PercentPart(on, percentText) + AnimationPart(on, progress, index) == shown + glyph;
    TrimEndAppend(shown, glyph);
  }

  lemma FramePercentHidden(style: BarStyle, percentText: string, progress: real, index: nat,
                           glyph: string)
    requires 0.0 <= progress <= 1.0
    requires |style.animationSequence| > 0
    requires style.displayAnimation && progress < 1.0
    requires glyph == [AnimationGlyph(style.animationSequence, index)] && TrimEnd(glyph) == glyph
    ensures Frame(style.(displayPercentComplete := false), percentText, progress, index)
         == BarPart(style, progress) + glyph
  {
    var off := style.(displayPercentComplete := false);
    var bar := BarPart(style, progress);
    assert BarPart(off, progress) == bar;
    assert bar + PercentPart(off, percentText) + AnimationPart(off, progress, index) == bar + glyph;
    TrimEndAppend(bar, glyph);
  }

  /** `ConsoleProgressBar`. The timer is an `armed` flag: the one-shot timer
      is pending exactly when it is set, and a tick is a call of
      `TimerHandler`. Everything written to the console is kept, in order, in
      `console`. */
  class ConsoleProgressBar {
    var currentProgress: real
    var animationIndex: nat
    var disposed: bool
    var currentText: string
    var armed: bool
    var console: string
    /** `Console.IsOutputRedirected`, read once at construction. */
    const redirected: bool
    /** The culture's `P0` formatting of a fraction as a percentage. */
    const percentFormat: real -> string

    var numberOfBlocks: nat
    var startBracket: string
    var endBracket: string
    var completedBlock: string
    var incompleteBlock: string
    var animationSequence: string
    var displayBar: bool
    var displayPercentComplete: bool
    var displayAnimation: bool

    ghost predicate Valid()
      reads this
    {
      && 0.0 <= currentProgress <= 1.0
      && |animationSequence| > 0
      && (redirected ==> !armed && console == "")
    }

    /** The console line shows `currentText`: replaying everything written so
        far on an empty line leaves `currentText`, followed only by blanks,
        with the cursor at its end. */
    ghost predicate Synced()
      reads this
    {
      Shows(Replay(Blank, console), currentText)
    }

    function Style(): BarStyle
      reads this
    {
      BarStyle(numberOfBlocks, startBracket, endBracket, completedBlock, incompleteBlock,
               animationSequence, displayBar, displayPercentComplete, displayAnimation)
    }

    constructor (redirected: bool, percentFormat: real -> string)
      ensures Valid() && Synced()
      ensures this.redirected == redirected && this.percentFormat == percentFormat
      ensures numberOfBlocks == 10 && startBracket == "[" && endBracket == "]"
      ensures completedBlock == "#" && incompleteBlock == "-"
      ensures animationSequence == DefaultAnimation
      ensures displayBar && displayPercentComplete && displayAnimation
      ensures currentProgress == 0.0 && animationIndex == 0 && !disposed
      ensures currentText == "" && console == ""
      ensures armed == !redirected
    {
      this.redirected := redirected;
      this.percentFormat := percentFormat;
      numberOfBlocks := 10;
      startBracket := "[";
      endBracket := "]";
      completedBlock := "#";
      incompleteBlock := "-";
      animationSequence := DefaultAnimation;
      displayBar := true;
      displayPercentComplete := true;
      displayAnimation := true;
      currentProgress := 0.0;
      animationIndex := 0;
      disposed := false;
      currentText := "";
      console := "";
      armed := !redirected;
    }

    /** Stores the progress, clamped into [0, 1]. */
    method Report(value: real)
      requires Valid()
      modifies this`currentProgress
      ensures Valid()
      ensures currentProgress == Clamp(value)
    {
      currentProgress := Clamp(value);
    }

    /** Builds the frame for `progress` and moves the animation on by one,
        whether or not the animation is shown. */
    method GetProgressBarText(progress: real) returns (text: string)
      requires 0.0 <= progress <= 1.0
      requires |animationSequence| > 0
      modifies this`animationIndex
      ensures animationIndex == old(animationIndex) + 1
      ensures text == old(Frame(Style(), percentFormat(progress), progress, animationIndex))
    {
      text := Frame(Style(), percentFormat(progress), progress, animationIndex);
      animationIndex := animationIndex + 1;
    }

    /** Writes the redraw output for `text` to the console and records `text`
        as the line now shown. Only a bar whose output is not redirected
        draws. */
    method UpdateText(text: string)
      requires Valid() && !redirected
      modifies this`console, this`currentText
      ensures Valid()
      ensures currentText == text
      ensures console == old(console) + RedrawOutput(old(currentText), text)
      ensures old(Synced()) && BS !in text ==> Synced()
    {
      var output := ComposeRedraw(currentText, text);
      ghost var before := Replay(Blank, console);
      ReplayAppend(Blank, console, output);
      if Shows(before, currentText) && BS !in text {
        RedrawRoundTrip(before, currentText, text);
      }
      console := console + output;
      currentText := text;
    }

    /** Re-arms the one-shot timer, which only a bar whose output is not
        redirected ever has. */
    method ResetTimer()
      requires Valid() && !redirected
      modifies this`armed
      ensures Valid()
      ensures armed
    {
      armed := true;
    }

    /** One timer tick. A disposed bar stops there, and its one-shot timer,
        having fired, is no longer armed. Otherwise the frame for the state
        before the tick is drawn and the timer re-armed. */
    method TimerHandler()
      requires Valid() && armed
      modifies this`armed, this`animationIndex, this`console, this`currentText
      ensures Valid()
      ensures old(disposed) ==>
        && !armed && animationIndex == old(animationIndex)
        && console == old(console) && currentText == old(currentText)
      ensures !old(disposed) ==>
        && armed && animationIndex == old(animationIndex) + 1
        && currentText == old(Frame(Style(), percentFormat(currentProgress), currentProgress, animationIndex))
        && console == old(console) + RedrawOutput(old(currentText), currentText)
      ensures !old(disposed) && old(Synced()) && BS !in currentText ==> Synced()
    {
      if disposed {
        armed := false;
        return;
      }
      ghost var synced := Synced();
      var text := GetProgressBarText(currentProgress);
      assert Synced() == synced;
      UpdateText(text);
      ResetTimer();
    }

    /** `Dispose(disposing)`: only a disposing call marks the bar disposed. */
    method DisposeCore(disposing: bool)
      requires Valid()
      modifies this`disposed
      ensures Valid()
      ensures disposed == (old(disposed) || disposing)
    {
      if !disposing {
        return;
      }
      disposed := true;
    }

    /** Marks the bar disposed; calling it again changes nothing. */
    method Dispose()
      requires Valid()
      modifies this`disposed
      ensures Valid()
      ensures disposed
    {
      DisposeCore(true);
    }
  }
}
