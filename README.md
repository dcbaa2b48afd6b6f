# console-progress-bar, modelled in Dafny

This project models the core of a single-line console progress bar written in C#.
`ConsoleProgressBar` keeps the reported progress (a fraction in [0, 1]).
On every tick of a one-shot timer it builds a text frame: a bar of completed and incomplete blocks, a percentage and a spinner glyph.
It then redraws the console line in place. It backspaces to the first character that differs from what is on screen, writes the new suffix, and blanks any leftover tail.
`FileTransferProgressBar` adds the byte counts and the time since data was last received.
Its own tick also raises a stall notification whenever no report has arrived for the stall interval.
`TimeSpanExtensions.ToFormattedString` writes a duration as compact text such as `1y 2w 3d 4h 5m 6s` or `7s 250ms`.

Files, one module each (except `strings.dfy`, which also holds `Wrappers`):

- `strings.dfy`: `Strings`, the .NET string operations the bars use (`TrimEnd`, `TrimStart`, `PadLeft`, `Replace("  ", " ")`, decimal text). `Wrappers` holds `Option`.
- `arithmetic.dfy`: `Arithmetic`, small facts about integer division.
- `redraw.dfy`: `Redraw`, the diff-redraw engine (`UpdateText`'s loop). It comes with a model of the terminal line, where a backspace moves the cursor left and any other character overwrites the cell. The round trip is proved there: after the redraw output, the line shows the new text.
- `console_progress_bar.dfy`: `ProgressBar`, the frame builder as a function with its properties, and the class `ConsoleProgressBar`.
- `file_transfer_progress_bar.dfy`: `FileTransfer`, the transfer frame, the stall decision, and the class `FileTransferProgressBar`. Its block loops are kept as loops.
- `time_span_extensions.dfy`: `TimeSpanExtensions`, `ToFormattedString` step by step over a tick count. It is proved equal, for every non-negative duration, to an independent description built from the duration's units (`Split`, `Formatted`). Both use the millisecond field the program writes, where 1 to 9 ms get one non-breaking space (`ProgramMillisecondsField`). The evidently intended field, always five characters wide, is `MillisecondsField` (see Findings).

The timer is an `armed` flag. A tick is a call of `TimerHandler`, which is only made while the timer is armed.
Everything written to the console is accumulated in the `console` field.
`Synced()` says that replaying that output on an empty line shows `currentText`.
The clock is a parameter (`now`, and `raisedAt` for the second reading when the notification is raised).
The culture's `P0` percent format and `FileHelper.FileSizeToString` are function values given to the constructors.

Three behaviours of the program worth stating:

- A redirected console does not make redrawing a no-op. The timer is simply never armed, so no tick happens.
- A stall is raised when the elapsed time reaches the interval (`>=`), not only when it exceeds it. It is raised again on every later tick.
- The millisecond field is written for every duration under a minute, not only under a second.

## Model

| member | source | states |
|---|---|---|
| Strings.TrimEnd | ConsoleProgressBar/ConsoleProgressBar.cs:116 | the result is a prefix of the input, does not end in white space, and only white space was dropped |
| Strings.TrimStart | ConsoleProgressBar/TimeSpanExtensions.cs:55 | the result is a suffix of the input, does not start with white space, and only white space was dropped |
| Strings.TrimEndAppend | ConsoleProgressBar/ConsoleProgressBar.cs:116 | trimming a concatenation whose tail does not trim away keeps the head whole |
| Strings.TrimEndWhiteSpaceSuffix | ConsoleProgressBar/ConsoleProgressBar.cs:116 | a white-space tail is removed entirely by trimming |
| Strings.Chars | ConsoleProgressBar/ConsoleProgressBar.cs:131 | `Append(c, n)` writes exactly `n` copies of `c` |
| Strings.RepeatGlyph | ConsoleProgressBar/ConsoleProgressBar.cs:78-86 | aggregating a one-character block `n` times gives that character `n` times |
| Strings.RepeatLength | ConsoleProgressBar/ConsoleProgressBar.cs:78-86 | `n` copies of a block are `n` times its length, for blocks of any length |
| Strings.PadLeft | ConsoleProgressBar/ConsoleProgressBar.cs:89 | the result has the width (or the text's own length), ends with the text and is padded only with the pad character |
| Strings.NatStr | ConsoleProgressBar/TimeSpanExtensions.cs:14 | the decimal text of a count is non-empty, all digits, with no leading zero |
| Strings.DecimalValue | ConsoleProgressBar/TimeSpanExtensions.cs:14 | the value of a string of digits, read most significant digit first (the reading used to state `NatStrValue`) |
| Strings.DigitCharValue | ConsoleProgressBar/TimeSpanExtensions.cs:14 | a digit character reads back as its digit |
| Strings.NatStrValue | ConsoleProgressBar/TimeSpanExtensions.cs:14 | the decimal text of a count reads back as that count: it is the count's numeral |
| Strings.NatStrInjective | ConsoleProgressBar/TimeSpanExtensions.cs:14 | different counts have different decimal texts |
| Strings.Repeat | ConsoleProgressBar/ConsoleProgressBar.cs:78-86 | `Repeat(s, n)` is `s` written `n` times, the `Aggregate` of the block loops; its glyph count is `RepeatGlyph` |
| Strings.Trim | ConsoleProgressBar/TimeSpanExtensions.cs:47 | `Trim` is `TrimStart` after `TrimEnd`; each is stated by its own row |
| Strings.NonSpacesAppend | ConsoleProgressBar/FileTransferProgressBar.cs:110 | the non-space characters of a concatenation are those of its parts, in order |
| Strings.NonSpacesSpaceAfter | ConsoleProgressBar/FileTransferProgressBar.cs:110 | a separator space adds no non-space character |
| Strings.NonSpacesCons | ConsoleProgressBar/FileTransferProgressBar.cs:110 | the non-space characters of a string with one more character in front |
| Strings.ReplaceDoubleSpaces | ConsoleProgressBar/FileTransferProgressBar.cs:111 | the replacement never lengthens the line |
| Strings.ReplaceKeepsNonSpaces | ConsoleProgressBar/FileTransferProgressBar.cs:111 | replacing double spaces drops only spaces: every other character is kept, in order |
| Strings.ReplaceKeepsTrailingSpace | ConsoleProgressBar/FileTransferProgressBar.cs:110-111 | a line ending in a space still ends in a space after the replacement |
| Strings.ReplaceIsSinglePass | ConsoleProgressBar/FileTransferProgressBar.cs:111 | the replacement is one left-to-right pass: a run of `n` spaces becomes `ceil(n / 2)` spaces, so three become two |
| Redraw.Lcp | ConsoleProgressBar/ConsoleProgressBar.cs:121-127 | the common-prefix length: both strings agree below it and differ at it when both are longer |
| Redraw.LcpUnique | ConsoleProgressBar/ConsoleProgressBar.cs:122-127 | a common prefix that cannot be extended is the longest one |
| Redraw.RedrawOutput | ConsoleProgressBar/ConsoleProgressBar.cs:119-142 | the text a redraw writes: backspaces to the common prefix, the new suffix and, for a shorter line, blanks then backspaces; what it does to the line is `RedrawRoundTrip` |
| Redraw.ComposeRedraw | ConsoleProgressBar/ConsoleProgressBar.cs:119-142 | the loop and the builder produce the backspaces to the common prefix, the new suffix and, for a shorter line, spaces then backspaces over the leftover |
| Redraw.RedrawSameText | ConsoleProgressBar/ConsoleProgressBar.cs:121-142 | redrawing a line with the same text writes nothing |
| Redraw.Overwrite | ConsoleProgressBar/ConsoleProgressBar.cs:145 | writing over a line from a column keeps what is before it, places the text there and keeps the rest of a longer line |
| Redraw.ReplayAppend | ConsoleProgressBar/ConsoleProgressBar.cs:145 | writing two strings one after the other is writing their concatenation |
| Redraw.ReplayBackspaces | ConsoleProgressBar/ConsoleProgressBar.cs:131 | `n` backspaces move the cursor `n` columns left and change no cell |
| Redraw.ReplayWrite | ConsoleProgressBar/ConsoleProgressBar.cs:134 | text without backspaces overwrites the line from the cursor, which ends after it |
| Redraw.RewriteSuffix | ConsoleProgressBar/ConsoleProgressBar.cs:129-134 | backspacing to the common prefix and writing the rest leaves the new text at the start of the line, cursor after it |
| Redraw.NoBackspaceAfter | ConsoleProgressBar/ConsoleProgressBar.cs:134 | the suffix of a text without backspaces has none either |
| Redraw.OverwriteCommonPrefix | ConsoleProgressBar/ConsoleProgressBar.cs:134 | writing the suffix after a common prefix leaves the whole new text at the start of the line |
| Redraw.BlankTail | ConsoleProgressBar/ConsoleProgressBar.cs:136-142 | spaces and backspaces over the leftover tail leave only blanks after the new text, cursor at its end |
| Redraw.RedrawRoundTrip | ConsoleProgressBar/ConsoleProgressBar.cs:119-147 | on a line showing the old text, the redraw output leaves the line showing the new text, followed only by blanks; the line never shrinks |
| ProgressBar.Clamp | ConsoleProgressBar/ConsoleProgressBar.cs:58 | the stored progress lies in [0, 1]; it is the value inside that range, 0 below it and 1 above it |
| ProgressBar.BlocksCompleted | ConsoleProgressBar/ConsoleProgressBar.cs:76 | the completed block count is the floor of progress times the block count, never more than the block count |
| ProgressBar.BlocksCompletedFull | ConsoleProgressBar/ConsoleProgressBar.cs:76 | with at least one block, every block is complete exactly when the progress is 1 |
| ProgressBar.BlocksCompletedMonotonic | ConsoleProgressBar/ConsoleProgressBar.cs:76 | more progress never shows fewer completed blocks |
| ProgressBar.BarSegmentGlyphs | ConsoleProgressBar/ConsoleProgressBar.cs:76-88 | the bar is the brackets around exactly `NumberOfBlocks` glyphs: the completed ones first, then the incomplete ones |
| ProgressBar.BarSegmentLength | ConsoleProgressBar/ConsoleProgressBar.cs:76-88 | for blocks of any length the bar's length is the brackets plus `k` completed and `NumberOfBlocks - k` incomplete blocks |
| ProgressBar.AnimationGlyph | ConsoleProgressBar/ConsoleProgressBar.cs:90 | the spinner glyph is a character of the animation sequence |
| ProgressBar.AnimationPeriodic | ConsoleProgressBar/ConsoleProgressBar.cs:90 | the spinner repeats with the period of the sequence length |
| ProgressBar.BarSegment | ConsoleProgressBar/ConsoleProgressBar.cs:76-88 | the brackets around the completed then the incomplete blocks; its glyphs are `BarSegmentGlyphs` |
| ProgressBar.BarPart | ConsoleProgressBar/ConsoleProgressBar.cs:93-100 | the bar and one space when the bar is shown, nothing otherwise; stated by `BarToggleKeepsParts` and `FrameBarToggle` |
| ProgressBar.PercentPart | ConsoleProgressBar/ConsoleProgressBar.cs:102-109 | the padded percentage and one space when shown, nothing otherwise; stated by `FramePercentShown` and `FramePercentHidden` |
| ProgressBar.AnimationPart | ConsoleProgressBar/ConsoleProgressBar.cs:111-114 | the animation glyph, or nothing when hidden or at progress 1; stated by `FrameCompleteHasNoAnimation` and `FramePeriodic` |
| ProgressBar.Frame | ConsoleProgressBar/ConsoleProgressBar.cs:72-117 | a frame never ends in white space |
| ProgressBar.FramePeriodic | ConsoleProgressBar/ConsoleProgressBar.cs:90-116 | frames `i` and `i + |AnimationSequence|` are the same |
| ProgressBar.FrameCompleteHasNoAnimation | ConsoleProgressBar/ConsoleProgressBar.cs:111-114 | at progress 1 every frame is the same, and the same as with the animation hidden |
| ProgressBar.FrameAllSegments | ConsoleProgressBar/ConsoleProgressBar.cs:88-116 | with everything shown and a visible glyph, the frame is bar, space, padded percentage, space, glyph |
| ProgressBar.FrameBarParts | ConsoleProgressBar/ConsoleProgressBar.cs:93-100 | toggling the bar only adds or removes the bar and its separator in front of the rest |
| ProgressBar.BarToggleKeepsParts | ConsoleProgressBar/ConsoleProgressBar.cs:93-114 | the bar toggle changes none of the bar, percentage and animation parts |
| ProgressBar.FrameBarToggle | ConsoleProgressBar/ConsoleProgressBar.cs:93-116 | when something else is shown, showing the bar puts the bar and one space in front of the frame |
| ProgressBar.FrameBarAlone | ConsoleProgressBar/ConsoleProgressBar.cs:93-116 | when nothing else is shown, the bar's separator is trimmed away |
| ProgressBar.FramePercentToggle | ConsoleProgressBar/ConsoleProgressBar.cs:102-116 | showing the percentage inserts the padded percent text and one space before the glyph; hiding it leaves bar part then glyph |
| ProgressBar.FramePercentNoAnimation | ConsoleProgressBar/ConsoleProgressBar.cs:102-116 | with no animation glyph (hidden, or progress 1) the frame with the percentage is the trimmed bar part, padded percent and space; without it, the trimmed bar part |
| ProgressBar.FramePercentShown | ConsoleProgressBar/ConsoleProgressBar.cs:102-116 | the frame with the percentage shown |
| ProgressBar.FramePercentHidden | ConsoleProgressBar/ConsoleProgressBar.cs:102-116 | the frame with the percentage hidden |
| ProgressBar.ConsoleProgressBar.constructor | ConsoleProgressBar/ConsoleProgressBar.cs:19-43 | the default style (10 blocks, `[`, `]`, `#`, `-`, default spinner, all shown), nothing drawn, the timer armed exactly when output is not redirected |
| ProgressBar.ConsoleProgressBar.Report | ConsoleProgressBar/ConsoleProgressBar.cs:55-60 | the stored progress is the reported value clamped to [0, 1] |
| ProgressBar.ConsoleProgressBar.GetProgressBarText | ConsoleProgressBar/ConsoleProgressBar.cs:72-117 | returns the frame for the current style, progress and animation index, and advances the index by one whether or not the spinner is shown |
| ProgressBar.ConsoleProgressBar.UpdateText | ConsoleProgressBar/ConsoleProgressBar.cs:119-147 | on a drawing (not redirected) bar, appends the redraw output to the console, records the new text and keeps the bar valid; a synced line stays synced |
| ProgressBar.ConsoleProgressBar.ResetTimer | ConsoleProgressBar/ConsoleProgressBar.cs:149-152 | on a drawing (not redirected) bar the one-shot timer is armed again and the bar stays valid |
| ProgressBar.ConsoleProgressBar.TimerHandler | ConsoleProgressBar/ConsoleProgressBar.cs:62-70 | a disposed bar writes nothing and is not re-armed; otherwise the frame of the state before the tick is drawn, the line stays synced, and the timer is re-armed |
| ProgressBar.ConsoleProgressBar.DisposeCore | ConsoleProgressBar/ConsoleProgressBar.cs:154-162 | only a disposing call marks the bar disposed, and nothing ever clears the mark |
| ProgressBar.ConsoleProgressBar.Dispose | ConsoleProgressBar/ConsoleProgressBar.cs:164-168 | the bar is disposed afterwards, however often it is called |
| FileTransfer.TransferFrame | ConsoleProgressBar/FileTransferProgressBar.cs:110-114 | the trimmed copy is discarded, so the frame always ends in a space |
| FileTransfer.PercentTruncated | ConsoleProgressBar/FileTransferProgressBar.cs:90 | the percentage is the whole percent at or below the progress, never rounded up; it reads 100 only at progress 1 |
| FileTransfer.TransferFrameNonSpaces | ConsoleProgressBar/FileTransferProgressBar.cs:110-111 | apart from spaces, the frame is the bar, percentage, byte counts, elapsed time and glyph, in that order |
| FileTransfer.NonSpacesOfParts | ConsoleProgressBar/FileTransferProgressBar.cs:110 | the separator spaces of the raw line add no other character |
| FileTransfer.TransferPercentPart | ConsoleProgressBar/FileTransferProgressBar.cs:90 | a space, the whole percent, `%` and a space, or nothing when hidden; its value is `PercentTruncated` |
| FileTransfer.BytesPart | ConsoleProgressBar/FileTransferProgressBar.cs:91-101 | the received and total byte texts joined by ` of `, between spaces, or nothing when hidden |
| FileTransfer.ElapsedPart | ConsoleProgressBar/FileTransferProgressBar.cs:94-102 | the formatted time since the last report then ` since last Rx `, or nothing when hidden |
| FileTransfer.AnimationChar | ConsoleProgressBar/FileTransferProgressBar.cs:97-108 | the animation glyph, or a space when hidden or at progress 1; stated by `TransferFrameComplete` and `TransferFramePeriodic` |
| FileTransfer.RawTransferFrame | ConsoleProgressBar/FileTransferProgressBar.cs:89-110 | the parts laid end to end with the separator spaces, before the replacement; stated by `TransferFrameNonSpaces` |
| FileTransfer.TransferFrameAllHidden | ConsoleProgressBar/FileTransferProgressBar.cs:99-111 | with every part hidden, the frame is two spaces |
| FileTransfer.TransferFramePeriodic | ConsoleProgressBar/FileTransferProgressBar.cs:97 | frames `i` and `i + |AnimationSequence|` are the same |
| FileTransfer.TransferFrameComplete | ConsoleProgressBar/FileTransferProgressBar.cs:103-108 | at progress 1 the glyph is a space whatever the toggle and the index |
| FileTransfer.StallRepeats | ConsoleProgressBar/FileTransferProgressBar.cs:63-70 | once raised, the notification is raised on every later tick without a report, for the same last reception |
| FileTransfer.StallDecision | ConsoleProgressBar/FileTransferProgressBar.cs:57-70 | the notification, or none, for a tick at `now`; stated by `StallDecisionExact` and `StallRepeats` |
| FileTransfer.StallEvent.Elapsed | ConsoleProgressBar/FileTransferProgressBar.cs:65-70 | the ticks between the last reception and the notification; bounded below by `StallDecisionExact` |
| FileTransfer.StallDecisionExact | ConsoleProgressBar/FileTransferProgressBar.cs:57-70 | the notification is raised exactly when the elapsed ticks reach the interval, and then it reports at least that much silence |
| FileTransfer.FileTransferProgressBar.constructor | ConsoleProgressBar/FileTransferProgressBar.cs:13-32 | the base defaults with the given percent and file-size formats, the report time stamped now, nothing received, byte counts shown, elapsed time hidden, the timer armed exactly when output is not redirected |
| FileTransfer.FileTransferProgressBar.Report | ConsoleProgressBar/FileTransferProgressBar.cs:42-50 | stamps the report time whatever the value, and stores the value clamped to [0, 1] |
| FileTransfer.FileTransferProgressBar.GetProgressBarText | ConsoleProgressBar/FileTransferProgressBar.cs:74-115 | the block loops and the toggles build the transfer frame for the state before the call; the index advances by one |
| FileTransfer.FileTransferProgressBar.TimerHandler | ConsoleProgressBar/FileTransferProgressBar.cs:52-72 | a disposed bar writes nothing, raises nothing and is not re-armed; otherwise it draws the transfer frame for the ticks since the last report, re-arms, keeps the line synced, and raises the stall notification exactly as the stall decision says |
| FileTransfer.FileTransferProgressBar.Dispose | ConsoleProgressBar/ConsoleProgressBar.cs:164-168 | the inherited disposal marks the bar disposed |
| TimeSpanExtensions.Quot | ConsoleProgressBar/TimeSpanExtensions.cs:58 | C# division truncates toward zero: floor division for a non-negative dividend, a non-positive quotient for a non-positive one |
| TimeSpanExtensions.Rem | ConsoleProgressBar/TimeSpanExtensions.cs:30-42 | the remainder of a non-positive dividend is non-positive, as `TimeSpan`'s components are |
| TimeSpanExtensions.Days | ConsoleProgressBar/TimeSpanExtensions.cs:25 | `TimeSpan.Days`: the whole days, truncated toward zero; `ComponentsOfSplit` ties it to the split |
| TimeSpanExtensions.Hours | ConsoleProgressBar/TimeSpanExtensions.cs:30 | `TimeSpan.Hours`: the hours within the day; see `ComponentsOfSplit` |
| TimeSpanExtensions.Minutes | ConsoleProgressBar/TimeSpanExtensions.cs:35 | `TimeSpan.Minutes`: the minutes within the hour; see `ComponentsOfSplit` |
| TimeSpanExtensions.Seconds | ConsoleProgressBar/TimeSpanExtensions.cs:42 | `TimeSpan.Seconds`: the seconds within the minute; see `ComponentsOfSplit` |
| TimeSpanExtensions.AppendIfPositive | ConsoleProgressBar/TimeSpanExtensions.cs:12-14 | appends the count, its unit letter and a space only when the count is positive; stated by `AppendUnit` |
| TimeSpanExtensions.AppendMillisecondsAsWritten | ConsoleProgressBar/TimeSpanExtensions.cs:60-79 | the millisecond field with the comparisons in the source's order; stated by `AppendMillisecondsField` and `MillisecondsWidthAsWritten` |
| TimeSpanExtensions.NumYears | ConsoleProgressBar/TimeSpanExtensions.cs:11 | the whole years of 365 days; see `YearsAndWeeks` |
| TimeSpanExtensions.AfterYears | ConsoleProgressBar/TimeSpanExtensions.cs:12-16 | the text and duration after the years are taken off; see `YearsOff` |
| TimeSpanExtensions.NumWeeks | ConsoleProgressBar/TimeSpanExtensions.cs:18 | the whole weeks of what is left; see `YearsAndWeeks` |
| TimeSpanExtensions.AfterWeeks | ConsoleProgressBar/TimeSpanExtensions.cs:19-23 | the text and duration after the weeks are taken off; see `AfterYearsAndWeeks` |
| TimeSpanExtensions.ToFormattedString | ConsoleProgressBar/TimeSpanExtensions.cs:7-82 | the whole conversion, step by step; its meaning is `FormattedAgrees`, `NegativeDuration` and `FiveMillisecondsText` |
| TimeSpanExtensions.FormatDaysAndLess | ConsoleProgressBar/TimeSpanExtensions.cs:25-81 | the days-and-less steps; stated by `FormattedAgreesLong` and `FormattedAgreesShort` |
| TimeSpanExtensions.FormatUnderAMinute | ConsoleProgressBar/TimeSpanExtensions.cs:50-81 | the short form with the program's millisecond field; stated by `UnderAMinuteText` |
| TimeSpanExtensions.Formatted | ConsoleProgressBar/TimeSpanExtensions.cs:7-82 | the independent description of a split duration; its agreement with the program is `FormattedAgrees` |
| TimeSpanExtensions.MillisecondsField | ConsoleProgressBar/TimeSpanExtensions.cs:60-79 | the intended field, right-aligned in three characters; stated by `MillisecondsFieldWidth` |
| TimeSpanExtensions.ProgramMillisecondsField | ConsoleProgressBar/TimeSpanExtensions.cs:60-79 | the field the program writes; stated by `ProgramFieldCases` and `ProgramFieldIsIntendedOutsideOneToNine` |
| TimeSpanExtensions.Split | ConsoleProgressBar/TimeSpanExtensions.cs:7-82 | a tick count breaks into units, each below the next unit up, that add back up to it |
| TimeSpanExtensions.NonEmpty | ConsoleProgressBar/TimeSpanExtensions.cs:12-38 | only the non-empty unit words are kept |
| TimeSpanExtensions.FormattedAgrees | ConsoleProgressBar/TimeSpanExtensions.cs:7-82 | for every non-negative duration the source's text is the independent description: the non-zero units joined by single spaces from a minute on, otherwise the optional seconds and the millisecond field as the program writes it (one non-breaking space for 1 to 9 ms) |
| TimeSpanExtensions.NegativeDuration | ConsoleProgressBar/TimeSpanExtensions.cs:7-82 | a negative duration is always two non-breaking spaces and `0ms` |
| TimeSpanExtensions.NoLargeUnits | ConsoleProgressBar/TimeSpanExtensions.cs:25-40 | with no days, hours or minutes the short form is taken |
| TimeSpanExtensions.UnitIsWord | ConsoleProgressBar/TimeSpanExtensions.cs:14 | a positive count with its unit letter is digits then a letter |
| TimeSpanExtensions.WordEnds | ConsoleProgressBar/TimeSpanExtensions.cs:47 | a unit word neither starts nor ends with white space |
| TimeSpanExtensions.NonEmptyAppend | ConsoleProgressBar/TimeSpanExtensions.cs:12-38 | dropping empty words distributes over concatenation |
| TimeSpanExtensions.NonEmptyFrom | ConsoleProgressBar/TimeSpanExtensions.cs:12-38 | every kept word is one of the unit words |
| TimeSpanExtensions.JoinSnoc | ConsoleProgressBar/TimeSpanExtensions.cs:44 | joining one more word adds a space and the word |
| TimeSpanExtensions.JoinEnds | ConsoleProgressBar/TimeSpanExtensions.cs:47 | joined words start with the first word's first character and end with the last word's last character |
| TimeSpanExtensions.AppendUnit | ConsoleProgressBar/TimeSpanExtensions.cs:12-38 | each guarded append adds the next unit word and its space |
| TimeSpanExtensions.DropDays | ConsoleProgressBar/TimeSpanExtensions.cs:15-22 | subtracting whole days lowers the day count by as many and keeps hours, minutes and seconds |
| TimeSpanExtensions.ComponentsOfSplit | ConsoleProgressBar/TimeSpanExtensions.cs:25-42 | `TimeSpan`'s days, hours, minutes and seconds are the units of the split |
| TimeSpanExtensions.LargeUnits | ConsoleProgressBar/TimeSpanExtensions.cs:11-38 | the unit-by-unit appends give the non-zero units, each followed by a space |
| TimeSpanExtensions.YearsAndWeeks | ConsoleProgressBar/TimeSpanExtensions.cs:11-23 | the years and then the weeks taken off are those of the split |
| TimeSpanExtensions.YearsOff | ConsoleProgressBar/TimeSpanExtensions.cs:11-16 | taking the years off leaves the split's weeks and days |
| TimeSpanExtensions.SplitDays | ConsoleProgressBar/TimeSpanExtensions.cs:11-23 | the split's years, weeks and days come from `TimeSpan.Days` |
| TimeSpanExtensions.LargeUnitsAreWords | ConsoleProgressBar/TimeSpanExtensions.cs:11-38 | every non-empty unit is a word |
| TimeSpanExtensions.LargeUnitsNonEmpty | ConsoleProgressBar/TimeSpanExtensions.cs:40 | with any positive unit the text so far is non-empty |
| TimeSpanExtensions.AfterYearsAndWeeks | ConsoleProgressBar/TimeSpanExtensions.cs:11-23 | the text and the remaining duration after the years and weeks |
| TimeSpanExtensions.RemainderComponents | ConsoleProgressBar/TimeSpanExtensions.cs:25-42 | after the years and weeks, days, hours, minutes and seconds are the split's |
| TimeSpanExtensions.FormattedAgreesLong | ConsoleProgressBar/TimeSpanExtensions.cs:25-48 | the long form agrees with the description |
| TimeSpanExtensions.FormattedAgreesShort | ConsoleProgressBar/TimeSpanExtensions.cs:50-81 | the short form agrees with the description, including the program's millisecond field |
| TimeSpanExtensions.UnderAMinuteText | ConsoleProgressBar/TimeSpanExtensions.cs:50-81 | under a minute the text is the optional seconds and the program's millisecond field |
| TimeSpanExtensions.LongForm | ConsoleProgressBar/TimeSpanExtensions.cs:40-48 | the trimmed long form is the words joined by single spaces |
| TimeSpanExtensions.LongFormWithSeconds | ConsoleProgressBar/TimeSpanExtensions.cs:42-47 | trimming keeps the seconds word at the end |
| TimeSpanExtensions.JoinOfWordsEnds | ConsoleProgressBar/TimeSpanExtensions.cs:47 | joined words have no white space at either end |
| TimeSpanExtensions.TrimSpaceAfter | ConsoleProgressBar/TimeSpanExtensions.cs:47 | trimming removes only the space after the last word |
| TimeSpanExtensions.TrimmedWord | ConsoleProgressBar/TimeSpanExtensions.cs:47 | text with non-white ends is unchanged by trimming |
| TimeSpanExtensions.AppendMillisecondsField | ConsoleProgressBar/TimeSpanExtensions.cs:60-79 | for every count the appended text is the program's field: the right-aligned five-character field, except that 1 to 9 ms get one non-breaking space |
| TimeSpanExtensions.ProgramFieldCases | ConsoleProgressBar/TimeSpanExtensions.cs:60-79 | the program's field is two non-breaking spaces and `0ms` at 0, one space and the digits below 100, the bare digits from 100 |
| TimeSpanExtensions.PadOneDigit | ConsoleProgressBar/TimeSpanExtensions.cs:71-74 | padding one digit to width 3 puts two non-breaking spaces in front |
| TimeSpanExtensions.PadTwoDigits | ConsoleProgressBar/TimeSpanExtensions.cs:67-70 | padding two digits to width 3 puts one non-breaking space in front |
| TimeSpanExtensions.OneSpaceBelowAHundred | ConsoleProgressBar/TimeSpanExtensions.cs:65-70 | every count from 1 to 99 gets exactly one non-breaking space before its digits |
| TimeSpanExtensions.ProgramFieldIsIntendedOutsideOneToNine | ConsoleProgressBar/TimeSpanExtensions.cs:67-74 | the program's field equals the intended one exactly when the count is not between 1 and 9 |
| TimeSpanExtensions.ShortSeconds | ConsoleProgressBar/TimeSpanExtensions.cs:50-55 | below a minute the seconds word is written only when positive, and `TrimStart` keeps it |
| TimeSpanExtensions.LeadingDigitKept | ConsoleProgressBar/TimeSpanExtensions.cs:55 | text starting with a digit is unchanged by `TrimStart` |
| TimeSpanExtensions.ShortMilliseconds | ConsoleProgressBar/TimeSpanExtensions.cs:57-58 | the remaining ticks divided by 10 000 are the split's milliseconds |
| TimeSpanExtensions.SubMinuteMilliseconds | ConsoleProgressBar/TimeSpanExtensions.cs:57-58 | below a minute the millisecond count lies in [0, 999] |
| TimeSpanExtensions.LongFormShape | ConsoleProgressBar/TimeSpanExtensions.cs:40-48 | from a minute on the text is only digits, unit letters and spaces, ending in a count and its letter: no milliseconds, no padding |
| TimeSpanExtensions.FormattedLongShape | ConsoleProgressBar/TimeSpanExtensions.cs:40-48 | the long description has that shape |
| TimeSpanExtensions.JoinedWordsShape | ConsoleProgressBar/TimeSpanExtensions.cs:40-48 | joined unit words have that shape |
| TimeSpanExtensions.FormattedWords | ConsoleProgressBar/TimeSpanExtensions.cs:40-48 | the long description joins at least one word, and only words |
| TimeSpanExtensions.UnitsAreWords | ConsoleProgressBar/TimeSpanExtensions.cs:11-38 | the kept units are all words |
| TimeSpanExtensions.JoinEndsWithLast | ConsoleProgressBar/TimeSpanExtensions.cs:44-47 | joined words end with the last two characters of the last word |
| TimeSpanExtensions.FormCharsAppend | ConsoleProgressBar/TimeSpanExtensions.cs:14-44 | concatenating digits, letters and spaces gives only those |
| TimeSpanExtensions.JoinFormChars | ConsoleProgressBar/TimeSpanExtensions.cs:14-44 | joined words are only digits, unit letters and spaces |
| TimeSpanExtensions.ShortFormShape | ConsoleProgressBar/TimeSpanExtensions.cs:50-81 | below a minute the text always ends with a millisecond count: a digit, then `ms` |
| TimeSpanExtensions.SplitUnderAMinute | ConsoleProgressBar/TimeSpanExtensions.cs:25-40 | under a minute no unit from minutes up is positive |
| TimeSpanExtensions.SplitAtLeastAMinute | ConsoleProgressBar/TimeSpanExtensions.cs:25-40 | from a minute on some unit from minutes up is positive |
| TimeSpanExtensions.FormattedShortShape | ConsoleProgressBar/TimeSpanExtensions.cs:50-81 | the short description ends with a millisecond count |
| TimeSpanExtensions.MillisecondsFieldEnd | ConsoleProgressBar/TimeSpanExtensions.cs:60-79 | the program's millisecond field is at least four characters and ends with a digit then `ms` |
| TimeSpanExtensions.NatStrWidth | ConsoleProgressBar/TimeSpanExtensions.cs:69-77 | a count below 10 has one digit, below 100 two, below 1000 three, and from 100 on at least three |
| TimeSpanExtensions.MillisecondsWidthAsWritten | ConsoleProgressBar/TimeSpanExtensions.cs:60-79 | as written, 1 to 9 milliseconds give a field one character narrower than 0 and 10 to 999 |
| TimeSpanExtensions.FiveMillisecondsAsWritten | ConsoleProgressBar/TimeSpanExtensions.cs:67-74 | as written, 5 ms gets one non-breaking space; in the intended field, two |
| TimeSpanExtensions.FiveMillisecondsText | ConsoleProgressBar/TimeSpanExtensions.cs:7-82 | every duration from 5 ms to just under 6 ms formats as one non-breaking space and `5ms` |
| TimeSpanExtensions.FiveMillisecondsFormatted | ConsoleProgressBar/TimeSpanExtensions.cs:50-79 | the description of 0 s and 5 ms is one non-breaking space and `5ms` |
| TimeSpanExtensions.SplitFiveMilliseconds | ConsoleProgressBar/TimeSpanExtensions.cs:50-58 | a duration from 5 ms to just under 6 ms has no unit above seconds, 0 seconds and 5 ms |
| TimeSpanExtensions.ShortFormatted | ConsoleProgressBar/TimeSpanExtensions.cs:50-79 | under a minute the description is the optional seconds word and the program's field |
| TimeSpanExtensions.MillisecondsFieldWidth | ConsoleProgressBar/TimeSpanExtensions.cs:60-79 | in the intended field every count below 1000 fills exactly five characters: padding or digits, the last of the three a digit, then `ms` |

## Left out

- Concurrency: the `lock` on the timer, `Interlocked.Exchange`, and a tick racing with `Report` or `Dispose`. Each operation is modelled as one atomic step.
- The timer's period and its thread pool. The one-shot timer is the `armed` flag. A tick is a call of `TimerHandler`, made only while the flag is set.
- The transfer constructor creates a second timer. The first timer, armed by the base constructor, is dropped without being stopped and is not modelled. The transfer bar's `core` is the base bar with its own timer.
- `IProgress<double>` dispatch, and the `new` hiding of the base `Report`. Each class has its own `Report`.
- `Console.OutputEncoding` and `Console.Write`. The output is kept in the `console` field. `Console.IsOutputRedirected` is a constructor parameter, read once.
- The culture's `P0` percent text and `FileHelper.FileSizeToString` are function parameters of the constructors. Their text is not modelled.
- `double` is `real`: the product `progress * NumberOfBlocks` is exact, with no floating-point rounding.
- `NumberOfBlocks` is a `nat`. A negative value makes `Enumerable.Range` throw, and that is not modelled.
- `AnimationIndex` is a `nat`. The overflow of the C# `int` after 2^31 ticks is not modelled.
- `long` tick arithmetic is unbounded: `TimeSpan` overflow and `DateTime` range errors are not modelled.
- Only the default animation sequence is named. `ProgressAnimations`' other sequences are just other strings.
- The demo program and `FileHelper` are not part of this model.
- The stall event handler is not invoked. `TimerHandler` returns the notification as an `Option`, and `ProgressEventArgs` is the `StallEvent` value.
- FileTransfer.FileTransferProgressBar.TimerHandler: the second clock reading, taken when the notification is raised, is the parameter `raisedAt`.
- ProgressBar.Frame: an empty animation sequence is accepted by the program's setter, and its first tick then throws a `DivideByZeroException` at `AnimationIndex++ % AnimationSequence.Length` (ConsoleProgressBar.cs line 90, FileTransferProgressBar.cs line 97), even with the animation hidden. The model requires a non-empty sequence in `Frame`, `TransferFrame`, `GetProgressBarText` and `Valid`, and does not model the exception.
- ProgressBar.Clamp: `real` has no NaN. In the source `Math.Max(0, Math.Min(1, NaN))` is NaN, so `Report(double.NaN)` stores NaN, and casting `NaN * NumberOfBlocks` to `int` makes `Enumerable.Range` throw. ProgressBar.ConsoleProgressBar.Report, FileTransfer.FileTransferProgressBar.Report and both `Valid` predicates therefore do not cover that input.
- Redraw.RedrawOutput: a .NET string is a sequence of UTF-16 code units, a Dafny `string` a sequence of Unicode scalar values. The common-prefix length and the backspace and space counts (ConsoleProgressBar.cs lines 123, 131 and 137) are counted per character here. With a glyph outside the Basic Multilingual Plane, such as in an animation sequence (line 90), the program counts two units where the model counts one.
- ProgressBar.ConsoleProgressBar.TimerHandler: `Synced` is kept only for frames without a backspace character, which holds for every block and bracket string made of printable characters.

## Findings

| source | as written | input that shows it | evidently intended | confidence | as-written member | corrected member |
|---|---|---|---|---|---|---|
| ConsoleProgressBar/TimeSpanExtensions.cs:67-74 | `milliseconds < 100` is checked before `milliseconds < 10`, so the two-space branch can never run | a duration of 5 ms gives one non-breaking space then `5ms`, four characters, where 0 ms and 10 to 999 ms give five | 1 to 9 ms padded with two non-breaking spaces, so that every millisecond field is five characters wide | not executed | TimeSpanExtensions.FiveMillisecondsText | TimeSpanExtensions.MillisecondsFieldWidth |

The model keeps the program's behaviour: `ToFormattedString` and the transfer bar's elapsed time write the field as the source does (`AppendMillisecondsAsWritten`, `MillisecondsWidthAsWritten`). The intended field is `MillisecondsField`, with its width proved in `MillisecondsFieldWidth`.
