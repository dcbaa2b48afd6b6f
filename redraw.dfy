/** The in-place redraw engine shared by both progress bars: the common-prefix
    diff of the previous and the next line, and a model of the terminal line
    it is written to. */
module Redraw {

  import opened Strings

  /** Length of the longest common prefix of `a` and `b`. */
  function Lcp(a: string, b: string): (k: nat)
    ensures k <= |a| && k <= |b|
    ensures a[..k] == b[..k]
    ensures k < |a| && k < |b| ==> a[k] != b[k]
    decreases |a|
  {
    if |a| == 0 || |b| == 0 || a[0] != b[0] then 0
    else
      var k := 1 + Lcp(a[1..], b[1..]);
      assert a[..k] == [a[0]] + a[1..][..k - 1];
      assert b[..k] == [b[0]] + b[1..][..k - 1];
      k
  }

  /** Any common prefix length that cannot be extended is the longest one. */
  lemma LcpUnique(a: string, b: string, k: nat)
    requires k <= |a| && k <= |b|
    requires forall i | 0 <= i < k :: a[i] == b[i]
    requires k < |a| && k < |b| ==> a[k] != b[k]
    ensures k == Lcp(a, b)
  {
    var l := Lcp(a, b);
    forall i | 0 <= i < l ensures a[i] == b[i] {
      assert a[..l][i] == b[..l][i];
    }
  }

  /** The characters written to move the cursor from the end of `current` to the
      first position where `text` differs, write the rest of `text`, and blank
      out whatever of `current` extends past the end of `text`. */
  function RedrawOutput(current: string, text: string): string
  {
    var k := Lcp(current, text);
    var overlap := |current| - |text|;
    Backspaces(|current| - k) + text[k..]
      + (if overlap > 0 then Spaces(overlap) + Backspaces(overlap) else "")
  }

  /** The output `UpdateText` builds: the common-prefix loop, then the
      backspaces, the new suffix and, when the line got shorter, the blanking. */
  method ComposeRedraw(current: string, text: string) returns (output: string)
    ensures output == RedrawOutput(current, text)
  {
    var commonPrefixLength := 0;
    var commonLength := if |current| < |text| then |current| else |text|;
    while commonPrefixLength < commonLength && text[commonPrefixLength] == current[commonPrefixLength]
      invariant commonPrefixLength <= commonLength
      invariant forall i | 0 <= i < commonPrefixLength :: current[i] == text[i]
    {
      commonPrefixLength := commonPrefixLength + 1;
    }
    LcpUnique(current, text, commonPrefixLength);

    output := Backspaces(|current| - commonPrefixLength);
    output := output + text[commonPrefixLength..];
    var overlapCount := |current| - |text|;
    if overlapCount > 0 {
      output := output + Spaces(overlapCount);
      output := output + Backspaces(overlapCount);
    }
  }

  /** Redrawing a line with itself writes nothing. */
  lemma RedrawSameText(s: string)
    ensures RedrawOutput(s, s) == ""
  {
    LcpUnique(s, s, |s|);
  }

  // ---------------------------------------------------------------------------
  // The terminal line the output is written to.

  /** One terminal line and the cursor column on it. */
  datatype Screen = Screen(line: string, cursor: nat)

  /** An empty line, cursor at column 0. */
  const Blank: Screen := Screen("", 0)

  /** A backspace moves the cursor one column left (never past column 0); any
      other character overwrites the cell under the cursor, or extends the line
      when the cursor is at its end, and advances the cursor. */
  function Put(sc: Screen, c: char): Screen
  {
    if c == BS then Screen(sc.line, if sc.cursor == 0 then 0 else sc.cursor - 1)
    else if sc.cursor < |sc.line| then Screen(sc.line[sc.cursor := c], sc.cursor + 1)
    else Screen(sc.line + [c], sc.cursor + 1)
  }

  /** The line after writing `out` character by character. */
  function Replay(sc: Screen, out: string): Screen
    decreases |out|
  {
    if out == "" then sc else Replay(Put(sc, out[0]), out[1..])
  }

  /** The line reads `text` followed only by spaces, with the cursor just after `text`. */
  ghost predicate Shows(sc: Screen, text: string)
  {
    && sc.cursor == |text| <= |sc.line|
    && sc.line[..|text|] == text
    && forall i | |text| <= i < |sc.line| :: sc.line[i] == ' '
  }

  /** `line` with `w` written over it from column `at` on. */
  function Overwrite(line: string, at: nat, w: string): (r: string)
    requires at <= |line|
    ensures |r| == if at + |w| < |line| then |line| else at + |w|
    ensures r[..at] == line[..at]
    ensures r[at..at + |w|] == w
    ensures forall i | at + |w| <= i < |line| :: r[i] == line[i]
  {
    line[..at] + w + (if at + |w| < |line| then line[at + |w|..] else "")
  }

  lemma {:induction false} ReplayAppend(sc: Screen, a: string, b: string)
    ensures Replay(sc, a + b) == Replay(Replay(sc, a), b)
    decreases |a|
  {
    if a == "" {
      assert a + b == b;
    } else {
      assert (a + b)[0] == a[0];
      assert (a + b)[1..] == a[1..] + b;
      ReplayAppend(Put(sc, a[0]), a[1..], b);
    }
  }

  lemma {:induction false} ReplayBackspaces(sc: Screen, n: nat)
    requires n <= sc.cursor
    ensures Replay(sc, Backspaces(n)) == Screen(sc.line, sc.cursor - n)
    decreases n
  {
    if n > 0 {
      assert Backspaces(n)[1..] == Backspaces(n - 1);
      ReplayBackspaces(Put(sc, BS), n - 1);
    }
  }

  lemma {:induction false} ReplayWrite(sc: Screen, w: string)
    requires sc.cursor <= |sc.line|
    requires BS !in w
    ensures Replay(sc, w) == Screen(Overwrite(sc.line, sc.cursor, w), sc.cursor + |w|)
    decreases |w|
  {
    if w != "" {
      var next := Put(sc, w[0]);
      assert next == Screen(Overwrite(sc.line, sc.cursor, w[..1]), sc.cursor + 1);
      assert BS !in w[1..] by {
        forall i | 0 <= i < |w[1..]| ensures w[1..][i] != BS {
          assert w[1..][i] == w[i + 1];
        }
      }
      ReplayWrite(next, w[1..]);
      var r1 := Overwrite(next.line, next.cursor, w[1..]);
      var r := Overwrite(sc.line, sc.cursor, w);
      assert |r1| == |r|;
      forall i | 0 <= i < |r| ensures r1[i] == r[i] {
        if i < sc.cursor {
          assert r1[..sc.cursor + 1][i] == next.line[..sc.cursor + 1][i];
          assert r[..sc.cursor][i] == sc.line[..sc.cursor][i];
        } else if i < sc.cursor + |w| {
          assert r[sc.cursor..sc.cursor + |w|][i - sc.cursor] == w[i - sc.cursor];
          if i == sc.cursor {
            assert r1[..sc.cursor + 1][i] == next.line[..sc.cursor + 1][i];
          } else {
            assert r1[sc.cursor + 1..sc.cursor + |w|][i - sc.cursor - 1] == w[1..][i - sc.cursor - 1];
          }
        }
      }
    } else {
      assert Overwrite(sc.line, sc.cursor, w) == sc.line;
    }
  }

  /** Backspacing to the end of a common prefix and writing the rest of
      `text` leaves `text` at the start of the line, the cursor after it. */
  lemma RewriteSuffix(sc: Screen, current: string, text: string, k: nat)
    requires sc.cursor == |current| <= |sc.line| && sc.line[..|current|] == current
    requires k <= |current| && k <= |text| && current[..k] == text[..k]
    requires BS !in text[k..]
    ensures Replay(sc, Backspaces(|current| - k) + text[k..]) == Screen(Overwrite(sc.line, k, text[k..]), |text|)
    ensures Overwrite(sc.line, k, text[k..])[..|text|] == text
  {
    var suffix := text[k..];
    var back := Backspaces(|current| - k);
    ReplayAppend(sc, back, suffix);
    ReplayBackspaces(sc, |current| - k);
    ReplayWrite(Screen(sc.line, k), suffix);
    OverwriteCommonPrefix(sc.line, current, text, k);
  }

  lemma NoBackspaceAfter(text: string, k: nat)
    requires BS !in text && k <= |text|
    ensures BS !in text[k..]
  {
    forall i | 0 <= i < |text[k..]| ensures text[k..][i] != BS {
      assert text[k..][i] == text[k + i];
    }
  }

  lemma OverwriteCommonPrefix(line: string, current: string, text: string, k: nat)
    requires |current| <= |line| && line[..|current|] == current
    requires k <= |current| && k <= |text| && current[..k] == text[..k]
    ensures Overwrite(line, k, text[k..])[..|text|] == text
  {
    var suffix := text[k..];
    var r := Overwrite(line, k, suffix);
    calc {
      r[..|text|];
      r[..k] + r[k..k + |suffix|];
      line[..k] + suffix;
      { assert line[..k] == line[..|current|][..k]; }
      current[..k] + suffix;
      text[..k] + text[k..];
      text;
    }
  }

  /** Writing spaces over the leftover tail of a longer line and backspacing
      over them again leaves the line showing `text`. */
  lemma BlankTail(sc: Screen, current: string, text: string)
    requires |text| < |current| <= |sc.line|
    requires sc.cursor == |text|
    requires sc.line[..|text|] == text
    requires forall i | |current| <= i < |sc.line| :: sc.line[i] == ' '
    ensures var overlap := |current| - |text|;
      var after := Replay(sc, Spaces(overlap) + Backspaces(overlap));
      Shows(after, text) && |after.line| == |sc.line|
  {
    var overlap := |current| - |text|;
    ReplayAppend(sc, Spaces(overlap), Backspaces(overlap));
    assert BS !in Spaces(overlap);
    ReplayWrite(sc, Spaces(overlap));
    var line := Overwrite(sc.line, |text|, Spaces(overlap));
    ReplayBackspaces(Screen(line, |current|), overlap);
    forall i | |text| <= i < |line| ensures line[i] == ' ' {
      if i < |current| {
        assert line[|text|..|current|][i - |text|] == Spaces(overlap)[i - |text|];
      }
    }
  }

  /** Redraw round trip: on a line showing `current`, the redraw output leaves
      the line showing `text`, whatever the two strings are, provided `text`
      holds no backspace of its own. The line never gets shorter. */
  lemma RedrawRoundTrip(sc: Screen, current: string, text: string)
    requires Shows(sc, current)
    requires BS !in text
    ensures Shows(Replay(sc, RedrawOutput(current, text)), text)
    ensures |Replay(sc, RedrawOutput(current, text)).line| == if |text| < |sc.line| then |sc.line| else |text|
  {
    var k := Lcp(current, text);
    var overlap := |current| - |text|;
    var head := Backspaces(|current| - k) + text[k..];
    var tail := if overlap > 0 then Spaces(overlap) + Backspaces(overlap) else "";
    assert RedrawOutput(current, text) == head + tail;
    ReplayAppend(sc, head, tail);
    NoBackspaceAfter(text, k);
    RewriteSuffix(sc, current, text, k);
    var sc2 := Screen(Overwrite(sc.line, k, text[k..]), |text|);
    if overlap > 0 {
      BlankTail(sc2, current, text);
    } else {
      assert head + tail == head;
      forall i | |text| <= i < |sc2.line| ensures sc2.line[i] == ' ' {
        assert sc.line[i] == ' ';
      }
    }
  }
}
