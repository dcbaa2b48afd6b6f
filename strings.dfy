// Option, as used for the stall notification of the transfer bar.
module Wrappers {

  datatype Option<+T> = None | Some(value: T)
}

/** The .NET string operations the progress bars rely on, over `seq<char>`. */
module Strings {

  /** The backspace control character written by the redraw engine. */
  const BS: char := '\U{0008}'

  /** The non-breaking space used as padding. */
  const NBSP: char := '\U{00A0}'

  /** `char.IsWhiteSpace`: the Unicode space separators, line and paragraph
      separators, and the control characters U+0009..U+000D and U+0085. */
  predicate IsWhiteSpace(c: char)
  {
    || ('\U{0009}' <= c <= '\U{000D}')
    || c == ' ' || c == '\U{0085}' || c == NBSP || c == '\U{1680}'
    || ('\U{2000}' <= c <= '\U{200A}')
    || c == '\U{2028}' || c == '\U{2029}' || c == '\U{202F}' || c == '\U{205F}'
    || c == '\U{3000}'
  }

  predicate IsDigit(c: char)
  {
    '0' <= c <= '9'
  }

  /** `n` copies of the character `c`, as `StringBuilder.Append(c, n)` writes them. */
  function Chars(c: char, n: nat): (r: string)
    ensures |r| == n
    ensures forall i | 0 <= i < n :: r[i] == c
  {
    seq(n, _ => c)
  }

  function Spaces(n: nat): string
  {
    Chars(' ', n)
  }

  function Backspaces(n: nat): string
  {
    Chars(BS, n)
  }

  /** `s` appended `n` times to the empty string, one copy per step, as the
      block loops and `Aggregate` calls do. */
  function Repeat(s: string, n: nat): string
  {
    if n == 0 then "" else Repeat(s, n - 1) + s
  }

  /** `n` copies of `s` are `n` times as long as `s`. */
  lemma {:induction false} RepeatLength(s: string, n: nat)
    ensures |Repeat(s, n)| == n * |s|
  {
    if n > 0 {
      RepeatLength(s, n - 1);
      assert (n - 1) * |s| + |s| == n * |s|;
    }
  }

  /** A one-character glyph repeated `n` times is that character `n` times. */
  lemma {:induction false} RepeatGlyph(s: string, n: nat)
    requires |s| == 1
    ensures Repeat(s, n) == Chars(s[0], n)
  {
    if n > 0 {
      RepeatGlyph(s, n - 1);
    }
  }

  /** `string.TrimEnd()`: drops the trailing white-space characters. */
  function TrimEnd(s: string): (r: string)
    ensures |r| <= |s| && r == s[..|r|]
    ensures |r| == 0 || !IsWhiteSpace(r[|r| - 1])
    ensures forall i | |r| <= i < |s| :: IsWhiteSpace(s[i])
    decreases |s|
  {
    if |s| > 0 && IsWhiteSpace(s[|s| - 1]) then TrimEnd(s[..|s| - 1]) else s
  }

  /** `string.TrimStart()`: drops the leading white-space characters. */
  function TrimStart(s: string): (r: string)
    ensures |r| <= |s| && r == s[|s| - |r|..]
    ensures |r| == 0 || !IsWhiteSpace(r[0])
    ensures forall i | 0 <= i < |s| - |r| :: IsWhiteSpace(s[i])
    decreases |s|
  {
    if |s| > 0 && IsWhiteSpace(s[0]) then TrimStart(s[1..]) else s
  }

  /** `string.Trim()`. */
  function Trim(s: string): string
  {
    TrimStart(TrimEnd(s))
  }

  /** Appending text that does not trim away keeps everything before it. */
  lemma {:induction false} TrimEndAppend(a: string, b: string)
    requires TrimEnd(b) != ""
    ensures TrimEnd(a + b) == a + TrimEnd(b)
    decreases |b|
  {
    var n := |b|;
    if IsWhiteSpace(b[n - 1]) {
      assert (a + b)[..|a + b| - 1] == a + b[..n - 1];
      TrimEndAppend(a, b[..n - 1]);
    }
  }

  /** Appending only white space changes nothing once the string is trimmed. */
  lemma {:induction false} TrimEndWhiteSpaceSuffix(a: string, b: string)
    requires forall i | 0 <= i < |b| :: IsWhiteSpace(b[i])
    ensures TrimEnd(a + b) == TrimEnd(a)
    decreases |b|
  {
    if |b| > 0 {
      assert IsWhiteSpace((a + b)[|a + b| - 1]);
      assert (a + b)[..|a + b| - 1] == a + b[..|b| - 1];
      TrimEndWhiteSpaceSuffix(a, b[..|b| - 1]);
    } else {
      assert a + b == a;
    }
  }

  /** `string.PadLeft(width, c)`. */
  function PadLeft(s: string, width: nat, c: char): (r: string)
    ensures |r| == if |s| < width then width else |s|
    ensures r[|r| - |s|..] == s
    ensures forall i | 0 <= i < |r| - |s| :: r[i] == c
  {
    if |s| < width then Chars(c, width - |s|) + s else s
  }

  function DigitChar(d: nat): (c: char)
    requires d < 10
    ensures IsDigit(c)
  {
    "0123456789"[d]
  }

  /** Decimal text of a non-negative integer, as string interpolation gives it
      under the invariant culture. */
  function NatStr(n: nat): (s: string)
    ensures |s| > 0
    ensures forall i | 0 <= i < |s| :: IsDigit(s[i])
    ensures n > 0 ==> s[0] != '0'
    decreases n
  {
    if n < 10 then [DigitChar(n)] else NatStr(n / 10) + [DigitChar(n % 10)]
  }

  /** The value of a decimal digit. */
  function DigitValue(c: char): (d: nat)
    requires IsDigit(c)
    ensures d < 10
  {
    c as int - '0' as int
  }

  /** The number a string of decimal digits denotes. */
  function DecimalValue(s: string): nat
    requires forall i | 0 <= i < |s| :: IsDigit(s[i])
    decreases |s|
  {
    if s == "" then 0 else 10 * DecimalValue(s[..|s| - 1]) + DigitValue(s[|s| - 1])
  }

  lemma DigitCharValue(d: nat)
    requires d < 10
    ensures DigitValue(DigitChar(d)) == d
  {
  }

  /** The decimal text of `n` reads back as `n`. */
  lemma {:induction false} NatStrValue(n: nat)
    ensures DecimalValue(NatStr(n)) == n
    decreases n
  {
    if n < 10 {
      DigitCharValue(n);
    } else {
      var s := NatStr(n);
      assert s[..|s| - 1] == NatStr(n / 10);
      NatStrValue(n / 10);
      DigitCharValue(n % 10);
    }
  }

  /** Different counts have different decimal texts. */
  lemma NatStrInjective(m: nat, n: nat)
    requires NatStr(m) == NatStr(n)
    ensures m == n
  {
    NatStrValue(m);
    NatStrValue(n);
  }

  /** The characters of `s` other than the plain space, in order. */
  function NonSpaces(s: string): string
    decreases |s|
  {
    if s == [] then [] else (if s[0] == ' ' then [] else [s[0]]) + NonSpaces(s[1..])
  }

  /** The non-space characters of a concatenation are those of its parts. */
  lemma {:induction false} NonSpacesAppend(a: string, b: string)
    ensures NonSpaces(a + b) == NonSpaces(a) + NonSpaces(b)
    decreases |a|
  {
    if a == [] {
      assert a + b == b;
    } else {
      assert (a + b)[0] == a[0];
      assert (a + b)[1..] == a[1..] + b;
      NonSpacesAppend(a[1..], b);
    }
  }

  /** A space appended adds nothing to the non-space text. */
  lemma NonSpacesSpaceAfter(s: string)
    ensures NonSpaces(s + " ") == NonSpaces(s)
  {
    NonSpacesAppend(s, " ");
    NonSpacesCons(' ', "");
    assert [' '] + "" == " ";
    assert NonSpaces(s) + [] == NonSpaces(s);
  }

  lemma NonSpacesCons(c: char, s: string)
    ensures NonSpaces([c] + s) == (if c == ' ' then [] else [c]) + NonSpaces(s)
  {
    assert ([c] + s)[1..] == s;
  }

  /** `s.Replace("  ", " ")`: one left-to-right pass that replaces each
      non-overlapping pair of spaces with one space. */
  function ReplaceDoubleSpaces(s: string): (r: string)
    ensures |r| <= |s|
    decreases |s|
  {
    if |s| >= 2 && s[0] == ' ' && s[1] == ' ' then [' '] + ReplaceDoubleSpaces(s[2..])
    else if |s| == 0 then ""
    else [s[0]] + ReplaceDoubleSpaces(s[1..])
  }

  /** The replacement only drops spaces: every other character is kept, in order. */
  lemma {:induction false} ReplaceKeepsNonSpaces(s: string)
    ensures NonSpaces(ReplaceDoubleSpaces(s)) == NonSpaces(s)
    decreases |s|
  {
    if |s| >= 2 && s[0] == ' ' && s[1] == ' ' {
      var rest := ReplaceDoubleSpaces(s[2..]);
      ReplaceKeepsNonSpaces(s[2..]);
      assert s == [' '] + ([' '] + s[2..]);
      NonSpacesCons(' ', [' '] + s[2..]);
      NonSpacesCons(' ', s[2..]);
      NonSpacesCons(' ', rest);
    } else if |s| > 0 {
      var rest := ReplaceDoubleSpaces(s[1..]);
      ReplaceKeepsNonSpaces(s[1..]);
      assert s == [s[0]] + s[1..];
      NonSpacesCons(s[0], s[1..]);
      NonSpacesCons(s[0], rest);
    }
  }

  /** A trailing space survives the replacement. */
  lemma {:induction false} ReplaceKeepsTrailingSpace(s: string)
    requires |s| > 0 && s[|s| - 1] == ' '
    ensures var r := ReplaceDoubleSpaces(s); |r| > 0 && r[|r| - 1] == ' '
    decreases |s|
  {
    var r := ReplaceDoubleSpaces(s);
    if |s| >= 2 && s[0] == ' ' && s[1] == ' ' {
      if |s| > 2 {
        assert s[2..][|s| - 3] == ' ';
        ReplaceKeepsTrailingSpace(s[2..]);
        var rest := ReplaceDoubleSpaces(s[2..]);
        assert r == [' '] + rest;
        assert r[|r| - 1] == rest[|rest| - 1];
      } else {
        assert s[2..] == "";
        assert r == [' '];
      }
    } else if |s| > 1 {
      assert s[1..][|s| - 2] == ' ';
      ReplaceKeepsTrailingSpace(s[1..]);
      var rest := ReplaceDoubleSpaces(s[1..]);
      assert r == [s[0]] + rest;
      assert r[|r| - 1] == rest[|rest| - 1];
    } else {
      assert s[1..] == "";
      assert r == [s[0]];
    }
  }

  /** The replacement is a single pass: a run of `n` spaces becomes
      `ceil(n / 2)` spaces, not one. */
  lemma {:induction false} ReplaceIsSinglePass(n: nat)
    ensures ReplaceDoubleSpaces(Spaces(n)) == Spaces((n + 1) / 2)
    decreases n
  {
    if n >= 2 {
      var run := Spaces(n);
      assert run[0] == ' ' && run[1] == ' ';
      assert run[2..] == Spaces(n - 2);
      assert ReplaceDoubleSpaces(run) == [' '] + ReplaceDoubleSpaces(Spaces(n - 2));
      ReplaceIsSinglePass(n - 2);
      assert [' '] + Spaces((n - 1) / 2) == Spaces((n + 1) / 2);
    } else if n == 1 {
      assert Spaces(1)[1..] == "";
      assert Spaces(1) == [' '];
    } else {
      assert Spaces(0) == "";
    }
  }
}
