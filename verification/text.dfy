/** The few Python string operations the kiosk code relies on, on `seq<char>`:
    decimal rendering of integers, `strip()`, `readline()`, `in`, `startswith`,
    `endswith`, `lower()` and `split()`. */
module Text {

  // ---------------------------------------------------------------------------
  // Decimal digits
  // ---------------------------------------------------------------------------

  predicate IsDigit(c: char)
  {
    '0' <= c <= '9'
  }

  predicate AllDigits(s: string)
  {
    forall i :: 0 <= i < |s| ==> IsDigit(s[i])
  }

  function DigitChar(d: nat): (c: char)
    requires d < 10
    ensures IsDigit(c)
  {
    ('0' as int + d) as char
  }

  function DigitValue(c: char): (d: nat)
    requires IsDigit(c)
    ensures d < 10
  {
    c as int - '0' as int
  }

  /** The number a string of decimal digits denotes. */
  function DigitsValue(s: string): nat
    requires AllDigits(s)
    decreases |s|
  {
    if |s| == 0 then 0 else DigitsValue(s[..|s| - 1]) * 10 + DigitValue(s[|s| - 1])
  }

  /** `str(n)` for a non-negative Python int: its digits, most significant
      first, with no leading zero. */
  function NatToString(n: nat): (s: string)
    ensures |s| >= 1 && AllDigits(s)
    ensures |s| > 1 ==> s[0] != '0'
    decreases n
  {
    if n < 10 then [DigitChar(n)] else NatToString(n / 10) + [DigitChar(n % 10)]
  }

  /** Reading the rendered digits back gives the number that was rendered. */
  lemma {:induction false} NatToStringRoundTrip(n: nat)
    ensures DigitsValue(NatToString(n)) == n
    decreases n
  {
    if n >= 10 {
      var s := NatToString(n);
      NatToStringRoundTrip(n / 10);
      assert s[..|s| - 1] == NatToString(n / 10);
    }
  }

  /** Different numbers never render to the same text. */
  lemma NatToStringInjective(a: nat, b: nat)
    ensures NatToString(a) == NatToString(b) ==> a == b
  {
    NatToStringRoundTrip(a);
    NatToStringRoundTrip(b);
  }

  /** `str(n)` for any Python int, with a leading minus sign when negative. */
  function IntToString(n: int): (s: string)
    ensures |s| >= 1
    ensures n >= 0 ==> s == NatToString(n)
    ensures n < 0 ==> s[0] == '-' && s[1..] == NatToString(-n)
  {
    if n < 0 then "-" + NatToString(-n) else NatToString(n)
  }

  /** A number below one hundred as exactly two digits, zero-padded on the
      left (Qt's `hh`, `mm` and `ss` time formats). */
  function Pad2(n: nat): (s: string)
    requires n < 100
    ensures |s| == 2 && AllDigits(s)
    ensures DigitsValue(s) == n
  {
    var s := [DigitChar(n / 10), DigitChar(n % 10)];
    assert s[..1][..0] == [];
    assert s[..1] == [DigitChar(n / 10)];
    assert DigitsValue(s[..1]) == n / 10;
    assert DigitValue(s[1]) == n % 10;
    s
  }

  // ---------------------------------------------------------------------------
  // Whitespace and str.strip()
  // ---------------------------------------------------------------------------

  /** The characters Python's `str.isspace()` accepts, which `strip()` removes. */
  predicate IsSpace(c: char)
  {
    || c == ' '
    || ('\t' <= c <= '\r')
    || ('\U{1C}' <= c <= '\U{1F}')
    || c == '\U{85}' || c == '\U{A0}' || c == '\U{1680}'
    || ('\U{2000}' <= c <= '\U{200A}')
    || c == '\U{2028}' || c == '\U{2029}' || c == '\U{202F}' || c == '\U{205F}' || c == '\U{3000}'
  }

  /** The first index at or after `i` that does not hold whitespace, or `|s|`. */
  function SkipSpaces(s: string, i: nat): (j: nat)
    requires i <= |s|
    ensures i <= j <= |s|
    ensures forall k :: i <= k < j ==> IsSpace(s[k])
    ensures j < |s| ==> !IsSpace(s[j])
    decreases |s| - i
  {
    if i < |s| && IsSpace(s[i]) then SkipSpaces(s, i + 1) else i
  }

  /** The index just past the last non-whitespace character in `s[i..j]`,
      or `i` when there is none. */
  function TrimEnd(s: string, i: nat, j: nat): (e: nat)
    requires i <= j <= |s|
    ensures i <= e <= j
    ensures forall k :: e <= k < j ==> IsSpace(s[k])
    ensures e > i ==> !IsSpace(s[e - 1])
    decreases j - i
  {
    if j > i && IsSpace(s[j - 1]) then TrimEnd(s, i, j - 1) else j
  }

  /** Where `Strip(s)` begins inside `s`. */
  function StripStart(s: string): nat
  {
    SkipSpaces(s, 0)
  }

  /** `s.strip()`: the slice of `s` that neither starts nor ends with
      whitespace, everything outside it being whitespace. */
  function Strip(s: string): (r: string)
    ensures StripStart(s) + |r| <= |s| && r == s[StripStart(s)..StripStart(s) + |r|]
    ensures forall i :: 0 <= i < StripStart(s) ==> IsSpace(s[i])
    ensures forall i :: StripStart(s) + |r| <= i < |s| ==> IsSpace(s[i])
    ensures r == [] || (!IsSpace(r[0]) && !IsSpace(r[|r| - 1]))
  {
    var a := StripStart(s);
    s[a..TrimEnd(s, a, |s|)]
  }

  // ---------------------------------------------------------------------------
  // Substrings
  // ---------------------------------------------------------------------------

  predicate StartsWith(s: string, prefix: string)
  {
    |prefix| <= |s| && s[..|prefix|] == prefix
  }

  predicate EndsWith(s: string, suffix: string)
  {
    |suffix| <= |s| && s[|s| - |suffix|..] == suffix
  }

  /** Python's `sub in s`, scanning left to right. */
  predicate Contains(s: string, sub: string)
    decreases |s|
  {
    StartsWith(s, sub) || (|s| > 0 && Contains(s[1..], sub))
  }

  /** `sub` occurs in `s` starting at index `i`. */
  predicate OccursAt(s: string, sub: string, i: int)
  {
    0 <= i && i + |sub| <= |s| && s[i..i + |sub|] == sub
  }

  /** A slice of a slice is a slice of the original. */
  lemma SliceOfSlice(s: string, a: nat, b: nat, c: nat, d: nat)
    requires a <= b <= |s| && c <= d <= b - a
    ensures s[a..b][c..d] == s[a + c..a + d]
  {
    assert forall k :: 0 <= k < d - c ==> s[a..b][c..d][k] == s[a + c + k];
  }

  /** The scanning definition of `in` agrees with "there is a position where it occurs". */
  lemma {:induction false} ContainsIffOccurs(s: string, sub: string)
    ensures Contains(s, sub) <==> exists i :: OccursAt(s, sub, i)
    decreases |s|
  {
    if |s| > 0 {
      ContainsIffOccurs(s[1..], sub);
    }
    if Contains(s, sub) {
      if StartsWith(s, sub) {
        assert OccursAt(s, sub, 0);
      } else {
        var i :| OccursAt(s[1..], sub, i);
        SliceOfSlice(s, 1, |s|, i, i + |sub|);
        assert OccursAt(s, sub, i + 1);
      }
    }
    if exists i :: OccursAt(s, sub, i) {
      var i :| OccursAt(s, sub, i);
      if i == 0 {
        assert StartsWith(s, sub);
      } else {
        SliceOfSlice(s, 1, |s|, i - 1, i - 1 + |sub|);
        assert OccursAt(s[1..], sub, i - 1);
      }
    }
  }

  /** An occurrence inside the window `s[a..b]` is an occurrence in `s`, and back. */
  lemma OccursInWindow(s: string, w: string, a: nat, b: nat, i: int)
    requires a <= b <= |s|
    requires a <= i && i + |w| <= b
    ensures OccursAt(s[a..b], w, i - a) <==> OccursAt(s, w, i)
  {
    SliceOfSlice(s, a, b, i - a, i - a + |w|);
  }

  /** An occurrence of such a word in `s` lies inside the stripped slice. */
  lemma WordInsideStrip(s: string, w: string, i: int)
    requires |w| > 0 && !IsSpace(w[0]) && !IsSpace(w[|w| - 1])
    requires OccursAt(s, w, i)
    ensures StripStart(s) <= i && i + |w| <= StripStart(s) + |Strip(s)|
  {
    assert s[i..i + |w|][0] == s[i];
    assert s[i..i + |w|][|w| - 1] == s[i + |w| - 1];
  }

  /** Stripping whitespace does not change whether a word that itself begins
      and ends with a non-space character occurs in the text. */
  lemma StripKeepsWord(s: string, w: string)
    requires |w| > 0 && !IsSpace(w[0]) && !IsSpace(w[|w| - 1])
    ensures Contains(Strip(s), w) <==> Contains(s, w)
  {
    var t := Strip(s);
    var a := StripStart(s);
    var b := a + |t|;
    ContainsIffOccurs(s, w);
    ContainsIffOccurs(t, w);
    if Contains(t, w) {
      var j :| OccursAt(t, w, j);
      OccursInWindow(s, w, a, b, j + a);
    }
    if Contains(s, w) {
      var i :| OccursAt(s, w, i);
      WordInsideStrip(s, w, i);
      OccursInWindow(s, w, a, b, i);
    }
  }

  // ---------------------------------------------------------------------------
  // Lines, case and splitting
  // ---------------------------------------------------------------------------

  /** `f.readline()` on a text file whose newlines are already translated to
      '\n': everything up to and including the first newline, or the whole
      text when it has none. */
  function ReadLine(text: string): (line: string)
    ensures StartsWith(text, line)
    ensures forall i :: 0 <= i < |line| - 1 ==> line[i] != '\n'
    ensures |line| < |text| ==> line != [] && line[|line| - 1] == '\n'
    ensures text != [] ==> line != []
    decreases |text|
  {
    if |text| == 0 then []
    else if text[0] == '\n' then ['\n']
    else [text[0]] + ReadLine(text[1..])
  }

  /** `j` is where the first line of `text` ends: the index of its first
      newline, or `|text|` when it has none. */
  predicate LineEnd(text: string, j: int)
  {
    0 <= j <= |text| && '\n' !in text[..j] && (j == |text| || text[j] == '\n')
  }

  /** `readline()` stops right after the first newline, or takes the whole
      text when there is none. */
  lemma {:induction false} ReadLineEnd(text: string, j: int)
    requires LineEnd(text, j)
    ensures j < |text| ==> ReadLine(text) == text[..j + 1]
    ensures j == |text| ==> ReadLine(text) == text
    decreases |text|
  {
    if |text| > 0 {
      if text[0] != '\n' {
        assert j > 0;
        assert text[1..][..j - 1] == text[1..j];
        assert forall c :: c in text[1..j] ==> c in text[..j];
        ReadLineEnd(text[1..], j - 1);
        assert [text[0]] + text[1..] == text;
        assert j < |text| ==> [text[0]] + text[1..][..j] == text[..j + 1];
      }
    }
  }

  /** `strip()` has only one possible answer: a slice with whitespace all
      around it and non-whitespace at both of its ends is the stripped text. */
  lemma StripUnique(s: string, a: int, b: int)
    requires 0 <= a <= b <= |s|
    requires forall i :: 0 <= i < a ==> IsSpace(s[i])
    requires forall i :: b <= i < |s| ==> IsSpace(s[i])
    requires a < b ==> !IsSpace(s[a]) && !IsSpace(s[b - 1])
    ensures Strip(s) == s[a..b]
  {
    var r := Strip(s);
    var a' := StripStart(s);
    var b' := a' + |r|;
    if |r| > 0 {
      assert s[a'] == r[0] && s[b' - 1] == r[|r| - 1];
      assert a' < b;
      assert a == a';
      assert b' <= b;
      assert b <= b';
    }
  }

  /** A trailing whitespace character makes no difference to `strip()`. */
  lemma StripDropsTrailingSpace(u: string, c: char)
    requires IsSpace(c)
    ensures Strip(u + [c]) == Strip(u)
  {
    var raw := u + [c];
    var r := Strip(raw);
    var a := StripStart(raw);
    assert forall i :: 0 <= i < |u| ==> u[i] == raw[i];
    if |r| > 0 {
      assert raw[a + |r| - 1] == r[|r| - 1];
      StripUnique(u, a, a + |r|);
      assert u[a..a + |r|] == raw[a..a + |r|];
    } else {
      StripUnique(u, 0, 0);
    }
  }

  /** Stripping what `readline()` returns gives the same as stripping the
      first line without its newline. */
  lemma StripOfReadLine(text: string, j: int)
    requires LineEnd(text, j)
    ensures Strip(ReadLine(text)) == Strip(text[..j])
  {
    ReadLineEnd(text, j);
    if j < |text| {
      assert text[..j + 1] == text[..j] + ['\n'];
      StripDropsTrailingSpace(text[..j], '\n');
    } else {
      assert text[..j] == text;
    }
  }

  /** `f.readline().strip()`: the first line of a text, up to its first
      newline, without the whitespace around it. */
  function FirstLine(text: string): (line: string)
    ensures '\n' !in line
    ensures line == [] || (!IsSpace(line[0]) && !IsSpace(line[|line| - 1]))
    ensures forall j :: LineEnd(text, j) ==> line == Strip(text[..j])
  {
    var raw := ReadLine(text);
    var line := Strip(raw);
    var a := StripStart(raw);
    forall i | 0 <= i < |line|
      ensures line[i] != '\n'
    {
      assert line[i] == raw[a + i];
      assert IsSpace('\n');
    }
    forall j | LineEnd(text, j)
      ensures line == Strip(text[..j])
    {
      StripOfReadLine(text, j);
    }
    line
  }

  /** A first line that is already stripped comes back as it is, whatever
      follows it. */
  lemma FirstLineOfLine(w: string, rest: string)
    requires '\n' !in w
    requires w == [] || (!IsSpace(w[0]) && !IsSpace(w[|w| - 1]))
    ensures FirstLine(w + "\n" + rest) == w
  {
    var text := w + "\n" + rest;
    assert text[..|w|] == w;
    assert text[|w|] == '\n';
    assert LineEnd(text, |w|);
    StripUnique(w, 0, |w|);
    assert w[0..|w|] == w;
  }

  /** For example, "hello\nworld\n" has the first line "hello". */
  lemma FirstLineExample()
    ensures FirstLine("hello\nworld\n") == "hello"
  {
    assert !IsSpace('h') && !IsSpace('o');
    FirstLineOfLine("hello", "world\n");
    assert "hello" + "\n" + "world\n" == "hello\nworld\n";
  }

  /** A single character as Python's `str.lower()` changes it (ASCII letters only). */
  function LowerChar(c: char): char
  {
    if 'A' <= c <= 'Z' then (c as int + 32) as char else c
  }

  /** `s.lower()`, letter by letter. */
  function Lower(s: string): (r: string)
    ensures |r| == |s|
    ensures forall i :: 0 <= i < |s| ==> r[i] == LowerChar(s[i])
    ensures forall i :: 0 <= i < |r| ==> !('A' <= r[i] <= 'Z')
    ensures forall i :: 0 <= i < |s| && !('A' <= s[i] <= 'Z') ==> r[i] == s[i]
    ensures forall i :: 0 <= i < |s| && 'A' <= s[i] <= 'Z' ==> r[i] as int == s[i] as int + 32
  {
    seq(|s|, i requires 0 <= i < |s| => LowerChar(s[i]))
  }

  /** `s.split(sep)` for a one-character separator: the pieces between
      separators, none of which contains the separator. */
  function Split(s: string, sep: char): (parts: seq<string>)
    ensures |parts| >= 1
    ensures forall k :: 0 <= k < |parts| ==> sep !in parts[k]
    ensures |parts| > 1 <==> sep in s
    decreases |s|
  {
    if |s| == 0 then [""]
    else
      var rest := Split(s[1..], sep);
      assert sep in s[1..] ==> sep in s;
      if s[0] == sep then [""] + rest
      else
        assert sep in s ==> sep in s[1..];
        [[s[0]] + rest[0]] + rest[1..]
  }

  /** `sep.join(parts)`. */
  function Join(parts: seq<string>, sep: char): string
    requires |parts| >= 1
    decreases |parts|
  {
    if |parts| == 1 then parts[0] else parts[0] + [sep] + Join(parts[1..], sep)
  }

  /** Splitting loses nothing: joining the pieces back gives the original text. */
  lemma {:induction false} SplitJoinRoundTrip(s: string, sep: char)
    ensures Join(Split(s, sep), sep) == s
    decreases |s|
  {
    if |s| > 0 {
      var rest := Split(s[1..], sep);
      SplitJoinRoundTrip(s[1..], sep);
      if s[0] == sep {
        assert Split(s, sep)[1..] == rest;
      } else {
        var parts := Split(s, sep);
        if |rest| > 1 {
          assert parts[1..] == rest[1..];
          assert Join(rest, sep) == rest[0] + [sep] + Join(rest[1..], sep);
        }
      }
    }
  }
}
