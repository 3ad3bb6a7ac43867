/**
 Text helpers shared by the preprocessor and the command runtime: the
 Python string operations the source relies on (`str.find`, `str.rstrip`,
 `sep.join`, `file.readlines`, `str(int)`), written out over `seq<char>`.
 */
module Strings {

  datatype Option<+T> = None | Some(value: T)

  /** Number of occurrences of `c` in `s`. */
  function Count(s: string, c: char): nat
  {
    if |s| == 0 then 0 else (if s[0] == c then 1 else 0) + Count(s[1..], c)
  }

  lemma {:induction false} CountConcat(a: string, b: string, c: char)
    ensures Count(a + b, c) == Count(a, c) + Count(b, c)
    decreases |a|
  {
    if |a| == 0 {
      assert a + b == b;
    } else {
      assert (a + b)[1..] == a[1..] + b;
      CountConcat(a[1..], b, c);
    }
  }

  lemma {:induction false} CountZeroIff(s: string, c: char)
    ensures Count(s, c) == 0 <==> c !in s
    decreases |s|
  {
    if |s| > 0 {
      CountZeroIff(s[1..], c);
      assert s == [s[0]] + s[1..];
    }
  }

  /** Python's `s.find(c)` for a one-character needle: the lowest index of `c`, or -1. */
  function Find(s: string, c: char): (r: int)
    ensures -1 <= r < |s|
    ensures r == -1 <==> c !in s
    ensures r >= 0 ==> s[r] == c && c !in s[..r]
    decreases |s|
  {
    if |s| == 0 then -1
    else if s[0] == c then 0
    else
      var k := Find(s[1..], c);
      assert s[1..] == s[1..][..];
      if k == -1 then -1
      else
        assert s[..k + 1] == [s[0]] + s[1..][..k];
        k + 1
  }

  predicate EndsWithNewline(s: string)
  {
    |s| > 0 && s[|s| - 1] == '\n'
  }

  lemma EndsWithNewlineConcat(a: string, b: string)
    ensures b != "" ==> (EndsWithNewline(a + b) <==> EndsWithNewline(b))
    ensures b == "" ==> a + b == a
  {
    if b != "" {
      assert (a + b)[|a + b| - 1] == b[|b| - 1];
    }
  }

  /** A line as `readline` returns it: no newline anywhere except possibly as the last character. */
  predicate IsLine(s: string)
  {
    forall i :: 0 <= i < |s| - 1 ==> s[i] != '\n'
  }

  lemma LineByCount(s: string)
    ensures IsLine(s) <==> Count(s, '\n') == 0 || (Count(s, '\n') == 1 && EndsWithNewline(s))
  {
    if |s| == 0 {
    } else {
      var init, last := s[..|s| - 1], s[|s| - 1];
      assert s == init + [last];
      CountConcat(init, [last], '\n');
      CountZeroIff(init, '\n');
      assert Count([last], '\n') == (if last == '\n' then 1 else 0);
      if IsLine(s) {
        assert '\n' !in init;
      }
      if Count(s, '\n') == 0 {
        CountZeroIff(s, '\n');
      }
    }
  }

  predicate EndsWith(s: string, suffix: string)
  {
    |suffix| <= |s| && s[|s| - |suffix|..] == suffix
  }

  /** The text without its final newline, if it has one. */
  function ChopNewline(s: string): string
  {
    if EndsWithNewline(s) then s[..|s| - 1] else s
  }

  /** The final newline of the text, as a string of length at most one. */
  function FinalNewline(s: string): string
  {
    if EndsWithNewline(s) then "\n" else ""
  }

  lemma ChopNewlineSplit(s: string)
    ensures ChopNewline(s) + FinalNewline(s) == s
    ensures IsLine(s) ==> '\n' !in ChopNewline(s)
  {
  }

  /** Chopping the final newline only touches the last part of a concatenation. */
  lemma ChopAfter(pre: string, s: string)
    requires s != ""
    ensures ChopNewline(pre + s) == pre + ChopNewline(s)
    ensures FinalNewline(pre + s) == FinalNewline(s)
  {
    var u := pre + s;
    assert u[|u| - 1] == s[|s| - 1];
    if EndsWithNewline(s) {
      assert u[..|u| - 1] == pre + s[..|s| - 1];
    }
  }

  /** Python's `s.rstrip(chars)`: drops every trailing character that occurs in `chars`. */
  function RStrip(s: string, chars: string): (r: string)
    ensures r <= s
    ensures |r| == 0 || r[|r| - 1] !in chars
    ensures forall i :: |r| <= i < |s| ==> s[i] in chars
    decreases |s|
  {
    if |s| > 0 && s[|s| - 1] in chars then RStrip(s[..|s| - 1], chars) else s
  }

  /** `''.join(parts)`. */
  function Concat(parts: seq<string>): string
  {
    if |parts| == 0 then "" else parts[0] + Concat(parts[1..])
  }

  lemma {:induction false} ConcatAppend(a: seq<string>, b: seq<string>)
    ensures Concat(a + b) == Concat(a) + Concat(b)
    decreases |a|
  {
    if |a| == 0 {
      assert a + b == b;
    } else {
      assert (a + b)[1..] == a[1..] + b;
      ConcatAppend(a[1..], b);
    }
  }

  /** Concatenation regrouped, for the places where the solver needs the step spelled out. */
  lemma AppendAssoc<T>(a: seq<T>, b: seq<T>, c: seq<T>)
    ensures a + b + c == a + (b + c)
  {
  }

  lemma PrefixOfConcat<T>(a: seq<T>, b: seq<T>)
    ensures a <= a + b
  {
    assert (a + b)[..|a|] == a;
  }

  /** `f` applied to every element, in order. */
  function Each<T, U>(f: T -> U, xs: seq<T>): (ys: seq<U>)
    ensures |ys| == |xs|
    ensures forall k :: 0 <= k < |xs| ==> ys[k] == f(xs[k])
    decreases |xs|
  {
    if |xs| == 0 then []
    else
      var rest := Each(f, xs[1..]);
      assert forall k :: 1 <= k < |xs| ==> xs[k] == xs[1..][k - 1];
      [f(xs[0])] + rest
  }

  /** Texts with a common head and tail are equal exactly when their middles are. */
  lemma MiddleCancel<T>(h: seq<T>, x: seq<T>, y: seq<T>, t: seq<T>)
    ensures h + x + t == h + y + t <==> x == y
  {
    if h + x + t == h + y + t {
      assert |x| == |y|;
      assert x == (h + x + t)[|h|..|h| + |x|];
      assert y == (h + y + t)[|h|..|h| + |y|];
    }
  }

  /** `sep.join(parts)`. */
  function Join(sep: string, parts: seq<string>): string
  {
    if |parts| == 0 then ""
    else if |parts| == 1 then parts[0]
    else parts[0] + sep + Join(sep, parts[1..])
  }

  /** Appending one more part grows the joined text by the separator and that part. */
  lemma {:induction false} JoinAppend(sep: string, parts: seq<string>, x: string)
    requires |parts| > 0
    ensures Join(sep, parts + [x]) == Join(sep, parts) + sep + x
    decreases |parts|
  {
    if |parts| == 1 {
      assert parts + [x] == [parts[0], x];
    } else {
      assert (parts + [x])[1..] == parts[1..] + [x];
      JoinAppend(sep, parts[1..], x);
    }
  }

  /** With a non-empty separator, the joined text is empty exactly for no parts or one empty part. */
  lemma JoinEmptyIff(sep: string, parts: seq<string>)
    requires sep != ""
    ensures Join(sep, parts) == "" <==> |parts| == 0 || (|parts| == 1 && parts[0] == "")
  {
    if |parts| > 1 {
      assert |Join(sep, parts)| >= |sep|;
    }
  }

  /** Two parts that cannot contain the separator character are split apart unambiguously. */
  lemma SplitAtSeparator(c: char, a: string, x: string, b: string, y: string)
    requires c !in a && c !in b
    requires a + [c] + x == b + [c] + y
    ensures a == b && x == y
  {
    var l, r := a + [c] + x, b + [c] + y;
    SeparatorAt(a, c, x);
    SeparatorAt(b, c, y);
    if |a| < |b| {
      assert false;
    } else if |b| < |a| {
      assert false;
    }
    assert a == l[..|a|] == r[..|b|] == b;
    assert x == l[|a| + 1..] == r[|b| + 1..] == y;
  }

  lemma SeparatorAt(a: string, c: char, x: string)
    ensures (a + [c] + x)[|a|] == c
    ensures forall i :: 0 <= i < |a| ==> (a + [c] + x)[i] == a[i]
  {
  }

  /** A one-character separator that occurs in no part makes `Join` injective on non-empty part lists. */
  lemma {:induction false} JoinInjective(c: char, a: seq<string>, b: seq<string>)
    requires |a| > 0 && |b| > 0
    requires forall i :: 0 <= i < |a| ==> c !in a[i]
    requires forall i :: 0 <= i < |b| ==> c !in b[i]
    requires Join([c], a) == Join([c], b)
    ensures a == b
    decreases |a|
  {
    if |a| == 1 && |b| == 1 {
    } else if |a| == 1 {
      assert false;
    } else if |b| == 1 {
      assert false;
    } else {
      SplitAtSeparator(c, a[0], Join([c], a[1..]), b[0], Join([c], b[1..]));
      JoinInjective(c, a[1..], b[1..]);
      assert a == [a[0]] + a[1..];
      assert b == [b[0]] + b[1..];
    }
  }

  /** `file.readline()` on the remaining text: up to and including the first newline, or all of it. */
  function ReadLine(text: string): (line: string)
    ensures line <= text
    ensures '\n' !in text ==> line == text
    ensures '\n' in text ==> EndsWithNewline(line)
    ensures IsLine(line)
    ensures text != "" ==> line != ""
    decreases |text|
  {
    if text == "" then ""
    else if text[0] == '\n' then "\n"
    else
      var rest := ReadLine(text[1..]);
      assert text == [text[0]] + text[1..];
      [text[0]] + rest
  }

  /** A line list as `readlines` produces it: non-empty lines, each ended by a newline except possibly the last. */
  predicate WellFormedLines(lines: seq<string>)
  {
    && (forall i :: 0 <= i < |lines| ==> lines[i] != "" && IsLine(lines[i]))
    && (forall i :: 0 <= i < |lines| - 1 ==> EndsWithNewline(lines[i]))
  }

  /** `file.readlines()`: the text cut after every newline. */
  function ReadLines(text: string): (lines: seq<string>)
    ensures Concat(lines) == text
    ensures WellFormedLines(lines)
    decreases |text|
  {
    if text == "" then []
    else
      var l := ReadLine(text);
      var rest := ReadLines(text[|l|..]);
      assert text == l + text[|l|..];
      if '\n' in text then
        WellFormedCons(l, rest);
        [l] + rest
      else
        assert text[|l|..] == "";
        WellFormedCons(l, rest);
        [l] + rest
  }

  /** A non-empty line in front of a well-formed list keeps it well formed, provided it ends its line when more follow. */
  lemma WellFormedCons(l: string, rest: seq<string>)
    requires l != "" && IsLine(l) && WellFormedLines(rest)
    requires rest == [] || EndsWithNewline(l)
    ensures WellFormedLines([l] + rest)
    ensures Concat([l] + rest) == l + Concat(rest)
  {
    var ls := [l] + rest;
    assert ls[1..] == rest;
    assert forall i :: 1 <= i < |ls| ==> ls[i] == rest[i - 1];
  }

  /** `readline` applied to a line followed by more text returns exactly that line. */
  lemma {:induction false} ReadLineOfLine(l: string, rest: string)
    requires l != "" && IsLine(l)
    requires EndsWithNewline(l) || rest == ""
    ensures ReadLine(l + rest) == l
    decreases |l|
  {
    var t := l + rest;
    if l[0] == '\n' {
      assert |l| == 1;
    } else {
      assert t[1..] == l[1..] + rest;
      if |l| > 1 {
        assert IsLine(l[1..]);
        ReadLineOfLine(l[1..], rest);
      } else {
        assert t == l;
      }
      assert l == [l[0]] + l[1..];
    }
  }

  /** Reading back the concatenation of a well-formed line list yields the same list. */
  lemma {:induction false} ReadLinesOfConcat(lines: seq<string>)
    requires WellFormedLines(lines)
    ensures ReadLines(Concat(lines)) == lines
    decreases |lines|
  {
    if |lines| > 0 {
      var l, rest := lines[0], Concat(lines[1..]);
      WellFormedTail(lines);
      ReadLineOfLine(l, rest);
      ReadLinesStep(l, rest);
      ReadLinesOfConcat(lines[1..]);
      assert lines == [l] + lines[1..];
    }
  }

  /** The tail of a well-formed list is well formed, and its head ends its line unless it is the only one. */
  lemma WellFormedTail(lines: seq<string>)
    requires |lines| > 0 && WellFormedLines(lines)
    ensures WellFormedLines(lines[1..])
    ensures lines[0] != "" && IsLine(lines[0])
    ensures EndsWithNewline(lines[0]) || Concat(lines[1..]) == ""
  {
    assert forall i :: 0 <= i < |lines| - 1 ==> lines[1..][i] == lines[i + 1];
  }

  /** `readlines` takes the first line off and carries on after it. */
  lemma ReadLinesStep(l: string, rest: string)
    requires l != "" && ReadLine(l + rest) == l
    ensures ReadLines(l + rest) == [l] + ReadLines(rest)
  {
    assert (l + rest)[|l|..] == rest;
  }

  /** Two well-formed line lists make one when the first ends its last line. */
  lemma WellFormedAppend(xs: seq<string>, ys: seq<string>)
    requires WellFormedLines(xs) && WellFormedLines(ys)
    requires xs == [] || EndsWithNewline(xs[|xs| - 1])
    ensures WellFormedLines(xs + ys)
  {
    assert forall i :: 0 <= i < |xs| ==> (xs + ys)[i] == xs[i];
    assert forall i :: |xs| <= i < |xs + ys| ==> (xs + ys)[i] == ys[i - |xs|];
  }

  lemma {:induction false} ConcatLast(xs: seq<string>)
    requires |xs| > 0
    ensures Concat(xs) == Concat(xs[..|xs| - 1]) + xs[|xs| - 1]
  {
    ConcatAppend(xs[..|xs| - 1], [xs[|xs| - 1]]);
    assert xs[..|xs| - 1] + [xs[|xs| - 1]] == xs;
  }

  /** The lines of a text that ends with a newline all end with one. */
  lemma LastLineEnds(text: string)
    requires EndsWithNewline(text)
    ensures var ls := ReadLines(text); |ls| > 0 && EndsWithNewline(ls[|ls| - 1])
  {
    var ls := ReadLines(text);
    LastOfConcat(ls);
  }

  lemma LastOfConcat(ls: seq<string>)
    requires EndsWithNewline(Concat(ls))
    requires forall i :: 0 <= i < |ls| ==> ls[i] != ""
    ensures |ls| > 0 && EndsWithNewline(ls[|ls| - 1])
  {
    ConcatLast(ls);
    EndsWithNewlineConcat(Concat(ls[..|ls| - 1]), ls[|ls| - 1]);
  }

  /** Newlines in a concatenation are the newlines of its parts. */
  function NewlineTotal(parts: seq<string>): nat
  {
    if |parts| == 0 then 0 else Count(parts[0], '\n') + NewlineTotal(parts[1..])
  }

  lemma {:induction false} CountOfConcat(parts: seq<string>)
    ensures Count(Concat(parts), '\n') == NewlineTotal(parts)
    decreases |parts|
  {
    if |parts| > 0 {
      CountConcat(parts[0], Concat(parts[1..]), '\n');
      CountOfConcat(parts[1..]);
    }
  }

  lemma {:induction false} NotInConcat(parts: seq<string>, c: char)
    requires forall i :: 0 <= i < |parts| ==> c !in parts[i]
    ensures c !in Concat(parts)
    decreases |parts|
  {
    if |parts| > 0 {
      NotInConcat(parts[1..], c);
    }
  }

  // ---------------------------------------------------------------------
  // Decimal rendering of integers, as Python's `str(int)` / `'{}'.format(int)`.

  predicate IsDigit(c: char)
  {
    '0' <= c <= '9'
  }

  function DigitChar(d: nat): (c: char)
    requires d < 10
    ensures IsDigit(c) && c as int - '0' as int == d
  {
    (d + '0' as int) as char
  }

  function NatToString(n: nat): (s: string)
    ensures |s| > 0
    ensures forall i :: 0 <= i < |s| ==> IsDigit(s[i])
    ensures |s| > 1 ==> s[0] != '0'
    decreases n
  {
    if n < 10 then [DigitChar(n)] else NatToString(n / 10) + [DigitChar(n % 10)]
  }

  /** Python's `str(i)`: a minus sign for negative numbers, then the decimal digits. */
  function IntToString(i: int): string
  {
    if i < 0 then "-" + NatToString(-i) else NatToString(i)
  }

  function DigitsValue(s: string): nat
    requires forall i :: 0 <= i < |s| ==> IsDigit(s[i])
  {
    if |s| == 0 then 0
    else
      assert IsDigit(s[|s| - 1]);
      DigitsValue(s[..|s| - 1]) * 10 + (s[|s| - 1] as int - '0' as int)
  }

  /** Reads back a rendered integer: optional minus sign, then digits. */
  function ParseInt(s: string): Option<int>
  {
    if |s| > 0 && s[0] == '-' then
      if |s| > 1 && forall i :: 1 <= i < |s| ==> IsDigit(s[i]) then Some(0 - DigitsValue(s[1..])) else None
    else if |s| > 0 && forall i :: 0 <= i < |s| ==> IsDigit(s[i]) then Some(DigitsValue(s))
    else None
  }

  lemma {:induction false} NatToStringValue(n: nat)
    ensures DigitsValue(NatToString(n)) == n
    decreases n
  {
    if n >= 10 {
      var s := NatToString(n);
      assert s[..|s| - 1] == NatToString(n / 10);
      NatToStringValue(n / 10);
    }
  }

  /** The rendered integer parses back to itself, so distinct codes render distinctly. */
  lemma IntToStringRoundTrip(i: int)
    ensures ParseInt(IntToString(i)) == Some(i)
  {
    if i < 0 {
      NatToStringValue(-i);
      ParseNegative(NatToString(-i));
    } else {
      NatToStringValue(i);
      ParseDigits(NatToString(i));
    }
  }

  lemma ParseDigits(d: string)
    requires d != "" && forall i :: 0 <= i < |d| ==> IsDigit(d[i])
    ensures ParseInt(d) == Some(DigitsValue(d))
  {
    assert IsDigit(d[0]);
  }

  lemma ParseNegative(d: string)
    requires d != "" && forall i :: 0 <= i < |d| ==> IsDigit(d[i])
    ensures ParseInt("-" + d) == Some(0 - DigitsValue(d))
  {
    var s := "-" + d;
    assert s[1..] == d;
    assert forall i :: 1 <= i < |s| ==> s[i] == d[i - 1];
  }
}
