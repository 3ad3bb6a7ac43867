/**
 The line rewriter of the preprocessor: the two regular-expression
 substitutions applied to every source line,

   pass 1  `([^`]*)`   every closed backtick pair, left to right;
   pass 2  `(.*)$      the first backtick that the rest of the text can
                       follow to the end without crossing a newline
                       (`.` stops at '\n', `$` also matches just before a
                       final '\n').

 Both write the same call text around the captured command. The passes are
 defined on arbitrary text, exactly as the regular expressions behave; the
 lemmas then state what they do to a single line as `readlines` yields it.
 */
module Rewriter {
  import opened Strings

  const ExeOpen: string := "exe('"
  /** The closing text of the call, `'.format(**dict(locals(), **globals())))`, kept in three pieces. */
  const ExeClose: string := CloseFormat + CloseLocals + CloseGlobals
  const CloseFormat: string := "'.format("
  const CloseLocals: string := "**dict(locals(), "
  const CloseGlobals: string := "**globals())))"

  /** The fixed parts of the call hold neither backticks nor newlines, and the call does not end in a newline. */
  lemma FixedTextsClean()
    ensures Count(ExeOpen, '`') == 0 && Count(ExeOpen, '\n') == 0
    ensures Count(ExeClose, '`') == 0 && Count(ExeClose, '\n') == 0
    ensures ExeClose != "" && !EndsWithNewline(ExeClose)
  {
    OpenClean();
    CloseClean();
    CountZeroIff(ExeOpen, '`');
    CountZeroIff(ExeClose, '`');
    CountZeroIff(ExeOpen, '\n');
    CountZeroIff(ExeClose, '\n');
  }

  lemma OpenClean()
    ensures '`' !in ExeOpen && '\n' !in ExeOpen
  {
  }

  lemma CloseClean()
    ensures '`' !in ExeClose && '\n' !in ExeClose && ExeClose != ""
  {
    assert '`' !in CloseFormat && '\n' !in CloseFormat;
    assert '`' !in CloseLocals && '\n' !in CloseLocals;
    assert '`' !in CloseGlobals && '\n' !in CloseGlobals;
    NotInThree(CloseFormat, CloseLocals, CloseGlobals, '`');
    NotInThree(CloseFormat, CloseLocals, CloseGlobals, '\n');
  }

  lemma NotInThree(a: string, b: string, c: string, ch: char)
    requires ch !in a && ch !in b && ch !in c
    ensures ch !in a + b + c
  {
  }

  lemma CountThree(a: string, b: string, c: string, ch: char)
    ensures Count(a + b + c, ch) == Count(a, ch) + Count(b, ch) + Count(c, ch)
  {
    CountConcat(a, b, ch);
    CountConcat(a + b, c, ch);
  }

  /** The replacement text of both passes, with the captured command inserted verbatim (no quote escaping). */
  function ExeCall(body: string): (r: string)
    ensures Count(r, '`') == Count(body, '`')
    ensures Count(r, '\n') == Count(body, '\n')
    ensures r != "" && !EndsWithNewline(r)
  {
    FixedTextsClean();
    Wrapped(ExeOpen, body, ExeClose);
    ExeOpen + body + ExeClose
  }

  /** Wrapping a text in parts free of backticks and newlines keeps both counts; a closing part not ending in a newline decides the end. */
  lemma Wrapped(open: string, body: string, close: string)
    requires Count(open, '`') == 0 && Count(open, '\n') == 0
    requires Count(close, '`') == 0 && Count(close, '\n') == 0
    requires close != "" && !EndsWithNewline(close)
    ensures Count(open + body + close, '`') == Count(body, '`')
    ensures Count(open + body + close, '\n') == Count(body, '\n')
    ensures open + body + close != "" && !EndsWithNewline(open + body + close)
  {
    CountThree(open, body, close, '`');
    CountThree(open, body, close, '\n');
    EndsWithNewlineConcat(open + body, close);
  }

  /** Recovers the command from an emitted call, if the text has the shape of one. */
  function CallBody(call: string): Option<string>
  {
    if |call| >= |ExeOpen| + |ExeClose| && call[..|ExeOpen|] == ExeOpen && call[|call| - |ExeClose|..] == ExeClose
    then Some(call[|ExeOpen|..|call| - |ExeClose|])
    else None
  }

  /** The captured command is carried into the call unchanged: it can be read back exactly. */
  lemma ExeCallVerbatim(body: string)
    ensures CallBody(ExeCall(body)) == Some(body)
  {
    var r := ExeCall(body);
    assert r[..|ExeOpen|] == ExeOpen;
    assert r[|r| - |ExeClose|..] == ExeClose;
    assert r[|ExeOpen|..|r| - |ExeClose|] == body;
  }

  lemma ExeCallInjective(a: string, b: string)
    ensures ExeCall(a) == ExeCall(b) <==> a == b
  {
    ExeCallVerbatim(a);
    ExeCallVerbatim(b);
  }

  // ---------------------------------------------------------------------
  // Pass 1: `([^`]*)`

  /**
   `re.sub("`([^`]*)`", call, s)`: scanning left to right, a backtick that
   has a later backtick opens a pair, the text up to that next backtick is
   captured (it may contain newlines) and scanning resumes after it; a
   backtick with no partner is left in place.
   */
  function SubBoth(s: string): string
    decreases |s|
  {
    if s == "" then ""
    else if s[0] != '`' then [s[0]] + SubBoth(s[1..])
    else
      var j := Find(s[1..], '`');
      if j == -1 then s
      else ExeCall(s[1..j + 1]) + SubBoth(s[j + 2..])
  }

  /** `Find` is pinned down by its first occurrence. */
  lemma FindIs(s: string, c: char, k: nat)
    requires k < |s| && s[k] == c && c !in s[..k]
    ensures Find(s, c) == k
  {
    assert c in s by { assert s[k] == c; }
    assert forall i :: 0 <= i < k ==> s[..k][i] == s[i];
    assert forall i :: 0 <= i < Find(s, c) ==> s[..Find(s, c)][i] == s[i];
  }

  lemma SubBothNoBacktick(s: string)
    requires '`' !in s
    ensures SubBoth(s) == s
    decreases |s|
  {
    if s != "" {
      SubBothNoBacktick(s[1..]);
      assert s == [s[0]] + s[1..];
    }
  }

  lemma SubBothCons(t: string)
    requires t != "" && t[0] != '`'
    ensures SubBoth(t) == [t[0]] + SubBoth(t[1..])
  {
  }

  /** A leading backtick-free text is copied through pass 1 unchanged. */
  lemma {:induction false} SubBothAfter(a: string, t: string)
    requires '`' !in a
    ensures SubBoth(a + t) == a + SubBoth(t)
    decreases |a|
  {
    if a != "" {
      var u := a + t;
      assert u[0] == a[0] && u[1..] == a[1..] + t;
      SubBothCons(u);
      SubBothAfter(a[1..], t);
      assert a == [a[0]] + a[1..];
      AppendAssoc([a[0]], a[1..], SubBoth(t));
    } else {
      assert a + t == t;
    }
  }

  /** Pass 1 replaces a closed pair by the call and continues after the closing backtick. */
  lemma SubBothPair(a: string, b: string, c: string)
    requires '`' !in a && '`' !in b
    ensures SubBoth(a + "`" + b + "`" + c) == a + ExeCall(b) + SubBoth(c)
  {
    var t := "`" + b + "`" + c;
    assert a + "`" + b + "`" + c == a + t;
    SubBothAfter(a, t);
    PairSlices(b, c);
    SubBothAt(t, |b|);
    AppendAssoc(a, ExeCall(b), SubBoth(c));
  }

  /** Where the pieces of a backtick pair sit. */
  lemma PairSlices(b: string, c: string)
    requires '`' !in b
    ensures var t := "`" + b + "`" + c;
      && t != "" && t[0] == '`' && Find(t[1..], '`') == |b|
      && t[1..|b| + 1] == b && t[|b| + 2..] == c
  {
    var t := "`" + b + "`" + c;
    var u := b + "`" + c;
    assert t[1..] == u;
    assert u[..|b|] == b && u[|b|] == '`';
    FindIs(u, '`', |b|);
    assert t[1..|b| + 1] == b;
    assert t[|b| + 2..] == c;
  }

  /** A backtick whose partner is the first one after it opens a pair. */
  lemma SubBothAt(t: string, j: nat)
    requires t != "" && t[0] == '`' && Find(t[1..], '`') == j
    ensures SubBoth(t) == ExeCall(t[1..j + 1]) + SubBoth(t[j + 2..])
  {
  }

  /** A single backtick with nothing to close it survives pass 1 together with everything after it. */
  lemma SubBothLone(a: string, b: string)
    requires '`' !in a && '`' !in b
    ensures SubBoth(a + "`" + b) == a + "`" + b
  {
    var t := "`" + b;
    assert a + "`" + b == a + t;
    SubBothAfter(a, t);
    assert t[1..] == b;
  }

  /**
   What pass 1 keeps of a text: an odd backtick count leaves exactly one
   backtick and an even one leaves none; newlines are neither added nor
   removed, the result ends with a newline exactly when the input does, and
   only empty text maps to empty text.
   */
  predicate KeepsShape(s: string, r: string)
  {
    && Count(r, '`') == Count(s, '`') % 2
    && Count(r, '\n') == Count(s, '\n')
    && (EndsWithNewline(r) <==> EndsWithNewline(s))
    && (r == "" <==> s == "")
  }

  lemma KeepsShapeCons(c: char, s: string, r: string)
    requires c != '`' && KeepsShape(s, r)
    ensures KeepsShape([c] + s, [c] + r)
  {
    CountConcat([c], s, '`');
    CountConcat([c], s, '\n');
    CountConcat([c], r, '`');
    CountConcat([c], r, '\n');
    EndsWithNewlineConcat([c], s);
    EndsWithNewlineConcat([c], r);
  }

  lemma KeepsShapePair(b: string, s: string, r: string)
    requires '`' !in b && KeepsShape(s, r)
    ensures KeepsShape("`" + b + "`" + s, ExeCall(b) + r)
  {
    var p := "`" + b + "`";
    var e := ExeCall(b);
    CountZeroIff(b, '`');
    CountThree("`", b, "`", '`');
    CountThree("`", b, "`", '\n');
    assert p[|p| - 1] == '`';
    KeepsShapeGlue(p, s, e, r);
  }

  /** Two pieces that differ by exactly two backticks and agree on newlines, ending alike, keep the shape of what follows. */
  lemma KeepsShapeGlue(p: string, s: string, e: string, r: string)
    requires Count(p, '`') == 2 && Count(e, '`') == 0 && Count(p, '\n') == Count(e, '\n')
    requires p != "" && e != "" && !EndsWithNewline(p) && !EndsWithNewline(e)
    requires KeepsShape(s, r)
    ensures KeepsShape(p + s, e + r)
  {
    GlueTicks(p, s, e, r);
    GlueNewlines(p, s, e, r);
    EndsWithNewlineConcat(p, s);
    EndsWithNewlineConcat(e, r);
  }

  lemma GlueTicks(p: string, s: string, e: string, r: string)
    requires Count(p, '`') == 2 && Count(e, '`') == 0 && Count(r, '`') == Count(s, '`') % 2
    ensures Count(e + r, '`') == Count(p + s, '`') % 2
  {
    CountConcat(p, s, '`');
    CountConcat(e, r, '`');
    ParityShift(Count(p + s, '`'), Count(e + r, '`'), Count(s, '`'));
  }

  /** Two more in the count leave its parity alone. */
  lemma ParityShift(x: nat, y: nat, n: nat)
    requires x == 2 + n && y == n % 2
    ensures y == x % 2
  {
  }

  lemma GlueNewlines(p: string, s: string, e: string, r: string)
    requires Count(p, '\n') == Count(e, '\n') && Count(r, '\n') == Count(s, '\n')
    ensures Count(e + r, '\n') == Count(p + s, '\n')
  {
    CountConcat(p, s, '\n');
    CountConcat(e, r, '\n');
  }

  lemma KeepsShapeLone(s: string)
    requires s != "" && s[0] == '`' && '`' !in s[1..]
    ensures KeepsShape(s, s)
  {
    assert s == [s[0]] + s[1..];
    CountConcat([s[0]], s[1..], '`');
    CountZeroIff(s[1..], '`');
  }

  lemma {:induction false} SubBothShape(s: string)
    ensures KeepsShape(s, SubBoth(s))
    decreases |s|
  {
    if s == "" {
    } else if s[0] != '`' {
      SubBothCons(s);
      SubBothShape(s[1..]);
      KeepsShapeCons(s[0], s[1..], SubBoth(s[1..]));
      assert s == [s[0]] + s[1..];
    } else {
      var j := Find(s[1..], '`');
      if j == -1 {
        KeepsShapeLone(s);
      } else {
        SubBothAt(s, j);
        PairSplit(s, j);
        var rest := s[j + 2..];
        SubBothShape(rest);
        KeepsShapePair(s[1..j + 1], rest, SubBoth(rest));
      }
    }
  }

  /** A backtick and its partner cut the text into the pair and what follows. */
  lemma PairSplit(s: string, j: nat)
    requires s != "" && s[0] == '`' && Find(s[1..], '`') == j
    ensures '`' !in s[1..j + 1]
    ensures s == "`" + s[1..j + 1] + "`" + s[j + 2..]
  {
    assert s[1..j + 1] == s[1..][..j];
    assert s[j + 1] == '`';
  }

  // ---------------------------------------------------------------------
  // Pass 2: `(.*)$

  /**
   `re.sub("`(.*)$", call, s)`: the regular expression can only succeed at a
   backtick whose remaining text has no newline except possibly a final one;
   the first such backtick and everything after it, up to but excluding that
   final newline, is replaced, and the newline is kept. Once one match is
   made nothing is left to match, so there is at most one replacement.
   */
  function SubStart(s: string): string
    decreases |s|
  {
    if s == "" then ""
    else if s[0] == '`' && IsLine(s[1..]) then ExeCall(ChopNewline(s[1..])) + FinalNewline(s[1..])
    else [s[0]] + SubStart(s[1..])
  }

  lemma SubStartNoBacktick(s: string)
    requires '`' !in s
    ensures SubStart(s) == s
    decreases |s|
  {
    if s != "" {
      SubStartNoBacktick(s[1..]);
      assert s == [s[0]] + s[1..];
    }
  }

  /** A leading backtick-free text is copied through pass 2 unchanged. */
  lemma {:induction false} SubStartAfter(a: string, t: string)
    requires '`' !in a
    ensures SubStart(a + t) == a + SubStart(t)
    decreases |a|
  {
    if a != "" {
      var u := a + t;
      assert u[0] == a[0] && u[1..] == a[1..] + t;
      SubStartCons(u);
      SubStartAfter(a[1..], t);
      assert a == [a[0]] + a[1..];
      AppendAssoc([a[0]], a[1..], SubStart(t));
    } else {
      assert a + t == t;
    }
  }

  /** On one line, pass 2 replaces the first backtick and the rest of the line, keeping the newline. */
  lemma SubStartLine(a: string, t: string)
    requires '`' !in a && IsLine(t)
    ensures SubStart(a + "`" + t) == a + ExeCall(ChopNewline(t)) + FinalNewline(t)
  {
    assert a + "`" + t == a + ("`" + t);
    SubStartAfter(a, "`" + t);
    assert ("`" + t)[1..] == t;
  }

  // ---------------------------------------------------------------------
  // Both passes, as `preprocess_file` applies them to each line.

  function Rewrite(line: string): string
  {
    SubStart(SubBoth(line))
  }

  /** A line with no backtick is emitted unchanged. */
  lemma RewriteUnchanged(s: string)
    requires '`' !in s
    ensures Rewrite(s) == s
  {
    SubBothNoBacktick(s);
    SubStartNoBacktick(s);
  }

  /** A closed pair becomes the call; the text before it, flag letters included, stays outside the call. */
  lemma RewritePair(a: string, b: string, c: string)
    requires '`' !in a && '`' !in b
    ensures Rewrite(a + "`" + b + "`" + c) == a + ExeCall(b) + Rewrite(c)
  {
    SubBothPair(a, b, c);
    CountZeroIff(b, '`');
    CountZeroIff(ExeCall(b), '`');
    assert a + ExeCall(b) + SubBoth(c) == (a + ExeCall(b)) + SubBoth(c);
    SubStartAfter(a + ExeCall(b), SubBoth(c));
  }

  /** An unclosed backtick on a line takes the rest of the line, up to but excluding its newline, into the call. */
  lemma RewriteStart(a: string, t: string)
    requires '`' !in a && '`' !in t && IsLine(t)
    ensures Rewrite(a + "`" + t) == a + ExeCall(ChopNewline(t)) + FinalNewline(t)
  {
    SubBothLone(a, t);
    SubStartLine(a, t);
  }

  lemma SplitAtFirst(u: string) returns (a: string, t: string)
    requires '`' in u
    ensures u == a + "`" + t && '`' !in a
  {
    var i := Find(u, '`');
    a, t := u[..i], u[i + 1..];
    assert u == u[..i] + [u[i]] + u[i + 1..];
  }

  /** The text after the first backtick of a line is itself a line. */
  lemma LineAfterBacktick(a: string, t: string)
    requires IsLine(a + "`" + t)
    ensures IsLine(t)
  {
    var u := a + "`" + t;
    assert forall i :: 0 <= i < |t| ==> t[i] == u[|a| + 1 + i];
  }

  /**
   Replacing a lone backtick and the rest of the line by the call keeps the
   newlines where they were and leaves no backtick behind.
   */
  lemma StartShape(a: string, t: string)
    requires '`' !in a && '`' !in t && IsLine(t)
    ensures var r := a + ExeCall(ChopNewline(t)) + FinalNewline(t);
      && '`' !in r
      && r != ""
      && Count(r, '\n') == Count(a + "`" + t, '\n')
      && (EndsWithNewline(r) <==> EndsWithNewline(a + "`" + t))
  {
    var b := ChopNewline(t);
    var f := FinalNewline(t);
    ChopNewlineSplit(t);
    assert '`' !in b && '`' !in f;
    StartTicks(a, b, f);
    StartNewlines(a, b, f);
    StartEnds(a, b, f);
    assert a + "`" + t == a + "`" + b + f;
  }

  lemma StartTicks(a: string, b: string, f: string)
    requires '`' !in a && '`' !in b && '`' !in f
    ensures '`' !in a + ExeCall(b) + f && a + ExeCall(b) + f != ""
  {
    CountZeroIff(b, '`');
    CountZeroIff(ExeCall(b), '`');
  }

  lemma StartNewlines(a: string, b: string, f: string)
    ensures Count(a + ExeCall(b) + f, '\n') == Count(a + "`" + b + f, '\n')
  {
    CountThree(a, ExeCall(b), f, '\n');
    CountConcat(a + "`" + b, f, '\n');
    CountThree(a, "`", b, '\n');
    assert Count("`", '\n') == 0;
  }

  lemma StartEnds(a: string, b: string, f: string)
    requires '\n' !in b && (f == "" || f == "\n")
    ensures EndsWithNewline(a + ExeCall(b) + f) <==> EndsWithNewline(a + "`" + b + f)
  {
    if f == "" {
      assert a + ExeCall(b) + f == a + ExeCall(b);
      assert a + "`" + b + f == a + "`" + b;
      EndsWithNewlineConcat(a, ExeCall(b));
      var u := a + "`" + b;
      assert u[|u| - 1] == (if b == "" then '`' else b[|b| - 1]);
    } else {
      EndsWithNewlineConcat(a + ExeCall(b), f);
      EndsWithNewlineConcat(a + "`" + b, f);
    }
  }

  /** Pass 2 on a line that kept exactly one backtick. */
  lemma SubStartOneBacktick(u: string)
    requires IsLine(u) && Count(u, '`') == 1
    ensures '`' !in SubStart(u) && SubStart(u) != ""
    ensures Count(SubStart(u), '\n') == Count(u, '\n')
    ensures EndsWithNewline(SubStart(u)) <==> EndsWithNewline(u)
  {
    CountZeroIff(u, '`');
    var a, t := SplitAtFirst(u);
    CountThree(a, "`", t, '`');
    CountZeroIff(a, '`');
    CountZeroIff(t, '`');
    LineAfterBacktick(a, t);
    SubStartLine(a, t);
    StartShape(a, t);
  }

  /**
   After both passes a line holds no backtick, is still one line, ends with a
   newline exactly when the source line does, and keeps its newline count.
   */
  lemma RewriteLineShape(s: string)
    requires IsLine(s)
    ensures '`' !in Rewrite(s)
    ensures IsLine(Rewrite(s))
    ensures EndsWithNewline(Rewrite(s)) <==> EndsWithNewline(s)
    ensures Count(Rewrite(s), '\n') == Count(s, '\n')
    ensures Rewrite(s) == "" <==> s == ""
  {
    var u := SubBoth(s);
    SubBothShape(s);
    LineByCount(s);
    LineByCount(u);
    if '`' !in u {
      SubStartNoBacktick(u);
    } else {
      CountZeroIff(u, '`');
      SubStartOneBacktick(u);
    }
    LineByCount(Rewrite(s));
  }

  lemma PairExample(a: string, b: string, c: string)
    requires a == "x = p" && b == "echo hello" && c == "\n"
    ensures Rewrite(a + "`" + b + "`" + c) == a + ExeOpen + b + ExeClose + c
  {
    RewritePair(a, b, c);
    RewriteUnchanged(c);
  }

  /** The canonical example: the flag letter stays in front of the call and the newline after it. */
  lemma RewriteExample(line: string)
    requires line == "x = p`echo hello`\n"
    ensures Rewrite(line) == "x = p" + ExeOpen + "echo hello" + ExeClose + "\n"
  {
    assert line == "x = p" + "`" + "echo hello" + "`" + "\n";
    PairExample("x = p", "echo hello", "\n");
  }

  // ---------------------------------------------------------------------
  // The passes as single left-to-right scans.

  /**
   Pass 1 as the regular-expression engine runs it: at each position try to
   match a backtick pair; on success emit the call and resume after the
   closing backtick, otherwise copy one character and try again.
   */
  method ScanBoth(s: string) returns (out: string)
    ensures out == SubBoth(s)
  {
    out := "";
    var rest := s;
    while rest != ""
      invariant out + SubBoth(rest) == SubBoth(s)
      decreases |rest|
    {
      var j := if rest[0] == '`' then Find(rest[1..], '`') else -1;
      if j >= 0 {
        SubBothAt(rest, j);
        AppendAssoc(out, ExeCall(rest[1..j + 1]), SubBoth(rest[j + 2..]));
        out := out + ExeCall(rest[1..j + 1]);
        rest := rest[j + 2..];
      } else {
        SubBothCopy(rest);
        AppendAssoc(out, [rest[0]], SubBoth(rest[1..]));
        out := out + [rest[0]];
        rest := rest[1..];
      }
    }
  }

  /** A position where pass 1 cannot match is copied. */
  lemma SubBothCopy(t: string)
    requires t != "" && !(t[0] == '`' && Find(t[1..], '`') >= 0)
    ensures SubBoth(t) == [t[0]] + SubBoth(t[1..])
  {
    if t[0] == '`' {
      SubBothNoBacktick(t[1..]);
      assert t == [t[0]] + t[1..];
    }
  }

  /** Pass 2 as one scan for the first backtick from which the rest is a single line. */
  method ScanStart(s: string) returns (out: string)
    ensures out == SubStart(s)
  {
    var i := 0;
    assert s[..0] == "" && s[0..] == s;
    while i < |s| && !(s[i] == '`' && IsLine(s[i + 1..]))
      invariant 0 <= i <= |s|
      invariant SubStart(s) == s[..i] + SubStart(s[i..])
    {
      SubStartSkip(s, i);
      i := i + 1;
    }
    if i == |s| {
      SubStartEnd(s);
      out := s;
    } else {
      SubStartHit(s, i);
      out := s[..i] + ExeCall(ChopNewline(s[i + 1..])) + FinalNewline(s[i + 1..]);
    }
  }

  /** A position where pass 2 cannot match is copied, and the scan moves on. */
  lemma SubStartSkip(s: string, i: nat)
    requires i < |s| && !(s[i] == '`' && IsLine(s[i + 1..]))
    ensures s[..i] + SubStart(s[i..]) == s[..i + 1] + SubStart(s[i + 1..])
  {
    var t, rest := s[i..], s[i + 1..];
    assert t[0] == s[i] && t[1..] == rest;
    SubStartCons(t);
    assert s[..i + 1] == s[..i] + [s[i]];
    AppendAssoc(s[..i], [s[i]], SubStart(rest));
  }

  lemma SubStartCons(t: string)
    requires t != "" && !(t[0] == '`' && IsLine(t[1..]))
    ensures SubStart(t) == [t[0]] + SubStart(t[1..])
  {
  }

  lemma SubStartEnd(s: string)
    ensures s[..|s|] + SubStart(s[|s|..]) == s
  {
    assert s[|s|..] == "" && s[..|s|] == s;
  }

  /** At the first position where pass 2 matches, the call replaces the rest. */
  lemma SubStartHit(s: string, i: nat)
    requires i < |s| && s[i] == '`' && IsLine(s[i + 1..])
    ensures SubStart(s[i..]) == ExeCall(ChopNewline(s[i + 1..])) + FinalNewline(s[i + 1..])
  {
    var t := s[i..];
    assert t[0] == s[i] && t[1..] == s[i + 1..];
  }

  /** One source line through both scans. */
  method RewriteLine(line: string) returns (out: string)
    ensures out == Rewrite(line)
    ensures IsLine(line) ==> '`' !in out && IsLine(out)
    ensures '`' !in line ==> out == line
  {
    var mid := ScanBoth(line);
    out := ScanStart(mid);
    if IsLine(line) {
      RewriteLineShape(line);
    }
    if '`' !in line {
      RewriteUnchanged(line);
    }
  }
}
