/** The string handling both parsers rely on, with JavaScript's semantics for `trim`,
    `split("\n")` and `split(/\s+/)`. */
module Text {

  /** JavaScript's WhiteSpace and LineTerminator characters: exactly what `trim` strips
      and what the regular-expression class `\s` matches. */
  predicate IsWhitespace(c: char)
  {
    || c == '\t' || c == '\n' || c == '\U{B}' || c == '\U{C}' || c == '\r' || c == ' '
    || c == '\U{A0}' || c == '\U{1680}' || ('\U{2000}' <= c <= '\U{200A}')
    || c == '\U{2028}' || c == '\U{2029}' || c == '\U{202F}' || c == '\U{205F}'
    || c == '\U{3000}' || c == '\U{FEFF}'
  }

  ghost predicate AllWhitespace(s: string)
  {
    forall k :: 0 <= k < |s| ==> IsWhitespace(s[k])
  }

  ghost predicate NoWhitespace(s: string)
  {
    forall k :: 0 <= k < |s| ==> !IsWhitespace(s[k])
  }

  /** A non-empty string that neither starts nor ends with white space. */
  ghost predicate IsTrimmedLine(s: string)
  {
    s != [] && !IsWhitespace(s[0]) && !IsWhitespace(s[|s| - 1])
  }

  // ---------------------------------------------------------------- trim

  function TrimStart(s: string): string
  {
    if s != [] && IsWhitespace(s[0]) then TrimStart(s[1..]) else s
  }

  function TrimEnd(s: string): string
  {
    if s != [] && IsWhitespace(s[|s| - 1]) then TrimEnd(s[..|s| - 1]) else s
  }

  /** `String.prototype.trim`: the string without its leading and trailing white space. */
  function Trim(s: string): string
  {
    TrimEnd(TrimStart(s))
  }

  lemma AppendAssociates(a: string, b: string, c: string)
    ensures a + b + c == a + (b + c)
  {
  }

  /** `TrimStart` removes a leading run of white space and nothing else. */
  lemma {:induction false} TrimStartSplits(s: string) returns (lead: string)
    ensures AllWhitespace(lead) && s == lead + TrimStart(s)
    ensures TrimStart(s) == [] || !IsWhitespace(TrimStart(s)[0])
    decreases |s|
  {
    if s != [] && IsWhitespace(s[0]) {
      var rest := s[1..];
      var l := TrimStartSplits(rest);
      lead := [s[0]] + l;
      assert s == [s[0]] + rest;
      AppendAssociates([s[0]], l, TrimStart(rest));
    } else {
      lead := [];
      assert s == [] + s;
    }
  }

  /** `TrimEnd` removes a trailing run of white space and nothing else. */
  lemma {:induction false} TrimEndSplits(t: string) returns (trail: string)
    ensures AllWhitespace(trail) && t == TrimEnd(t) + trail
    ensures TrimEnd(t) == [] || !IsWhitespace(TrimEnd(t)[|TrimEnd(t)| - 1])
    decreases |t|
  {
    if t != [] && IsWhitespace(t[|t| - 1]) {
      var init := t[..|t| - 1];
      var tr := TrimEndSplits(init);
      trail := tr + [t[|t| - 1]];
      assert t == init + [t[|t| - 1]];
      AppendAssociates(TrimEnd(init), tr, [t[|t| - 1]]);
    } else {
      trail := [];
      assert t == t + [];
    }
  }

  lemma SuffixOfBlank(s: string, lead: string, t: string)
    requires AllWhitespace(s) && s == lead + t
    ensures AllWhitespace(t)
  {
    assert forall k :: 0 <= k < |t| ==> t[k] == s[|lead| + k];
  }

  /** What `trim` returns is empty exactly when the string is all white space, and
      otherwise neither starts nor ends with white space. */
  lemma TrimResult(s: string)
    ensures Trim(s) == [] || IsTrimmedLine(Trim(s))
    ensures Trim(s) == [] <==> AllWhitespace(s)
  {
    var lead := TrimStartSplits(s);
    var t := TrimStart(s);
    var trail := TrimEndSplits(t);
    var r := TrimEnd(t);
    assert r != [] ==> r[0] == t[0];
    if r == [] {
      assert t == trail;
    }
    if AllWhitespace(s) {
      SuffixOfBlank(s, lead, t);
    }
  }

  lemma TrimStartOfBlank(s: string)
    requires AllWhitespace(s)
    ensures TrimStart(s) == []
  {
  }

  lemma {:induction false} TrimStartPadLeft(w: string, s: string)
    requires AllWhitespace(w)
    ensures TrimStart(w + s) == TrimStart(s)
    decreases |w|
  {
    if w != [] {
      assert (w + s)[1..] == w[1..] + s;
      TrimStartPadLeft(w[1..], s);
    } else {
      assert w + s == s;
    }
  }

  lemma {:induction false} TrimEndPadRight(s: string, w: string)
    requires AllWhitespace(w)
    ensures TrimEnd(s + w) == TrimEnd(s)
    decreases |w|
  {
    if w != [] {
      var w' := w[..|w| - 1];
      assert (s + w)[..|s + w| - 1] == s + w';
      TrimEndPadRight(s, w');
    } else {
      assert s + w == s;
    }
  }

  lemma {:induction false} TrimStartAppend(s: string, w: string)
    requires !AllWhitespace(s)
    ensures TrimStart(s + w) == TrimStart(s) + w
    decreases |s|
  {
    if IsWhitespace(s[0]) {
      assert (s + w)[1..] == s[1..] + w;
      TrimStartAppend(s[1..], w);
    }
  }

  /** Leading white space does not change what `trim` returns. */
  lemma TrimPadLeft(w: string, s: string)
    requires AllWhitespace(w)
    ensures Trim(w + s) == Trim(s)
  {
    TrimStartPadLeft(w, s);
  }

  /** Trailing white space does not change what `trim` returns. */
  lemma TrimPadRight(s: string, w: string)
    requires AllWhitespace(w)
    ensures Trim(s + w) == Trim(s)
  {
    if AllWhitespace(s) {
      TrimStartOfBlank(s);
      TrimStartOfBlank(s + w);
    } else {
      TrimStartAppend(s, w);
      TrimEndPadRight(TrimStart(s), w);
    }
  }

  /** `s` is its trimmed part with white space on either side. */
  lemma TrimSplits(s: string) returns (lead: string, trail: string)
    ensures AllWhitespace(lead) && AllWhitespace(trail)
    ensures s == lead + Trim(s) + trail
  {
    var t := TrimStart(s);
    lead := TrimStartSplits(s);
    trail := TrimEndSplits(t);
    AppendAssociates(lead, TrimEnd(t), trail);
  }

  // ---------------------------------------------------------------- split("\n")

  /** Position of the first `c` in `s`. */
  function IndexOf(s: string, c: char): (i: nat)
    requires c in s
    ensures i < |s| && s[i] == c && c !in s[..i]
  {
    if s[0] == c then 0 else 1 + IndexOf(s[1..], c)
  }

  lemma IndexOfUnique(s: string, c: char, i: nat)
    requires i < |s| && s[i] == c && c !in s[..i]
    ensures IndexOf(s, c) == i
  {
  }

  /** The inverse of `SplitLines`: the lines joined with a newline between each two. */
  function JoinLines(lines: seq<string>): string
    requires |lines| >= 1
  {
    if |lines| == 1 then lines[0] else lines[0] + "\n" + JoinLines(lines[1..])
  }

  /** `s.split("\n")`: the pieces between the newline characters, in order. */
  function SplitLines(s: string): seq<string>
    decreases |s|
  {
    if '\n' !in s then [s]
    else
      var i := IndexOf(s, '\n');
      [s[..i]] + SplitLines(s[i + 1..])
  }

  /** The line break found first decides the first line: `s` is `head`, a newline, then
      `tail`. */
  lemma SplitLinesAt(s: string, i: nat, head: string, tail: string)
    requires i < |s| && s[i] == '\n' && '\n' !in s[..i]
    requires s[..i] == head && s[i + 1..] == tail
    ensures SplitLines(s) == [head] + SplitLines(tail)
  {
    IndexOfUnique(s, '\n', i);
  }

  lemma SplitLinesNoBreak(s: string)
    requires '\n' !in s
    ensures SplitLines(s) == [s]
  {
  }

  lemma JoinLinesCons(line: string, rest: seq<string>)
    requires |rest| >= 1
    ensures JoinLines([line] + rest) == line + "\n" + JoinLines(rest)
  {
    assert ([line] + rest)[1..] == rest;
  }

  /** `SplitLines` cuts at every newline and nowhere else: its lines hold no newline, and
      joining them with newlines gives the text back. */
  lemma {:induction false} SplitLinesJoin(s: string)
    ensures |SplitLines(s)| >= 1
    ensures forall k :: 0 <= k < |SplitLines(s)| ==> '\n' !in SplitLines(s)[k]
    ensures JoinLines(SplitLines(s)) == s
    decreases |s|
  {
    if '\n' in s {
      var i := IndexOf(s, '\n');
      SplitLinesJoin(s[i + 1..]);
      JoinLinesCons(s[..i], SplitLines(s[i + 1..]));
      assert s == s[..i] + "\n" + s[i + 1..];
    }
  }

  /** Splitting joined lines gives the lines back. */
  lemma {:induction false} SplitJoinLines(lines: seq<string>)
    requires |lines| >= 1
    requires forall k :: 0 <= k < |lines| ==> '\n' !in lines[k]
    ensures SplitLines(JoinLines(lines)) == lines
    decreases |lines|
  {
    if |lines| > 1 {
      var tail := JoinLines(lines[1..]);
      var s := lines[0] + "\n" + tail;
      assert s[..|lines[0]|] == lines[0];
      assert s[|lines[0]| + 1..] == tail;
      SplitLinesAt(s, |lines[0]|, lines[0], tail);
      SplitJoinLines(lines[1..]);
      assert lines == [lines[0]] + lines[1..];
    }
  }

  /** The first character of joined lines is that of the first line, the last that of the last line. */
  lemma {:induction false} JoinLinesEnds(lines: seq<string>)
    requires |lines| >= 1 && forall k :: 0 <= k < |lines| ==> lines[k] != []
    ensures |JoinLines(lines)| > 0
    ensures JoinLines(lines)[0] == lines[0][0]
    ensures JoinLines(lines)[|JoinLines(lines)| - 1] == lines[|lines| - 1][|lines[|lines| - 1]| - 1]
    decreases |lines|
  {
    if |lines| > 1 {
      JoinLinesEnds(lines[1..]);
    }
  }

  // ---------------------------------------------------------------- non-blank lines

  /** Each line trimmed, the empty ones dropped, the rest kept in order. */
  function NonBlank(lines: seq<string>): seq<string>
  {
    if lines == [] then []
    else
      var t := Trim(lines[0]);
      (if t == [] then [] else [t]) + NonBlank(lines[1..])
  }

  lemma NonBlankCons(line: string, rest: seq<string>)
    ensures NonBlank([line] + rest) == (if Trim(line) == [] then [] else [Trim(line)]) + NonBlank(rest)
  {
    assert ([line] + rest)[1..] == rest;
  }

  lemma NonBlankSingle(line: string)
    ensures NonBlank([line]) == (if Trim(line) == [] then [] else [Trim(line)])
  {
    NonBlankCons(line, []);
    assert [line] + [] == [line];
  }

  /** Every row `NonBlank` keeps is a trimmed, non-empty line, and there are no more rows
      than lines. */
  lemma {:induction false} NonBlankRows(lines: seq<string>)
    ensures |NonBlank(lines)| <= |lines|
    ensures forall k :: 0 <= k < |NonBlank(lines)| ==> IsTrimmedLine(NonBlank(lines)[k])
  {
    if lines != [] {
      TrimResult(lines[0]);
      NonBlankRows(lines[1..]);
    }
  }

  /** `NonBlank` keeps one row per non-blank line and preserves order: it maps
      concatenation to concatenation. */
  lemma {:induction false} NonBlankAppend(a: seq<string>, b: seq<string>)
    ensures NonBlank(a + b) == NonBlank(a) + NonBlank(b)
    decreases |a|
  {
    if a == [] {
      assert a + b == b;
    } else {
      assert (a + b)[1..] == a[1..] + b;
      NonBlankAppend(a[1..], b);
    }
  }

  lemma BlankTrim(s: string)
    requires AllWhitespace(s)
    ensures Trim(s) == []
  {
    TrimResult(s);
  }

  lemma {:induction false} NonBlankOfBlank(s: string)
    requires AllWhitespace(s)
    ensures NonBlank(SplitLines(s)) == []
    decreases |s|
  {
    if '\n' in s {
      var i := IndexOf(s, '\n');
      var head, tail := s[..i], s[i + 1..];
      assert AllWhitespace(head) && AllWhitespace(tail);
      SplitLinesAt(s, i, head, tail);
      BlankTrim(head);
      NonBlankCons(head, SplitLines(tail));
      NonBlankOfBlank(tail);
    } else {
      SplitLinesNoBreak(s);
      BlankTrim(s);
      NonBlankSingle(s);
    }
  }

  lemma {:induction false} NonBlankPadLeft(w: string, m: string)
    requires AllWhitespace(w)
    ensures NonBlank(SplitLines(w + m)) == NonBlank(SplitLines(m))
    decreases |w|
  {
    if '\n' in w {
      var i := IndexOf(w, '\n');
      var head, rest := w[..i], w[i + 1..];
      assert AllWhitespace(head) && AllWhitespace(rest);
      PadLeftAtBreakInPad(w, m, i);
      BlankTrim(head);
      NonBlankCons(head, SplitLines(rest + m));
      NonBlankPadLeft(rest, m);
    } else if '\n' in m {
      var i := IndexOf(m, '\n');
      var head, tail := m[..i], m[i + 1..];
      PadLeftAtBreakInText(w, m, i);
      TrimPadLeft(w, head);
      NonBlankCons(w + head, SplitLines(tail));
      NonBlankCons(head, SplitLines(tail));
    } else {
      assert '\n' !in w + m;
      SplitLinesNoBreak(w + m);
      SplitLinesNoBreak(m);
      TrimPadLeft(w, m);
      NonBlankSingle(w + m);
      NonBlankSingle(m);
    }
  }

  lemma PadLeftAtBreakInPad(w: string, m: string, i: nat)
    requires i < |w| && w[i] == '\n' && '\n' !in w[..i]
    ensures SplitLines(w + m) == [w[..i]] + SplitLines(w[i + 1..] + m)
  {
    var s := w + m;
    assert s[..i] == w[..i];
    assert s[i + 1..] == w[i + 1..] + m;
    SplitLinesAt(s, i, w[..i], w[i + 1..] + m);
  }

  lemma PadLeftAtBreakInText(w: string, m: string, i: nat)
    requires '\n' !in w
    requires i < |m| && m[i] == '\n' && '\n' !in m[..i]
    ensures SplitLines(w + m) == [w + m[..i]] + SplitLines(m[i + 1..])
    ensures SplitLines(m) == [m[..i]] + SplitLines(m[i + 1..])
  {
    var s := w + m;
    assert s[..|w| + i] == w + m[..i];
    assert s[|w| + i + 1..] == m[i + 1..];
    SplitLinesAt(s, |w| + i, w + m[..i], m[i + 1..]);
    SplitLinesAt(m, i, m[..i], m[i + 1..]);
  }

  lemma PadRightAtBreakInText(m: string, w: string, i: nat)
    requires i < |m| && m[i] == '\n' && '\n' !in m[..i]
    ensures SplitLines(m + w) == [m[..i]] + SplitLines(m[i + 1..] + w)
    ensures SplitLines(m) == [m[..i]] + SplitLines(m[i + 1..])
  {
    var s := m + w;
    assert s[..i] == m[..i];
    assert s[i + 1..] == m[i + 1..] + w;
    SplitLinesAt(s, i, m[..i], m[i + 1..] + w);
    SplitLinesAt(m, i, m[..i], m[i + 1..]);
  }

  lemma PadRightAtBreakInPad(m: string, w: string, i: nat)
    requires '\n' !in m
    requires i < |w| && w[i] == '\n' && '\n' !in w[..i]
    ensures SplitLines(m + w) == [m + w[..i]] + SplitLines(w[i + 1..])
  {
    var s := m + w;
    assert s[..|m| + i] == m + w[..i];
    assert s[|m| + i + 1..] == w[i + 1..];
    SplitLinesAt(s, |m| + i, m + w[..i], w[i + 1..]);
  }

  lemma {:induction false} NonBlankPadRight(m: string, w: string)
    requires AllWhitespace(w)
    ensures NonBlank(SplitLines(m + w)) == NonBlank(SplitLines(m))
    decreases |m|
  {
    if '\n' in m {
      var i := IndexOf(m, '\n');
      var head, tail := m[..i], m[i + 1..];
      PadRightAtBreakInText(m, w, i);
      NonBlankCons(head, SplitLines(tail + w));
      NonBlankCons(head, SplitLines(tail));
      NonBlankPadRight(tail, w);
    } else if '\n' in w {
      var i := IndexOf(w, '\n');
      var head, rest := w[..i], w[i + 1..];
      assert AllWhitespace(head) && AllWhitespace(rest);
      PadRightAtBreakInPad(m, w, i);
      TrimPadRight(m, head);
      NonBlankCons(m + head, SplitLines(rest));
      NonBlankOfBlank(rest);
      SplitLinesNoBreak(m);
      NonBlankSingle(m);
      assert NonBlank(SplitLines(m + w)) == NonBlank([m + head]) + [];
    } else {
      assert '\n' !in m + w;
      SplitLinesNoBreak(m + w);
      SplitLinesNoBreak(m);
      TrimPadRight(m, w);
      NonBlankSingle(m + w);
      NonBlankSingle(m);
    }
  }

  /** Trimming the whole text first, as both parsers do, keeps exactly the same
      non-blank lines as splitting the text as it is. */
  lemma NonBlankOfTrimmed(s: string)
    ensures NonBlank(SplitLines(Trim(s))) == NonBlank(SplitLines(s))
  {
    var lead, trail := TrimSplits(s);
    var t := Trim(s);
    var mid := t + trail;
    assert s == lead + mid;
    NonBlankPadRight(t, trail);
    NonBlankPadLeft(lead, mid);
  }

  /** A trimmed line is its own trim. */
  lemma TrimOfTrimmed(s: string)
    requires IsTrimmedLine(s)
    ensures Trim(s) == s
  {
    assert TrimStart(s) == s;
  }

  /** Lines that are all trimmed and non-empty pass the blank-line filter unchanged. */
  lemma {:induction false} NonBlankOfTrimmedLines(lines: seq<string>)
    requires forall k :: 0 <= k < |lines| ==> IsTrimmedLine(lines[k])
    ensures NonBlank(lines) == lines
    decreases |lines|
  {
    if lines != [] {
      TrimOfTrimmed(lines[0]);
      NonBlankOfTrimmedLines(lines[1..]);
      assert lines == [lines[0]] + lines[1..];
    }
  }

  // ---------------------------------------------------------------- split(/\s+/)

  function Concat(fields: seq<string>): string
  {
    if fields == [] then [] else fields[0] + Concat(fields[1..])
  }

  /** The characters of `s` that are not white space, in order. */
  function RemoveWhitespace(s: string): string
  {
    if s == [] then [] else (if IsWhitespace(s[0]) then [] else [s[0]]) + RemoveWhitespace(s[1..])
  }

  lemma {:induction false} RemoveWhitespaceAppend(a: string, b: string)
    ensures RemoveWhitespace(a + b) == RemoveWhitespace(a) + RemoveWhitespace(b)
    decreases |a|
  {
    if a == [] {
      assert a + b == b;
    } else {
      assert (a + b)[1..] == a[1..] + b;
      RemoveWhitespaceAppend(a[1..], b);
    }
  }

  lemma {:induction false} RemoveWhitespaceOf(s: string)
    ensures NoWhitespace(s) ==> RemoveWhitespace(s) == s
    ensures AllWhitespace(s) ==> RemoveWhitespace(s) == []
    decreases |s|
  {
    if s != [] {
      RemoveWhitespaceOf(s[1..]);
    }
  }

  /** Index of the first white-space character of `s`, or `|s|` when it has none. */
  function FirstWhitespace(s: string): (i: nat)
    ensures i <= |s|
    ensures forall k :: 0 <= k < i ==> !IsWhitespace(s[k])
    ensures i < |s| ==> IsWhitespace(s[i])
  {
    if s == [] || IsWhitespace(s[0]) then 0 else 1 + FirstWhitespace(s[1..])
  }

  /** Index just past the run of white space that starts at `i`. */
  function EndOfRun(s: string, i: nat): (j: nat)
    requires i <= |s|
    ensures i <= j <= |s|
    ensures forall k :: i <= k < j ==> IsWhitespace(s[k])
    ensures j < |s| ==> !IsWhitespace(s[j])
    decreases |s| - i
  {
    if i < |s| && IsWhitespace(s[i]) then EndOfRun(s, i + 1) else i
  }

  /** `s.split(/\s+/)`: the pieces between maximal runs of white space. */
  function SplitWhitespace(s: string): seq<string>
    decreases |s|
  {
    var i := FirstWhitespace(s);
    if i == |s| then [s] else [s[..i]] + SplitWhitespace(s[EndOfRun(s, i)..])
  }

  lemma ConcatCons(head: string, rest: seq<string>)
    ensures Concat([head] + rest) == head + Concat(rest)
  {
    assert ([head] + rest)[1..] == rest;
  }

  /** One white-space run, at `i` up to `j`, separates the first piece from the rest. */
  lemma SplitWhitespaceAt(s: string, i: nat, j: nat, head: string, tail: string)
    requires i == FirstWhitespace(s) && i < |s| && j == EndOfRun(s, i)
    requires head == s[..i] && tail == s[j..]
    ensures SplitWhitespace(s) == [head] + SplitWhitespace(tail)
  {
  }

  /** The characters of a run-separated string, white space removed, are those of its
      pieces. */
  lemma RemoveWhitespaceAround(s: string, i: nat, j: nat, head: string, tail: string)
    requires i <= j <= |s| && head == s[..i] && tail == s[j..]
    requires NoWhitespace(head) && AllWhitespace(s[i..j])
    ensures RemoveWhitespace(s) == head + RemoveWhitespace(tail)
  {
    var run := s[i..j];
    assert s == head + run + tail;
    RemoveWhitespaceAppend(head + run, tail);
    RemoveWhitespaceAppend(head, run);
    RemoveWhitespaceOf(head);
    RemoveWhitespaceOf(run);
  }

  /** The pieces `split(/\s+/)` returns hold no white space and, together, every other
      character of `s` in order; there is at least one. */
  lemma {:induction false} SplitWhitespaceFields(s: string)
    ensures |SplitWhitespace(s)| >= 1
    ensures forall k :: 0 <= k < |SplitWhitespace(s)| ==> NoWhitespace(SplitWhitespace(s)[k])
    ensures Concat(SplitWhitespace(s)) == RemoveWhitespace(s)
    decreases |s|
  {
    var i := FirstWhitespace(s);
    if i == |s| {
      assert s[..i] == s;
      RemoveWhitespaceOf(s);
      ConcatCons(s, []);
    } else {
      var j := EndOfRun(s, i);
      var head, tail := s[..i], s[j..];
      SplitWhitespaceAt(s, i, j, head, tail);
      SplitWhitespaceFields(tail);
      ConcatCons(head, SplitWhitespace(tail));
      RemoveWhitespaceAround(s, i, j, head, tail);
    }
  }

  /** On a trimmed line no piece of `split(/\s+/)` is empty. */
  lemma {:induction false} SplitWhitespaceNonEmpty(s: string)
    requires IsTrimmedLine(s)
    ensures forall k :: 0 <= k < |SplitWhitespace(s)| ==> SplitWhitespace(s)[k] != []
    decreases |s|
  {
    var i := FirstWhitespace(s);
    if i < |s| {
      var j := EndOfRun(s, i);
      var head, tail := s[..i], s[j..];
      SplitWhitespaceAt(s, i, j, head, tail);
      assert j < |s|;
      assert tail[|tail| - 1] == s[|s| - 1];
      SplitWhitespaceNonEmpty(tail);
    }
  }

  /** A piece `split(/\s+/)` can return from a trimmed line: non-empty, without white space. */
  ghost predicate IsField(s: string)
  {
    s != [] && NoWhitespace(s)
  }

  /** The fields written out with one space between each two. */
  function JoinFields(fields: seq<string>): string
    requires |fields| >= 1
  {
    if |fields| == 1 then fields[0] else fields[0] + " " + JoinFields(fields[1..])
  }

  /** Fields joined by spaces make one trimmed line. */
  lemma {:induction false} JoinFieldsShape(fields: seq<string>)
    requires |fields| >= 1 && forall k :: 0 <= k < |fields| ==> IsField(fields[k])
    ensures IsTrimmedLine(JoinFields(fields)) && '\n' !in JoinFields(fields)
    decreases |fields|
  {
    if |fields| > 1 {
      JoinFieldsShape(fields[1..]);
      var tail := JoinFields(fields[1..]);
      var s := fields[0] + " " + tail;
      assert s[0] == fields[0][0];
      assert s[|s| - 1] == tail[|tail| - 1];
      assert forall k :: 0 <= k < |s| ==> s[k] == ' ' || s[k] in fields[0] || s[k] in tail;
    }
  }

  lemma FirstWhitespaceAt(s: string, i: nat)
    requires i <= |s| && (forall k :: 0 <= k < i ==> !IsWhitespace(s[k]))
    requires i < |s| ==> IsWhitespace(s[i])
    ensures FirstWhitespace(s) == i
  {
  }

  /** Splitting fields joined by spaces gives the fields back. */
  lemma {:induction false} SplitJoinFields(fields: seq<string>)
    requires |fields| >= 1 && forall k :: 0 <= k < |fields| ==> IsField(fields[k])
    ensures SplitWhitespace(JoinFields(fields)) == fields
    decreases |fields|
  {
    var head := fields[0];
    if |fields| == 1 {
      FirstWhitespaceAt(head, |head|);
    } else {
      var tail := JoinFields(fields[1..]);
      JoinFieldsShape(fields[1..]);
      var s := head + " " + tail;
      var i := |head|;
      FirstWhitespaceAt(s, i);
      assert s[i + 1] == tail[0];
      assert EndOfRun(s, i + 1) == i + 1;
      assert s[..i] == head && s[i + 1..] == tail;
      SplitWhitespaceAt(s, i, i + 1, head, tail);
      SplitJoinFields(fields[1..]);
      assert fields == [head] + fields[1..];
    }
  }

  /** A run `split(/\s+/)` cuts at: non-empty, all white space. */
  ghost predicate IsSeparator(w: string)
  {
    w != [] && AllWhitespace(w)
  }

  /** The fields written out with `seps[k]` between field `k` and field `k + 1`. */
  function JoinWith(fields: seq<string>, seps: seq<string>): string
    requires |fields| >= 1 && |seps| == |fields| - 1
    decreases |fields|
  {
    if |fields| == 1 then fields[0] else fields[0] + seps[0] + JoinWith(fields[1..], seps[1..])
  }

  lemma {:induction false} EndOfRunAt(s: string, i: nat, j: nat)
    requires i <= j <= |s| && (forall k :: i <= k < j ==> IsWhitespace(s[k]))
    requires j < |s| ==> !IsWhitespace(s[j])
    ensures EndOfRun(s, i) == j
    decreases j - i
  {
    if i < j {
      EndOfRunAt(s, i + 1, j);
    }
  }

  /** Splitting fields joined by any white-space runs, of any length and mix of characters, gives
      the fields back: every maximal run is one cut, and nothing else is. */
  lemma {:induction false} SplitJoinWith(fields: seq<string>, seps: seq<string>)
    requires |fields| >= 1 && |seps| == |fields| - 1
    requires forall k :: 0 <= k < |fields| ==> IsField(fields[k])
    requires forall k :: 0 <= k < |seps| ==> IsSeparator(seps[k])
    ensures SplitWhitespace(JoinWith(fields, seps)) == fields
    decreases |fields|
  {
    var head := fields[0];
    if |fields| == 1 {
      FirstWhitespaceAt(head, |head|);
    } else {
      var w := seps[0];
      var tail := JoinWith(fields[1..], seps[1..]);
      assert tail[0] == fields[1][0];
      var s := head + w + tail;
      var i, j := |head|, |head| + |w|;
      assert s[i] == w[0];
      FirstWhitespaceAt(s, i);
      assert s[j] == tail[0];
      EndOfRunAt(s, i, j);
      assert s[..i] == head && s[j..] == tail;
      SplitWhitespaceAt(s, i, j, head, tail);
      SplitJoinWith(fields[1..], seps[1..]);
      assert fields == [head] + fields[1..];
    }
  }
}

