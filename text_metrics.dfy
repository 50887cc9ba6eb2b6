/** Text measurement used to size the message box: the longest line of the
    raw text, and an estimate of how many screen rows the trimmed text takes
    once it is wrapped at a given width (cmd/nerdlog/message_view.go). */
module TextMetrics {

  // ---------------------------------------------------------------------
  // Whitespace and trimming (the behaviour of Go's strings.TrimSpace)
  // ---------------------------------------------------------------------

  /** Unicode White_Space, the set Go's unicode.IsSpace accepts. */
  predicate IsSpace(c: char)
  {
    c == '\t' || c == '\n' || c == '\U{B}' || c == '\U{C}' || c == '\r' || c == ' '
    || c == '\U{85}' || c == '\U{A0}' || c == '\U{1680}'
    || ('\U{2000}' <= c <= '\U{200A}')
    || c == '\U{2028}' || c == '\U{2029}' || c == '\U{202F}' || c == '\U{205F}' || c == '\U{3000}'
  }

  /** Number of whitespace characters at the start of s. */
  function LeadingSpaces(s: string): (n: nat)
    ensures n <= |s|
    ensures forall k :: 0 <= k < n ==> IsSpace(s[k])
    ensures n == |s| || !IsSpace(s[n])
  {
    if s != [] && IsSpace(s[0]) then 1 + LeadingSpaces(s[1..]) else 0
  }

  /** Number of whitespace characters at the end of s. */
  function TrailingSpaces(s: string): (n: nat)
    ensures n <= |s|
    ensures forall k :: |s| - n <= k < |s| ==> IsSpace(s[k])
    ensures n == |s| || !IsSpace(s[|s| - n - 1])
  {
    if s != [] && IsSpace(s[|s| - 1]) then 1 + TrailingSpaces(s[..|s| - 1]) else 0
  }

  /** Go's strings.TrimSpace: the text with its leading and trailing
      whitespace removed. The result is the infix of s between the leading
      spaces and the trailing ones, and it neither starts nor ends with a
      space. */
  function TrimSpace(s: string): (r: string)
    ensures LeadingSpaces(s) + |r| <= |s|
    ensures r == s[LeadingSpaces(s)..LeadingSpaces(s) + |r|]
    ensures forall k :: LeadingSpaces(s) + |r| <= k < |s| ==> IsSpace(s[k])
    ensures r == [] || (!IsSpace(r[0]) && !IsSpace(r[|r| - 1]))
  {
    var rest := s[LeadingSpaces(s)..];
    rest[..|rest| - TrailingSpaces(rest)]
  }

  /** Trimming twice is trimming once. */
  lemma TrimSpaceIdempotent(s: string)
    ensures TrimSpace(TrimSpace(s)) == TrimSpace(s)
  {
    var t := TrimSpace(s);
    assert LeadingSpaces(t) == 0;
    assert TrailingSpaces(t) == 0;
  }

  // ---------------------------------------------------------------------
  // Splitting on '\n' (the behaviour of Go's strings.Split(s, "\n"))
  // ---------------------------------------------------------------------

  /** One character of a left-to-right scan: a newline opens a new, empty
      segment; any other character extends the current (last) segment. */
  function Step(prev: seq<string>, c: char): (r: seq<string>)
    requires |prev| >= 1
    ensures |r| >= 1
  {
    if c == '\n' then prev + [""]
    else prev[..|prev| - 1] + [prev[|prev| - 1] + [c]]
  }

  /** The '\n'-separated segments of s, including a final unterminated one;
      the empty string has the one empty segment. */
  function Split(s: string): (r: seq<string>)
    ensures |r| >= 1
    decreases |s|
  {
    if s == [] then [""] else Step(Split(s[..|s| - 1]), s[|s| - 1])
  }

  /** No segment contains the separator. */
  lemma {:induction false} SplitSegmentsPlain(s: string)
    ensures forall k :: 0 <= k < |Split(s)| ==> '\n' !in Split(s)[k]
    decreases |s|
  {
    if s != [] {
      var front, c := s[..|s| - 1], s[|s| - 1];
      SplitSegmentsPlain(front);
      var prev := Split(front);
      if c != '\n' {
        var last := prev[|prev| - 1];
        assert '\n' !in last;
        assert '\n' !in last + [c];
      }
    }
  }

  lemma SplitSnoc(s: string, c: char)
    ensures Split(s + [c]) == Step(Split(s), c)
  {
    assert (s + [c])[..|s|] == s;
  }

  /** The segments of t followed by those of u, when t and u are put side
      by side: the last segment of t and the first of u run together. */
  function Merge(st: seq<string>, su: seq<string>): (r: seq<string>)
    requires |st| >= 1 && |su| >= 1
    ensures |r| == |st| + |su| - 1
  {
    st[..|st| - 1] + [st[|st| - 1] + su[0]] + su[1..]
  }

  lemma MergeStep(st: seq<string>, su: seq<string>, c: char)
    requires |st| >= 1 && |su| >= 1
    ensures Merge(st, Step(su, c)) == Step(Merge(st, su), c)
  {
    var front, last := st[..|st| - 1], st[|st| - 1];
    var m := Merge(st, su);
    var su' := Step(su, c);
    if c == '\n' {
      assert su'[0] == su[0];
      assert su'[1..] == su[1..] + [""];
    } else if |su| == 1 {
      assert su' == [su[0] + [c]];
      assert m == front + [last + su[0]];
      assert (last + su[0]) + [c] == last + su'[0];
    } else {
      assert su'[0] == su[0];
      assert su'[1..] == su[1..|su| - 1] + [su[|su| - 1] + [c]];
      assert m[|m| - 1] == su[|su| - 1];
      assert m[..|m| - 1] == front + [last + su[0]] + su[1..|su| - 1];
    }
  }

  lemma MergeEmpty(st: seq<string>)
    requires |st| >= 1
    ensures Merge(st, [""]) == st
  {
    assert st[|st| - 1] + "" == st[|st| - 1];
  }

  /** Split of a concatenation: the last segment of t and the first of u
      merge into one; every other segment is kept as it is. */
  lemma {:induction false} SplitConcat(t: string, u: string)
    ensures Split(t + u) == Merge(Split(t), Split(u))
    decreases |u|
  {
    if u == [] {
      assert t + u == t;
      MergeEmpty(Split(t));
    } else {
      var v, c := u[..|u| - 1], u[|u| - 1];
      var tv := t + v;
      SplitConcat(t, v);
      assert v + [c] == u;
      assert t + (v + [c]) == tv + [c];
      SplitSnoc(tv, c);
      SplitSnoc(v, c);
      MergeStep(Split(t), Split(v), c);
    }
  }

  /** A text without newlines is a single segment. */
  lemma SplitPlain(x: string)
    requires '\n' !in x
    ensures Split(x) == [x]
  {
    if x != [] {
      assert x[..|x| - 1] + [x[|x| - 1]] == x;
      assert '\n' !in x[..|x| - 1];
      SplitPlain(x[..|x| - 1]);
    }
  }

  /** The inverse of Split: the segments glued back with '\n'. */
  function Join(ls: seq<string>): string
    requires |ls| >= 1
  {
    if |ls| == 1 then ls[0]
    else Join(ls[..|ls| - 1]) + ['\n'] + ls[|ls| - 1]
  }

  lemma JoinStepPlain(ls: seq<string>, c: char)
    requires |ls| > 1 && c != '\n'
    ensures Join(Step(ls, c)) == Join(ls) + [c]
  {
    var n := |ls|;
    var front, last := ls[..n - 1], ls[n - 1];
    var r := front + [last + [c]];
    assert Step(ls, c) == r;
    assert r[..n - 1] == front;
    assert r[n - 1] == last + [c];
    var j := Join(front);
    assert Join(r) == j + ['\n'] + (last + [c]);
    assert Join(ls) == j + ['\n'] + last;
  }

  /** Joining after one more scanned character is joining before it, with
      that character added. */
  lemma JoinStep(ls: seq<string>, c: char)
    requires |ls| >= 1
    ensures Join(Step(ls, c)) == Join(ls) + [c]
  {
    if c == '\n' {
      var r := ls + [""];
      assert r[..|ls|] == ls;
    } else if |ls| > 1 {
      JoinStepPlain(ls, c);
    }
  }

  /** Splitting and joining again gives back the text. */
  lemma {:induction false} JoinSplit(s: string)
    ensures Join(Split(s)) == s
    decreases |s|
  {
    if s != [] {
      var p, c := s[..|s| - 1], s[|s| - 1];
      JoinSplit(p);
      JoinStep(Split(p), c);
      assert p + [c] == s;
    }
  }

  lemma MergeOntoEmpty(front: seq<string>, x: string)
    ensures Merge(front + [""], [x]) == front + [x]
  {
    var st := front + [""];
    assert st[..|st| - 1] == front;
    assert st[|st| - 1] + x == x;
  }

  /** Joining segments free of newlines and splitting again gives back the
      segments. */
  lemma {:induction false} SplitJoin(ls: seq<string>)
    requires |ls| >= 1
    requires forall k :: 0 <= k < |ls| ==> '\n' !in ls[k]
    ensures Split(Join(ls)) == ls
    decreases |ls|
  {
    var last := ls[|ls| - 1];
    SplitPlain(last);
    if |ls| > 1 {
      var front := ls[..|ls| - 1];
      assert front + [last] == ls;
      assert forall k :: 0 <= k < |front| ==> front[k] == ls[k];
      SplitJoin(front);
      var jn := Join(front) + ['\n'];
      SplitSnoc(Join(front), '\n');
      SplitConcat(jn, last);
      MergeOntoEmpty(front, last);
      assert Join(ls) == jn + last;
    }
  }

  // ---------------------------------------------------------------------
  // Longest line (getMaxLineLength)
  // ---------------------------------------------------------------------

  /** The length of the longest segment; 0 for no segments. */
  function MaxLen(ls: seq<string>): (r: nat)
    ensures forall k :: 0 <= k < |ls| ==> |ls[k]| <= r
    ensures ls == [] ==> r == 0
    ensures ls != [] ==> exists k :: 0 <= k < |ls| && |ls[k]| == r
  {
    if ls == [] then 0
    else
      var m := MaxLen(ls[..|ls| - 1]);
      var n := |ls[|ls| - 1]|;
      if n > m then n else m
  }

  lemma MaxLenSnoc(ls: seq<string>, x: string)
    ensures MaxLen(ls + [x]) == if |x| > MaxLen(ls) then |x| else MaxLen(ls)
  {
    assert (ls + [x])[..|ls|] == ls;
  }

  /** The length of the longest '\n'-separated line of s. */
  function MaxLineLength(s: string): nat
  {
    MaxLen(Split(s))
  }

  lemma {:induction false} SegmentWithinJoin(ls: seq<string>, k: nat)
    requires k < |ls|
    ensures |ls[k]| <= |Join(ls)|
    decreases |ls|
  {
    if k < |ls| - 1 {
      SegmentWithinJoin(ls[..|ls| - 1], k);
    }
  }

  /** No line is longer than the whole text. */
  lemma MaxLineLengthBound(s: string)
    ensures MaxLineLength(s) <= |s|
  {
    JoinSplit(s);
    var ls := Split(s);
    var k :| 0 <= k < |ls| && |ls[k]| == MaxLen(ls);
    SegmentWithinJoin(ls, k);
  }

  lemma JoinExample()
    ensures Join(["ab", "cde", "f"]) == "ab\ncde\nf"
  {
    var ls := ["ab", "cde", "f"];
    assert ls[..2] == ["ab", "cde"];
    assert ls[..2][..1] == ["ab"];
  }

  lemma MaxLineLengthExamples()
    ensures MaxLineLength("") == 0
    ensures MaxLineLength("ab\ncde\nf") == 3
  {
    var ls := ["ab", "cde", "f"];
    JoinExample();
    SplitJoin(ls);
    assert ls[..2] == ["ab", "cde"];
    assert ls[..2][..1] == ["ab"];
  }

  /** Where each segment of a merge comes from. */
  lemma MergeAt(st: seq<string>, su: seq<string>, k: nat)
    requires |st| >= 1 && |su| >= 1 && k < |st| + |su| - 1
    ensures k < |st| - 1 ==> Merge(st, su)[k] == st[k]
    ensures k == |st| - 1 ==> Merge(st, su)[k] == st[k] + su[0]
    ensures k > |st| - 1 ==> Merge(st, su)[k] == su[k - |st| + 1]
  {
  }

  /** Gluing two line lists never shortens the longest line of the first. */
  lemma MergeKeepsLeftMax(st: seq<string>, su: seq<string>)
    requires |st| >= 1 && |su| >= 1
    ensures MaxLen(st) <= MaxLen(Merge(st, su))
  {
    var s := Merge(st, su);
    var i :| 0 <= i < |st| && |st[i]| == MaxLen(st);
    MergeAt(st, su, i);
    assert |st[i]| <= |s[i]| <= MaxLen(s);
  }

  /** Gluing two line lists never shortens the longest line of the second. */
  lemma MergeKeepsRightMax(st: seq<string>, su: seq<string>)
    requires |st| >= 1 && |su| >= 1
    ensures MaxLen(su) <= MaxLen(Merge(st, su))
  {
    var s := Merge(st, su);
    var n := |st| - 1;
    var j :| 0 <= j < |su| && |su[j]| == MaxLen(su);
    MergeAt(st, su, n + j);
    assert |su[j]| <= |s[n + j]| <= MaxLen(s);
  }

  /** Neither part of a concatenation has a longer line than the whole. */
  lemma MaxLineLengthConcat(t: string, u: string)
    ensures MaxLineLength(t) <= MaxLineLength(t + u)
    ensures MaxLineLength(u) <= MaxLineLength(t + u)
  {
    SplitConcat(t, u);
    MergeKeepsLeftMax(Split(t), Split(u));
    MergeKeepsRightMax(Split(t), Split(u));
  }

  /** No line of an infix is longer than the longest line of the text. */
  lemma MaxLineLengthInfix(s: string, a: nat, b: nat)
    requires a <= b <= |s|
    ensures MaxLineLength(s[a..b]) <= MaxLineLength(s)
  {
    var p, q := s[..b], s[b..];
    assert s == p + q;
    MaxLineLengthConcat(p, q);
    var x, y := p[..a], p[a..];
    assert p == x + y;
    MaxLineLengthConcat(x, y);
    assert y == s[a..b];
  }

  /** Trimming never lengthens the longest line. */
  lemma MaxLineLengthTrimSpace(s: string)
    ensures MaxLineLength(TrimSpace(s)) <= MaxLineLength(s)
  {
    var r := TrimSpace(s);
    var a := LeadingSpaces(s);
    var b := a + |r|;
    assert r == s[a..b];
    MaxLineLengthInfix(s, a, b);
  }

  /** The scan of getMaxLineLength: one pass over the text keeping the
      longest finished line and the start of the current one. */
  method GetMaxLineLength(s: string) returns (maxLen: nat)
    ensures maxLen == MaxLineLength(s)
    ensures maxLen <= |s|
  {
    maxLen := 0;
    var start := 0;
    ghost var done: seq<string> := [];
    for i := 0 to |s|
      invariant start <= i
      invariant Split(s[..i]) == done + [s[start..i]]
      invariant maxLen == MaxLen(done)
    {
      ScanStep(s, i, start, done);
      if s[i] == '\n' {
        var lineLen := i - start;
        ghost var line := s[start..i];
        assert |line| == lineLen;
        MaxLenSnoc(done, line);
        if lineLen > maxLen {
          maxLen := lineLen;
        }
        done := done + [line];
        start := i + 1;
      }
    }
    assert s[..|s|] == s;
    assert s[start..|s|] == s[start..];
    MaxLenSnoc(done, s[start..]);
    if |s| - start > maxLen {
      maxLen := |s| - start;
    }
    MaxLineLengthBound(s);
  }

  /** How one more character changes the segments the scan has seen. */
  lemma ScanStep(s: string, i: nat, start: nat, done: seq<string>)
    requires start <= i < |s|
    requires Split(s[..i]) == done + [s[start..i]]
    ensures s[i] == '\n' ==> Split(s[..i + 1]) == (done + [s[start..i]]) + [s[i + 1..i + 1]]
    ensures s[i] != '\n' ==> Split(s[..i + 1]) == done + [s[start..i + 1]]
  {
    SplitSnoc(s[..i], s[i]);
    assert s[..i + 1] == s[..i] + [s[i]];
    var prev := done + [s[start..i]];
    assert prev[..|prev| - 1] == done;
    assert s[start..i + 1] == s[start..i] + [s[i]];
    assert s[i + 1..i + 1] == "";
  }

  // ---------------------------------------------------------------------
  // Estimated number of rows (getNumLines)
  // ---------------------------------------------------------------------

  /** Rows one line of length len takes when wrapped at width: the length
      divided by the width, rounded up, and at least one. */
  function LineRows(len: nat, width: int): (r: nat)
    requires width > 0
    ensures r >= 1
    ensures len <= r * width
    ensures r == 1 || (r - 1) * width < len
    ensures len <= width ==> r == 1
  {
    var q := (len + width - 1) / width;
    assert q * width <= len + width - 1 < q * width + width by {
      assert len + width - 1 == q * width + (len + width - 1) % width;
    }
    assert len <= width ==> q <= 1;
    if q == 0 then 1 else q
  }

  /** Rows taken by a sequence of lines. */
  function Rows(ls: seq<string>, width: int): nat
    requires width > 0
  {
    if ls == [] then 0 else Rows(ls[..|ls| - 1], width) + LineRows(|ls[|ls| - 1]|, width)
  }

  /** getNumLines: 0 for a width of 0 or less, otherwise the rows of the
      lines of the trimmed text. */
  function NumLines(s: string, width: int): nat
  {
    if width <= 0 then 0 else Rows(Split(TrimSpace(s)), width)
  }

  /** Every line takes at least one row. */
  lemma {:induction false} RowsAtLeastLines(ls: seq<string>, width: int)
    requires width > 0
    ensures Rows(ls, width) >= |ls|
  {
    if ls != [] {
      RowsAtLeastLines(ls[..|ls| - 1], width);
    }
  }

  /** When no line is longer than the width, each takes exactly one row. */
  lemma {:induction false} RowsWhenAllFit(ls: seq<string>, width: int)
    requires width > 0
    requires forall k :: 0 <= k < |ls| ==> |ls[k]| <= width
    ensures Rows(ls, width) == |ls|
  {
    if ls != [] {
      var front := ls[..|ls| - 1];
      assert forall k :: 0 <= k < |front| ==> front[k] == ls[k];
      RowsWhenAllFit(front, width);
      assert LineRows(|ls[|ls| - 1]|, width) == 1;
    }
  }

  /** The estimate is at least the number of lines of the trimmed text, so
      at least one, whenever the width is positive. */
  lemma NumLinesLowerBound(s: string, width: int)
    ensures width <= 0 ==> NumLines(s, width) == 0
    ensures width > 0 ==> NumLines(s, width) >= |Split(TrimSpace(s))| >= 1
  {
    if width > 0 {
      RowsAtLeastLines(Split(TrimSpace(s)), width);
    }
  }

  /** When the longest line of the text fits the width, the estimate is the
      number of lines of the trimmed text: nothing is wrapped. */
  lemma NumLinesWhenFits(s: string, width: int)
    requires 0 < width && MaxLineLength(s) <= width
    ensures NumLines(s, width) == |Split(TrimSpace(s))|
  {
    MaxLineLengthTrimSpace(s);
    RowsWhenAllFit(Split(TrimSpace(s)), width);
  }

  lemma RowsSingle(x: string, width: int)
    requires width > 0
    ensures Rows([x], width) == LineRows(|x|, width)
  {
    assert |[x][..0]| == 0;
  }

  /** A text whose trimmed form is one line takes the rows of that line. */
  lemma NumLinesOfOneLine(s: string, width: int)
    requires width > 0 && '\n' !in TrimSpace(s)
    ensures NumLines(s, width) == LineRows(|TrimSpace(s)|, width)
  {
    SplitPlain(TrimSpace(s));
    RowsSingle(TrimSpace(s), width);
  }

  lemma DigitsTrimmed()
    ensures TrimSpace("0123456789") == "0123456789"
  {
    var t: string := "0123456789";
    assert LeadingSpaces(t) == 0;
    assert t[0..] == t;
    assert TrailingSpaces(t) == 0;
  }

  lemma NumLinesWrapExample()
    ensures NumLines("0123456789", 5) == 2
    ensures NumLines("0123456789", 10) == 1
    ensures NumLines("0123456789", 11) == 1
  {
    var t: string := "0123456789";
    DigitsTrimmed();
    NumLinesOfOneLine(t, 5);
    NumLinesOfOneLine(t, 10);
    NumLinesOfOneLine(t, 11);
    assert LineRows(10, 5) == 2;
  }

  lemma NumLinesBlankExample()
    ensures NumLines("   ", 7) == 1
  {
    var w: string := "   ";
    assert TrimSpace(w) == "" by {
      assert LeadingSpaces(w[2..]) == 1;
      assert LeadingSpaces(w[1..]) == 2;
      assert LeadingSpaces(w) == 3;
    }
    NumLinesOfOneLine(w, 7);
  }

  /** The loop of getNumLines, which sums the rows line by line. */
  method GetNumLines(s: string, screenWidth: int) returns (numLines: nat)
    ensures numLines == NumLines(s, screenWidth)
    ensures screenWidth <= 0 ==> numLines == 0
    ensures screenWidth > 0 ==> numLines >= |Split(TrimSpace(s))| >= 1
  {
    NumLinesLowerBound(s, screenWidth);
    if screenWidth <= 0 {
      return 0;
    }
    var lines := Split(TrimSpace(s));
    numLines := 0;
    for k := 0 to |lines|
      invariant numLines == Rows(lines[..k], screenWidth)
    {
      assert lines[..k + 1][..k] == lines[..k];
      var lineLen := |lines[k]|;
      var curNumLines := (lineLen + screenWidth - 1) / screenWidth;
      if curNumLines == 0 {
        curNumLines := 1;
      }
      assert curNumLines == LineRows(lineLen, screenWidth);
      numLines := numLines + curNumLines;
    }
    assert lines[..|lines|] == lines;
  }
}
