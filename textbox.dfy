/** The box renderer of `src/textbox.rs`: bracketed segments of a directive
    line are word-wrapped three words to a line, drawn as bordered boxes and
    laid side by side, row by row.  Lengths are character counts, equal to
    the byte `len()` the source measures on ASCII text. */
module Textbox {
  import opened Text

  /* ---------------- get_box_string ---------------- */

  /** The captures of the pattern `\[([^\]]*)\]`, left to right.  Outside
      a match the scan looks for `[`; inside one it reads up to the first
      `]`.  When no `]` follows, no later `[` can start a match either, so
      the scan ends with nothing more. */
  function Segments(line: string): (r: seq<string>)
    ensures forall k :: 0 <= k < |r| ==> ']' !in r[k]
    decreases |line|, 1
  {
    if line == [] then []
    else if line[0] == '[' then Capture(line[1..], [])
    else Segments(line[1..])
  }

  /** Inside a match, with `acc` the capture read so far. */
  function Capture(s: string, acc: string): (r: seq<string>)
    requires ']' !in acc
    ensures forall k :: 0 <= k < |r| ==> ']' !in r[k]
    decreases |s|, 0
  {
    if s == [] then []
    else if s[0] == ']' then [acc] + Segments(s[1..])
    else Capture(s[1..], acc + [s[0]])
  }

  /** The line `gaps[0] [segs[0]] gaps[1] ... [segs[m-1]] gaps[m]`. */
  function Bracketed(gaps: seq<string>, segs: seq<string>): string
    requires |gaps| == |segs| + 1
  {
    if segs == [] then gaps[0]
    else gaps[0] + "[" + segs[0] + "]" + Bracketed(gaps[1..], segs[1..])
  }

  /** Text without `[` is skipped. */
  lemma {:induction false} SkipGap(g: string, rest: string)
    requires '[' !in g
    ensures Segments(g + rest) == Segments(rest)
    decreases |g|
  {
    if g == [] {
      assert g + rest == rest;
    } else {
      assert (g + rest)[0] == g[0];
      assert (g + rest)[1..] == g[1..] + rest;
      SkipGap(g[1..], rest);
    }
  }

  /** Inside a match, `]`-free text is read into the capture up to the `]`. */
  lemma {:induction false} ReadCapture(seg: string, acc: string, rest: string)
    requires ']' !in acc && ']' !in seg
    ensures Capture(seg + ("]" + rest), acc) == [acc + seg] + Segments(rest)
    decreases |seg|
  {
    var s := seg + ("]" + rest);
    if seg == [] {
      assert s == "]" + rest;
      assert s[1..] == rest;
      assert acc + seg == acc;
    } else {
      assert s[0] == seg[0];
      assert s[1..] == seg[1..] + ("]" + rest);
      ReadCapture(seg[1..], acc + [seg[0]], rest);
      assert acc + [seg[0]] + seg[1..] == acc + seg;
    }
  }

  /** Inside a match that is never closed, nothing more is captured. */
  lemma {:induction false} CaptureOpen(s: string, acc: string)
    requires ']' !in acc && ']' !in s
    ensures Capture(s, acc) == []
    decreases |s|
  {
    if s != [] {
      CaptureOpen(s[1..], acc + [s[0]]);
    }
  }

  /** One bracketed segment after `[`-free text is the first capture. */
  lemma SegmentsStep(g: string, seg: string, tail: string)
    requires '[' !in g && ']' !in seg
    ensures Segments(g + "[" + seg + "]" + tail) == [seg] + Segments(tail)
  {
    var x := seg + ("]" + tail);
    var t := "[" + x;
    assert g + "[" + seg + "]" + tail == g + t;
    SkipGap(g, t);
    assert t[0] == '[' && t[1..] == x;
    ReadCapture(seg, [], tail);
    assert [] + seg == seg;
  }

  /** A line without brackets has no segments. */
  lemma NoSegments(tail: string)
    requires '[' !in tail
    ensures Segments(tail) == []
  {
    SkipGap(tail, []);
    assert tail + [] == tail;
  }

  /** `[`-free text, then a `[` that is never closed: no segments. */
  lemma OpenTail(g: string, tail: string)
    requires '[' !in g && ']' !in tail
    ensures Segments(g + "[" + tail) == []
  {
    var t := "[" + tail;
    assert g + "[" + tail == g + t;
    SkipGap(g, t);
    assert t[0] == '[' && t[1..] == tail;
    CaptureOpen(tail, []);
  }

  /** Text whose first `[` is never closed has no segments. */
  lemma UnclosedTail(t: string)
    requires ']' !in t[IndexOf(t, '[')..]
    ensures Segments(t) == []
  {
    var i := IndexOf(t, '[');
    if i == |t| {
      NoSegments(t);
    } else {
      var g, r := t[..i], t[i + 1..];
      assert t == g + "[" + r;
      assert forall j :: 0 <= j < |r| ==> r[j] == t[i..][j + 1];
      OpenTail(g, r);
    }
  }

  /** The scanner returns exactly the bracketed segments, whatever text
      (free of `[`) stands between them; the text after the last segment
      may hold a `[` that is never closed. */
  lemma {:induction false} SegmentsOfBracketed(gaps: seq<string>, segs: seq<string>)
    requires |gaps| == |segs| + 1
    requires forall k :: 0 <= k < |segs| ==> '[' !in gaps[k]
    requires ']' !in gaps[|segs|][IndexOf(gaps[|segs|], '[')..]
    requires forall k :: 0 <= k < |segs| ==> ']' !in segs[k]
    ensures Segments(Bracketed(gaps, segs)) == segs
  {
    if segs == [] {
      UnclosedTail(gaps[0]);
    } else {
      var g, sg := gaps[1..], segs[1..];
      assert forall k :: 0 <= k < |sg| ==> '[' !in g[k] by {
        forall k | 0 <= k < |sg| ensures '[' !in g[k] {
          assert g[k] == gaps[k + 1];
        }
      }
      assert g[|sg|] == gaps[|segs|];
      assert forall k :: 0 <= k < |sg| ==> ']' !in sg[k] by {
        forall k | 0 <= k < |sg| ensures ']' !in sg[k] {
          assert sg[k] == segs[k + 1];
        }
      }
      BracketedStep(gaps, segs);
      SegmentsOfBracketed(g, sg);
      HeadTail(segs);
    }
  }

  lemma BracketedStep(gaps: seq<string>, segs: seq<string>)
    requires |gaps| == |segs| + 1 && segs != []
    requires '[' !in gaps[0] && ']' !in segs[0]
    ensures Segments(Bracketed(gaps, segs)) == [segs[0]] + Segments(Bracketed(gaps[1..], segs[1..]))
  {
    SegmentsStep(gaps[0], segs[0], Bracketed(gaps[1..], segs[1..]));
  }

  /* ---------------- newline_string ---------------- */

  /** `chunks(3)`: consecutive groups of three, the last possibly shorter. */
  function Chunks(ws: seq<string>): (r: seq<seq<string>>)
    ensures |r| == (|ws| + 2) / 3
    ensures forall k :: 0 <= k < |r| ==> r[k] == ws[3 * k .. if 3 * k + 3 <= |ws| then 3 * k + 3 else |ws|]
    decreases |ws|
  {
    if ws == [] then []
    else if |ws| <= 3 then [ws]
    else
      var rest := Chunks(ws[3..]);
      var r := [ws[..3]] + rest;
      assert forall k :: 1 <= k < |r| ==>
               r[k] == ws[3 * k .. if 3 * k + 3 <= |ws| then 3 * k + 3 else |ws|] by {
        forall k | 1 <= k < |r|
          ensures r[k] == ws[3 * k .. if 3 * k + 3 <= |ws| then 3 * k + 3 else |ws|]
        {
          var j := k - 1;
          assert r[k] == rest[j];
          SliceOfDrop(ws, 3, 3 * j, if 3 * j + 3 <= |ws| - 3 then 3 * j + 3 else |ws| - 3);
        }
      }
      r
  }

  /** The text of each output line of a wrapped segment. */
  function JoinEach(cs: seq<seq<string>>): (r: seq<string>)
    ensures |r| == |cs|
    ensures forall k :: 0 <= k < |r| ==> r[k] == Join(cs[k], " ")
  {
    seq(|cs|, k requires 0 <= k < |cs| => Join(cs[k], " "))
  }

  /** Each output line holds exactly the words of its chunk. */
  lemma WordsOfEachLine(cs: seq<seq<string>>)
    requires forall k, j :: 0 <= k < |cs| && 0 <= j < |cs[k]| ==> IsWord(cs[k][j])
    ensures forall k :: 0 <= k < |cs| ==> Words(JoinEach(cs)[k]) == cs[k]
  {
    forall k | 0 <= k < |cs| ensures Words(JoinEach(cs)[k]) == cs[k] {
      WordsJoin(cs[k]);
    }
  }

  lemma WordThenSpaceThenLine(w: string, x: string, rest: string)
    requires IsWord(w)
    ensures Words((w + " " + x) + "\n" + rest) == [w] + Words(x + "\n" + rest)
  {
    assert (w + " " + x) + "\n" + rest == w + [' '] + (x + "\n" + rest);
    WordsWordThenSep(w, ' ', x + "\n" + rest);
  }

  lemma ChunkStep(w: string, more: seq<string>, rest: string)
    requires IsWord(w) && more != []
    requires Words(Join(more, " ") + "\n" + rest) == more + Words(rest)
    ensures Words(Join([w] + more, " ") + "\n" + rest) == ([w] + more) + Words(rest)
  {
    var x := Join(more, " ");
    JoinCons(w, more, " ");
    WordThenSpaceThenLine(w, x, rest);
  }

  lemma {:induction false} WordsOfChunkThenLine(chunk: seq<string>, rest: string)
    requires chunk != [] && forall k :: 0 <= k < |chunk| ==> IsWord(chunk[k])
    ensures Words(Join(chunk, " ") + "\n" + rest) == chunk + Words(rest)
  {
    if |chunk| == 1 {
      var w := chunk[0];
      assert Join(chunk, " ") == w;
      WordsWordThenSep(w, '\n', rest);
      assert w + "\n" + rest == w + ['\n'] + rest;
      assert chunk == [w];
    } else {
      var w, more := chunk[0], chunk[1..];
      assert forall k :: 0 <= k < |more| ==> IsWord(more[k]) by {
        forall k | 0 <= k < |more| ensures IsWord(more[k]) {
          assert more[k] == chunk[k + 1];
        }
      }
      WordsOfChunkThenLine(more, rest);
      ChunkStep(w, more, rest);
      assert [w] + more == chunk;
    }
  }

  /** The words of lines joined by line feeds are the words of the chunks. */
  lemma {:induction false} WordsOfLines(cs: seq<seq<string>>)
    requires forall k :: 0 <= k < |cs| ==> cs[k] != []
    requires forall k, j :: 0 <= k < |cs| && 0 <= j < |cs[k]| ==> IsWord(cs[k][j])
    ensures Words(Join(JoinEach(cs), "\n")) == Flatten(cs)
  {
    if |cs| == 1 {
      WordsJoin(cs[0]);
      assert Flatten(cs) == cs[0] + Flatten(cs[1..]);
      assert cs[0] + [] == cs[0];
    } else if |cs| > 1 {
      var lines := JoinEach(cs);
      assert JoinEach(cs[1..]) == lines[1..];
      WordsOfLines(cs[1..]);
      JoinCons(lines[0], lines[1..], "\n");
      assert [lines[0]] + lines[1..] == lines;
      WordsOfChunkThenLine(cs[0], Join(lines[1..], "\n"));
    }
  }

  lemma {:induction false} FlattenChunks(ws: seq<string>)
    ensures Flatten(Chunks(ws)) == ws
    decreases |ws|
  {
    if |ws| > 3 {
      FlattenChunks(ws[3..]);
      assert ws[..3] + ws[3..] == ws;
    } else if ws != [] {
      assert ws + [] == ws;
    }
  }

  /** The lines one segment is wrapped into: words three at a time, each
      group joined by single spaces. */
  function WrappedLines(s: string): seq<string> {
    JoinEach(Chunks(Words(s)))
  }

  /** One segment as `newline_string` turns it out: its lines joined by
      line feeds.  Wrapping keeps the words and their order. */
  function Wrap(s: string): (r: string)
    ensures Words(r) == Words(s)
  {
    var ws := Words(s);
    var cs := Chunks(ws);
    assert forall k, j :: 0 <= k < |cs| && 0 <= j < |cs[k]| ==> IsWord(cs[k][j]) by {
      forall k, j | 0 <= k < |cs| && 0 <= j < |cs[k]| ensures IsWord(cs[k][j]) {
        assert cs[k][j] == ws[3 * k + j];
      }
    }
    WordsOfLines(cs);
    FlattenChunks(ws);
    Join(WrappedLines(s), "\n")
  }

  /** `newline_string`: one wrapped string per segment, same words. */
  function NewlineString(strings: seq<string>): (r: seq<string>)
    ensures |r| == |strings|
    ensures forall k :: 0 <= k < |r| ==> Words(r[k]) == Words(strings[k])
  {
    seq(|strings|, k requires 0 <= k < |strings| => Wrap(strings[k]))
  }

  /** A wrapped segment, read back line by line: line `k` holds words
      `3k .. 3k+2` of the segment joined by single spaces, every line but the
      last holds exactly three, and a segment without words becomes `""`. */
  lemma WrapLayout(s: string)
    ensures Words(s) == [] ==> Wrap(s) == ""
    ensures Words(s) != [] ==>
              var ws, ls := Words(s), Split(Wrap(s), '\n');
              |ls| == (|ws| + 2) / 3 &&
              (forall k :: 0 <= k < |ls| ==>
                 ls[k] == Join(ws[3 * k .. if 3 * k + 3 <= |ws| then 3 * k + 3 else |ws|], " ")) &&
              (forall k :: 0 <= k < |ls| - 1 ==> |Words(ls[k])| == 3)
  {
    var ws := Words(s);
    if ws != [] {
      var cs := Chunks(ws);
      var lines := WrappedLines(s);
      forall k | 0 <= k < |lines| ensures '\n' !in lines[k] && Words(lines[k]) == cs[k] {
        forall j | 0 <= j < |cs[k]| ensures '\n' !in cs[k][j] && IsWord(cs[k][j]) {
          assert cs[k][j] == ws[3 * k + j];
          assert IsWhitespace('\n');
        }
        JoinAvoids(cs[k], " ", '\n');
        WordsJoin(cs[k]);
      }
      SplitJoin(lines, '\n');
    }
  }

  /** A segment of whitespace only wraps to the empty string. */
  lemma WrapBlank(s: string)
    requires forall k :: 0 <= k < |s| ==> IsWhitespace(s[k])
    ensures Wrap(s) == ""
  {
    WordsEmpty(s);
    WrapLayout(s);
  }

  /* ---------------- create_textbox_string ---------------- */

  /** The longest of the lines, as `map(len).max()` computes it. */
  function MaxLen(ls: seq<string>): (n: nat)
    ensures forall k :: 0 <= k < |ls| ==> |ls[k]| <= n
    ensures ls == [] ==> n == 0
  {
    if ls == [] then 0
    else
      var m := MaxLen(ls[1..]);
      assert forall k :: 1 <= k < |ls| ==> ls[k] == ls[1..][k - 1];
      if |ls[0]| >= m then |ls[0]| else m
  }

  /** The maximum is the length of one of the lines. */
  lemma {:induction false} MaxLenAttained(ls: seq<string>)
    requires ls != []
    ensures exists k :: 0 <= k < |ls| && |ls[k]| == MaxLen(ls)
  {
    if |ls| > 1 && |ls[0]| < MaxLen(ls[1..]) {
      MaxLenAttained(ls[1..]);
      var k :| 0 <= k < |ls[1..]| && |ls[1..][k]| == MaxLen(ls[1..]);
      assert ls[k + 1] == ls[1..][k];
      assert |ls[k + 1]| == MaxLen(ls);
    } else {
      assert |ls[0]| == MaxLen(ls);
    }
  }

  /** Top and bottom border of a box whose text is `n` wide. */
  function Border(n: nat): (b: string)
    ensures |b| == n + 4 && b[0] == '+' && b[n + 3] == '+'
    ensures forall j :: 1 <= j < n + 3 ==> b[j] == '-'
  {
    "+" + Repeat('-', n + 2) + "+"
  }

  /** A content row: the text after `| `, padded with spaces to `n`. */
  function Row(s: string, n: nat): (r: string)
    requires |s| <= n
    ensures |r| == n + 4
  {
    "| " + s + Repeat(' ', n - |s|) + " |"
  }

  function Rows(ls: seq<string>, n: nat): (r: seq<string>)
    requires forall k :: 0 <= k < |ls| ==> |ls[k]| <= n
    ensures |r| == |ls|
    ensures forall k :: 0 <= k < |ls| ==> r[k] == Row(ls[k], n)
  {
    seq(|ls|, k requires 0 <= k < |ls| => Row(ls[k], n))
  }

  /** The lines of the box drawn around the text lines `ls`. */
  function BoxLines(ls: seq<string>): (r: seq<string>)
    ensures |r| == |ls| + 2
    ensures forall k :: 0 <= k < |r| ==> |r[k]| == MaxLen(ls) + 4
    ensures r[0] == r[|r| - 1] == Border(MaxLen(ls))
    ensures forall k :: 0 <= k < |ls| ==> r[k + 1] == Row(ls[k], MaxLen(ls))
  {
    var n := MaxLen(ls);
    [Border(n)] + Rows(ls, n) + [Border(n)]
  }

  /** What `create_textbox_string` makes of one string: the box lines joined
      by line feeds, without a final one. */
  function BoxText(text: string): string {
    Join(BoxLines(Split(text, '\n')), "\n")
  }

  /** A content row reads, column by column: the bar and a space, the text,
      spaces up to the common width, a space and the bar. */
  lemma RowLayout(s: string, n: nat)
    requires |s| <= n
    ensures |Row(s, n)| == n + 4
    ensures Row(s, n)[..2] == "| " && Row(s, n)[n + 2..] == " |"
    ensures Row(s, n)[2..2 + |s|] == s
    ensures forall j :: 2 + |s| <= j < n + 2 ==> Row(s, n)[j] == ' '
  {
  }

  lemma BorderAvoidsNewline(n: nat)
    ensures '\n' !in Border(n)
  {
    var b := Border(n);
    forall j | 0 <= j < |b| ensures b[j] != '\n' {
    }
  }

  lemma RowAvoidsNewline(s: string, n: nat)
    requires |s| <= n && '\n' !in s
    ensures '\n' !in Row(s, n)
  {
    var r := Row(s, n);
    RowLayout(s, n);
    forall j | 0 <= j < |r| ensures r[j] != '\n' {
      if 2 <= j < 2 + |s| {
        assert r[j] == r[2..2 + |s|][j - 2] == s[j - 2];
      } else if j < 2 {
        assert r[j] == r[..2][j];
      } else if j >= n + 2 {
        assert r[j] == r[n + 2..][j - n - 2];
      }
    }
  }

  /** The box text splits back into its lines: the rows `box_to_file`
      recovers with `split('\n')` are the box's lines. */
  lemma BoxTextLines(text: string)
    ensures Split(BoxText(text), '\n') == BoxLines(Split(text, '\n'))
  {
    var ls := Split(text, '\n');
    var n := MaxLen(ls);
    var r := BoxLines(ls);
    forall k | 0 <= k < |r| ensures '\n' !in r[k] {
      if k == 0 || k == |r| - 1 {
        BorderAvoidsNewline(n);
      } else {
        assert r[k] == Row(ls[k - 1], n);
        RowAvoidsNewline(ls[k - 1], n);
      }
    }
    SplitJoin(r, '\n');
  }

  lemma RowsSnoc(ls: seq<string>, i: nat, n: nat)
    requires i < |ls|
    requires forall k :: 0 <= k < |ls| ==> |ls[k]| <= n
    ensures Rows(ls[..i + 1], n) == Rows(ls[..i], n) + [Row(ls[i], n)]
  {
  }

  /** The text one row appends, line feed included. */
  lemma RowLine(s: string, n: nat)
    requires |s| <= n
    ensures "| " + s + Repeat(' ', n - |s|) + " |\n" == Row(s, n) + "\n"
  {
  }

  /** The border with its line feed, and with the line feed trimmed. */
  lemma BorderLine(n: nat)
    ensures "+" + Repeat('-', n + 2) + "+\n" == Border(n) + "\n"
    ensures TrimEnd(Border(n) + "\n") == Border(n)
  {
    var b := Border(n);
    assert (b + "\n")[..|b|] == b;
    assert b[|b| - 1] == '+';
    assert TrailingWhitespace(b) == 0;
    assert TrailingWhitespace(b + "\n") == 1;
  }

  /** A box is the border and a line feed, each row and a line feed, and
      the border again. */
  lemma BoxTextParts(text: string)
    ensures var ls := Split(text, '\n');
            var n := MaxLen(ls);
            BoxText(text) == Border(n) + "\n" + Terminated(Rows(ls, n)) + Border(n)
  {
    var ls := Split(text, '\n');
    var n := MaxLen(ls);
    var top := [Border(n)] + Rows(ls, n);
    TerminatedThenLast(top, Border(n));
    DropFirst(top, 0);
  }

  /** One box, built as the source does: border, rows pushed one by one,
      and the border again without its line feed. */
  method BuildBox(text: string) returns (b: string)
    ensures b == BoxText(text)
  {
    var pieces := Split(text, '\n');
    var n := MaxLen(pieces);
    var border := "+" + Repeat('-', n + 2) + "+\n";
    var sBox := "";
    for i := 0 to |pieces|
      invariant sBox == Terminated(Rows(pieces[..i], n))
    {
      var s := pieces[i];
      RowsSnoc(pieces, i, n);
      TerminatedSnoc(Rows(pieces[..i], n), Row(s, n));
      RowLine(s, n);
      sBox := sBox + ("| " + s + Repeat(' ', n - |s|) + " |\n");
    }
    TakeAll(pieces);
    BorderLine(n);
    BoxTextParts(text);
    b := border + sBox + TrimEnd(border);
  }

  /** `create_textbox_string`: one box per input string, in order. */
  method CreateTextboxString(strings: seq<string>) returns (boxes: seq<string>)
    ensures |boxes| == |strings|
    ensures forall k :: 0 <= k < |boxes| ==> boxes[k] == BoxText(strings[k])
  {
    ghost var all := seq(|strings|, k requires 0 <= k < |strings| => BoxText(strings[k]));
    boxes := [];
    for i := 0 to |strings|
      invariant boxes == all[..i]
    {
      var b := BuildBox(strings[i]);
      TakeSnoc(all, i);
      boxes := boxes + [b];
    }
    TakeAll(all);
  }

  /* ---------------- box_to_file (rows, without the file) ---------------- */

  /** Each box split back into its lines. */
  function SplitLines(textboxes: seq<string>): (sb: seq<seq<string>>)
    ensures |sb| == |textboxes|
    ensures forall k :: 0 <= k < |sb| ==> sb[k] == Split(textboxes[k], '\n')
  {
    seq(|textboxes|, k requires 0 <= k < |textboxes| => Split(textboxes[k], '\n'))
  }

  predicate AllNonempty(sb: seq<seq<string>>) {
    forall k :: 0 <= k < |sb| ==> |sb[k]| >= 1
  }

  /** The largest number of lines among the boxes, 0 when there are none. */
  function MaxRows(sb: seq<seq<string>>): (m: nat)
    ensures forall k :: 0 <= k < |sb| ==> |sb[k]| <= m
    ensures sb == [] ==> m == 0
  {
    if sb == [] then 0
    else
      var m := MaxRows(sb[1..]);
      assert forall k :: 1 <= k < |sb| ==> sb[k] == sb[1..][k - 1];
      if |sb[0]| >= m then |sb[0]| else m
  }

  /** The tallest box sets the number of rows. */
  lemma {:induction false} MaxRowsAttained(sb: seq<seq<string>>)
    requires sb != []
    ensures exists k :: 0 <= k < |sb| && |sb[k]| == MaxRows(sb)
  {
    if |sb| > 1 && |sb[0]| < MaxRows(sb[1..]) {
      MaxRowsAttained(sb[1..]);
      var k :| 0 <= k < |sb[1..]| && |sb[1..][k]| == MaxRows(sb[1..]);
      assert sb[k + 1] == sb[1..][k];
      assert |sb[k + 1]| == MaxRows(sb);
    } else {
      assert |sb[0]| == MaxRows(sb);
    }
  }

  /** What one box contributes to row `i`: its own line `i`, or, past its
      last line, as many spaces as its first line is long. */
  function Cell(lines: seq<string>, i: nat): (c: string)
    requires |lines| >= 1
    ensures (forall k :: 0 <= k < |lines| ==> |lines[k]| == |lines[0]|) ==> |c| == |lines[0]|
  {
    if i < |lines| then lines[i] else Repeat(' ', |lines[0]|)
  }

  function Cells(sb: seq<seq<string>>, i: nat): (r: seq<string>)
    requires AllNonempty(sb)
    ensures |r| == |sb|
    ensures forall k :: 0 <= k < |sb| ==> r[k] == Cell(sb[k], i)
    ensures forall k :: 0 <= k < |sb| && i < |sb[k]| ==> r[k] == sb[k][i]
    ensures forall k :: 0 <= k < |sb| && |sb[k]| <= i ==> r[k] == Repeat(' ', |sb[k][0]|)
  {
    seq(|sb|, k requires 0 <= k < |sb| => Cell(sb[k], i))
  }

  /** Row `i` of the combined block: the boxes' cells joined by one space. */
  function CombinedRow(sb: seq<seq<string>>, i: nat): string
    requires AllNonempty(sb)
  {
    Join(Cells(sb, i), " ")
  }

  /** The combined block: one row per line of the tallest box. */
  function CombinedRows(sb: seq<seq<string>>): (r: seq<string>)
    requires AllNonempty(sb)
    ensures |r| == MaxRows(sb)
    ensures forall i :: 0 <= i < |r| ==> r[i] == CombinedRow(sb, i)
  {
    seq(MaxRows(sb), i requires 0 <= i < MaxRows(sb) => CombinedRow(sb, i))
  }

  /** The loop of `box_to_file`, with each `writeln!` collected as a row
      (the file receives every row followed by a line feed). */
  method BoxRows(textboxes: seq<string>) returns (rows: seq<string>)
    ensures rows == CombinedRows(SplitLines(textboxes))
  {
    var splitBoxes := SplitLines(textboxes);
    var maxLen := MaxRows(splitBoxes);
    rows := [];
    for i := 0 to maxLen
      invariant |rows| == i
      invariant forall j :: 0 <= j < i ==> rows[j] == CombinedRow(splitBoxes, j)
    {
      var line := Join(Cells(splitBoxes, i), " ");
      rows := rows + [line];
    }
  }

  /** Sum of the lengths of the strings. */
  function SumLen(xs: seq<string>): nat {
    if xs == [] then 0 else |xs[0]| + SumLen(xs[1..])
  }

  lemma {:induction false} JoinLength(xs: seq<string>, sep: string)
    requires xs != []
    ensures |Join(xs, sep)| == SumLen(xs) + (|xs| - 1) * |sep|
  {
    if |xs| > 1 {
      JoinLength(xs[1..], sep);
    }
  }

  lemma {:induction false} SumLenPointwise(xs: seq<string>, ys: seq<string>)
    requires |xs| == |ys|
    requires forall k :: 0 <= k < |xs| ==> |xs[k]| == |ys[k]|
    ensures SumLen(xs) == SumLen(ys)
  {
    if xs != [] {
      SumLenPointwise(xs[1..], ys[1..]);
    }
  }

  /** The first line of every box. */
  function Tops(sb: seq<seq<string>>): (r: seq<string>)
    requires AllNonempty(sb)
    ensures |r| == |sb|
    ensures forall k :: 0 <= k < |sb| ==> r[k] == sb[k][0]
  {
    seq(|sb|, k requires 0 <= k < |sb| => sb[k][0])
  }

  /** Every line of every box as long as that box's first line. */
  predicate Uniform(sb: seq<seq<string>>)
    requires AllNonempty(sb)
  {
    forall k, j :: 0 <= k < |sb| && 0 <= j < |sb[k]| ==> |sb[k][j]| == |sb[k][0]|
  }

  /** When each box is a rectangle, every combined row has the same length:
      the boxes' widths plus one separating space between neighbours. */
  lemma CombinedRowLength(sb: seq<seq<string>>, i: nat)
    requires AllNonempty(sb) && sb != [] && Uniform(sb)
    ensures |CombinedRow(sb, i)| == SumLen(Tops(sb)) + |sb| - 1
  {
    var cells := Cells(sb, i);
    JoinLength(cells, " ");
    SumLenPointwise(cells, Tops(sb));
  }

  /* ---------------- draw_texbox and render_box ---------------- */

  /** Everything one directive line is drawn as. */
  function DrawnRows(line: string): seq<string> {
    var wrapped := NewlineString(Segments(line));
    var boxes := seq(|wrapped|, k requires 0 <= k < |wrapped| => BoxText(wrapped[k]));
    CombinedRows(SplitLines(boxes))
  }

  /** The rows drawn for a line form a rectangle: each box's lines keep
      one width, so every combined row has the same length. */
  lemma DrawnRowsRectangular(line: string)
    ensures forall i, j :: 0 <= i < |DrawnRows(line)| && 0 <= j < |DrawnRows(line)| ==>
              |DrawnRows(line)[i]| == |DrawnRows(line)[j]|
  {
    var wrapped := NewlineString(Segments(line));
    var boxes := seq(|wrapped|, k requires 0 <= k < |wrapped| => BoxText(wrapped[k]));
    var sb := SplitLines(boxes);
    BoxesUniform(wrapped, boxes);
    if sb != [] {
      forall i | 0 <= i < MaxRows(sb) ensures |CombinedRow(sb, i)| == SumLen(Tops(sb)) + |sb| - 1 {
        CombinedRowLength(sb, i);
      }
    }
  }

  /** Boxes drawn from text are rectangles. */
  lemma BoxesUniform(wrapped: seq<string>, boxes: seq<string>)
    requires |boxes| == |wrapped| && forall k :: 0 <= k < |boxes| ==> boxes[k] == BoxText(wrapped[k])
    ensures AllNonempty(SplitLines(boxes)) && Uniform(SplitLines(boxes))
  {
    var sb := SplitLines(boxes);
    forall k | 0 <= k < |sb| ensures sb[k] == BoxLines(Split(wrapped[k], '\n')) {
      BoxTextLines(wrapped[k]);
    }
  }

  /** `draw_texbox`: extract, wrap, box, and combine the boxes of one line. */
  method DrawTextbox(cmdLine: string) returns (rows: seq<string>)
    ensures rows == DrawnRows(cmdLine)
  {
    var texts := Segments(cmdLine);
    var newlineSplitted := NewlineString(texts);
    var textboxes := CreateTextboxString(newlineSplitted);
    assert textboxes == seq(|newlineSplitted|, k requires 0 <= k < |newlineSplitted| => BoxText(newlineSplitted[k]));
    rows := BoxRows(textboxes);
  }

  /** The rows drawn for the first `i` buffer lines, in order. */
  function RenderedRows(directiveCmd: seq<string>, i: nat): seq<string>
    requires i <= |directiveCmd|
  {
    if i == 0 then [] else RenderedRows(directiveCmd, i - 1) + DrawnRows(directiveCmd[i - 1])
  }

  /** `render_box`: draws buffer lines `0 .. n-2`, leaving out the final
      `@@end` line.  The buffer has at least that line: with an empty buffer
      `n - 1` underflows. */
  method RenderBox(directiveCmd: seq<string>) returns (rows: seq<string>)
    requires |directiveCmd| >= 1
    ensures rows == RenderedRows(directiveCmd, |directiveCmd| - 1)
  {
    var n := |directiveCmd|;
    rows := [];
    for i := 0 to n - 1
      invariant rows == RenderedRows(directiveCmd, i)
    {
      var drawn := DrawTextbox(directiveCmd[i]);
      rows := rows + drawn;
    }
  }

  /* ---------------- the unit tests at the end of `src/textbox.rs` ---------------- */

  /** Two bracketed segments, then text without brackets. */
  lemma TwoSegments(g1: string, s1: string, g2: string, s2: string, tail: string)
    requires '[' !in g1 && '[' !in g2 && '[' !in tail && ']' !in s1 && ']' !in s2
    ensures Segments(g1 + "[" + s1 + "]" + (g2 + "[" + s2 + "]" + tail)) == [s1, s2]
  {
    var second := g2 + "[" + s2 + "]" + tail;
    SegmentsStep(g1, s1, second);
    SegmentsStep(g2, s2, tail);
    NoSegments(tail);
  }

  /** An unclosed `[` after the last segment starts no segment. */
  lemma OpenAfterSegment(g: string, seg: string, g2: string, tail: string)
    requires '[' !in g && ']' !in seg && '[' !in g2 && ']' !in tail
    ensures Segments(g + "[" + seg + "]" + (g2 + "[" + tail)) == [seg]
  {
    SegmentsStep(g, seg, g2 + "[" + tail);
    OpenTail(g2, tail);
  }

  lemma SegmentsUnclosed()
    ensures Segments("[a] [b") == ["a"]
  {
    assert "[a] [b" == "" + "[" + "a" + "]" + (" " + "[" + "b");
    OpenAfterSegment("", "a", " ", "b");
  }

  lemma SegmentsHelloWorld()
    ensures Segments("[hello] [world]") == ["hello", "world"]
  {
    assert "[hello] [world]" == "" + "[" + "hello" + "]" + (" " + "[" + "world" + "]" + "");
    TwoSegments("", "hello", " ", "world", "");
  }

  lemma SegmentsBoxyRandom()
    ensures Segments("[boxy] [boxy] random") == ["boxy", "boxy"]
  {
    assert "[boxy] [boxy] random" == "" + "[" + "boxy" + "]" + (" " + "[" + "boxy" + "]" + " random");
    TwoSegments("", "boxy", " ", "boxy", " random");
  }

  lemma Join3(a: string, b: string, c: string, sep: string)
    ensures Join([a, b, c], sep) == a + sep + b + sep + c
  {
    JoinSnoc([a], b, sep);
    assert [a] + [b] == [a, b];
    JoinSnoc([a, b], c, sep);
    assert [a, b] + [c] == [a, b, c];
  }

  /** The box around a single line of text. */
  lemma OneLineBox(s: string)
    requires '\n' !in s
    ensures BoxText(s) == Border(|s|) + "\n" + Row(s, |s|) + "\n" + Border(|s|)
  {
    SplitNoSep(s, '\n');
    assert MaxLen([s]) == |s|;
    var ls := BoxLines([s]);
    assert ls == [Border(|s|), Row(s, |s|), Border(|s|)];
    Join3(Border(|s|), Row(s, |s|), Border(|s|), "\n");
  }

  lemma FiveWide()
    ensures Border(5) == "+-------+"
  {
    assert Repeat('-', 7) == "-------";
  }

  lemma RowHello()
    ensures Row("hello", 5) == "| hello |"
  {
    assert Repeat(' ', 0) == "";
  }

  lemma RowWorld()
    ensures Row("world", 5) == "| world |"
  {
    assert Repeat(' ', 0) == "";
  }

  lemma BoxHello()
    ensures BoxText("hello") == "+-------+" + "\n" + "| hello |" + "\n" + "+-------+"
  {
    OneLineBox("hello");
    assert |"hello"| == 5;
    FiveWide();
    RowHello();
  }

  lemma BoxWorld()
    ensures BoxText("world") == "+-------+" + "\n" + "| world |" + "\n" + "+-------+"
  {
    OneLineBox("world");
    assert |"world"| == 5;
    FiveWide();
    RowWorld();
  }

  lemma Join5(a: string, b: string, c: string, d: string, e: string, sep: string)
    ensures Join([a, b, c, d, e], sep) == a + sep + b + sep + c + sep + d + sep + e
  {
    Join3(a, b, c, sep);
    JoinSnoc([a, b, c], d, sep);
    assert [a, b, c] + [d] == [a, b, c, d];
    JoinSnoc([a, b, c, d], e, sep);
    assert [a, b, c, d] + [e] == [a, b, c, d, e];
  }

  /** The box around three lines of text, all as wide as the widest. */
  lemma ThreeLineBox(a: string, b: string, c: string)
    requires '\n' !in a && '\n' !in b && '\n' !in c
    ensures var n := MaxLen([a, b, c]);
            |a| <= n && |b| <= n && |c| <= n &&
            BoxText(a + "\n" + b + "\n" + c) ==
            Border(n) + "\n" + Row(a, n) + "\n" + Row(b, n) + "\n" + Row(c, n) + "\n" + Border(n)
  {
    var n := MaxLen([a, b, c]);
    assert |[a, b, c][0]| <= n && |[a, b, c][1]| <= n && |[a, b, c][2]| <= n;
    Join3(a, b, c, "\n");
    SplitJoin([a, b, c], '\n');
    assert BoxLines([a, b, c]) == [Border(n), Row(a, n), Row(b, n), Row(c, n), Border(n)];
    Join5(Border(n), Row(a, n), Row(b, n), Row(c, n), Border(n), "\n");
  }

  lemma NineWide()
    ensures MaxLen(["multiline", "string", "here"]) == 9
    ensures Border(9) == "+-----------+"
    ensures Row("multiline", 9) == "| multiline |"
    ensures Row("string", 9) == "| string    |"
    ensures Row("here", 9) == "| here      |"
  {
    assert ["multiline", "string", "here"][1..] == ["string", "here"];
    assert ["string", "here"][1..] == ["here"];
    assert Repeat('-', 11) == "-----------";
    assert Repeat(' ', 0) == "";
    assert Repeat(' ', 3) == "   ";
    assert Repeat(' ', 5) == "     ";
  }

  lemma BoxMultiline()
    ensures BoxText("multiline\nstring\nhere") ==
            "+-----------+" + "\n" + "| multiline |" + "\n" + "| string    |" + "\n" + "| here      |" + "\n" + "+-----------+"
  {
    assert "multiline\nstring\nhere" == "multiline" + "\n" + "string" + "\n" + "here";
    ThreeLineBox("multiline", "string", "here");
    NineWide();
  }

  /* ---------------- the examples in the header of `src/textbox.rs` ---------------- */

  /** A single word is wrapped into itself. */
  lemma WrapWord(w: string)
    requires IsWord(w)
    ensures Wrap(w) == w
  {
    WordsOfWord(w);
    assert Chunks([w]) == [[w]];
    assert JoinEach([[w]]) == [w];
  }

  /** The three lines of the box around one word. */
  lemma WordBoxLines(w: string)
    requires IsWord(w)
    ensures Split(BoxText(w), '\n') == [Border(|w|), Row(w, |w|), Border(|w|)]
  {
    assert IsWhitespace('\n');
    assert '\n' !in w;
    BoxTextLines(w);
    SplitNoSep(w, '\n');
    assert MaxLen([w]) == |w|;
  }

  /** Two boxes of three lines each, combined row by row. */
  lemma CombineTwo(b1: seq<string>, b2: seq<string>)
    requires |b1| == 3 && |b2| == 3
    ensures AllNonempty([b1, b2])
    ensures CombinedRows([b1, b2]) == [b1[0] + " " + b2[0], b1[1] + " " + b2[1], b1[2] + " " + b2[2]]
  {
    var sb := [b1, b2];
    assert MaxRows(sb) == 3 by {
      assert sb[1..] == [b2];
    }
    forall i | 0 <= i < 3 ensures CombinedRow(sb, i) == b1[i] + " " + b2[i] {
      assert Cells(sb, i) == [b1[i], b2[i]];
      JoinSnoc([b1[i]], b2[i], " ");
      assert [b1[i]] + [b2[i]] == [b1[i], b2[i]];
    }
  }

  lemma SegmentsOfTwo(w1: string, w2: string)
    requires ']' !in w1 && ']' !in w2
    ensures Segments("[" + w1 + "] [" + w2 + "]") == [w1, w2]
  {
    assert "[" + w1 + "] [" + w2 + "]" == "" + "[" + w1 + "]" + (" " + "[" + w2 + "]" + "");
    TwoSegments("", w1, " ", w2, "");
  }

  lemma WrapTwo(w1: string, w2: string)
    requires IsWord(w1) && IsWord(w2)
    ensures NewlineString([w1, w2]) == [w1, w2]
  {
    WrapWord(w1);
    WrapWord(w2);
  }

  /** The boxes drawn for a line are those of its wrapped segments. */
  lemma DrawnRowsOf(line: string, wrapped: seq<string>, boxes: seq<string>)
    requires NewlineString(Segments(line)) == wrapped
    requires |boxes| == |wrapped| && forall k :: 0 <= k < |boxes| ==> boxes[k] == BoxText(wrapped[k])
    ensures DrawnRows(line) == CombinedRows(SplitLines(boxes))
  {
    assert boxes == seq(|wrapped|, k requires 0 <= k < |wrapped| => BoxText(wrapped[k]));
  }

  /** The segments of `[w1] [w2]`, wrapped and boxed. */
  lemma TwoWordBoxes(w1: string, w2: string)
    requires IsWord(w1) && IsWord(w2) && ']' !in w1 && ']' !in w2
    ensures DrawnRows("[" + w1 + "] [" + w2 + "]") == CombinedRows(SplitLines([BoxText(w1), BoxText(w2)]))
  {
    SegmentsOfTwo(w1, w2);
    WrapTwo(w1, w2);
    DrawnRowsOf("[" + w1 + "] [" + w2 + "]", [w1, w2], [BoxText(w1), BoxText(w2)]);
  }

  /** Two one-word segments are drawn as two boxes side by side, one space
      apart. */
  lemma SideBySide(w1: string, w2: string)
    requires IsWord(w1) && IsWord(w2) && ']' !in w1 && ']' !in w2
    ensures DrawnRows("[" + w1 + "] [" + w2 + "]") ==
            [Border(|w1|) + " " + Border(|w2|), Row(w1, |w1|) + " " + Row(w2, |w2|), Border(|w1|) + " " + Border(|w2|)]
  {
    TwoWordBoxes(w1, w2);
    WordBoxLines(w1);
    WordBoxLines(w2);
    var b1, b2 := [Border(|w1|), Row(w1, |w1|), Border(|w1|)], [Border(|w2|), Row(w2, |w2|), Border(|w2|)];
    assert SplitLines([BoxText(w1), BoxText(w2)]) == [b1, b2];
    CombineTwo(b1, b2);
  }

  lemma RowHelloCap()
    ensures Row("Hello", 5) == "| Hello |"
  {
    assert Repeat(' ', 0) == "";
  }

  lemma RowWorldCap()
    ensures Row("World", 5) == "| World |"
  {
    assert Repeat(' ', 0) == "";
  }

  /** `[Hello] [World]` draws as two boxes separated by a single space. */
  lemma DrawnHelloWorld()
    ensures DrawnRows("[Hello] [World]") ==
            ["+-------+" + " " + "+-------+", "| Hello |" + " " + "| World |", "+-------+" + " " + "+-------+"]
  {
    assert "[Hello] [World]" == "[" + "Hello" + "] [" + "World" + "]";
    assert IsWord("Hello") && IsWord("World");
    SideBySide("Hello", "World");
    FiveWide();
    RowHelloCap();
    RowWorldCap();
  }

  lemma SegmentsOfOne(s: string)
    requires ']' !in s
    ensures Segments("[" + s + "]") == [s]
  {
    assert "[" + s + "]" == "" + "[" + s + "]" + "";
    SegmentsStep("", s, "");
    NoSegments("");
  }

  /** An empty pair of brackets yields an empty segment. */
  lemma EmptyBracket()
    ensures Segments("[]") == [""]
  {
    SegmentsOfOne("");
    assert "[" + "" + "]" == "[]";
  }

  /** An empty segment still draws a box: two dashes wide, with one row of
      two spaces. */
  lemma EmptySegmentBox()
    ensures BoxText("") == "+--+" + "\n" + "|  |" + "\n" + "+--+"
  {
    OneLineBox("");
    EmptyBorder();
    EmptyRow();
  }

  lemma EmptyBorder() ensures Border(0) == "+--+" {
    assert Repeat('-', 2) == "--";
  }

  lemma EmptyRow() ensures Row("", 0) == "|  |" {
    assert Repeat(' ', 0) == "";
  }

  /** A single box is its own combined block. */
  lemma CombineOne(b: seq<string>)
    requires |b| >= 1
    ensures AllNonempty([b])
    ensures CombinedRows([b]) == b
  {
    forall i | 0 <= i < |b| ensures CombinedRow([b], i) == b[i] {
      assert Cells([b], i) == [b[i]];
    }
  }

  /** A line holding one segment draws as the box around its wrapped text. */
  lemma OneSegmentRows(s: string)
    requires ']' !in s
    ensures DrawnRows("[" + s + "]") == BoxLines(Split(Wrap(s), '\n'))
  {
    var w := Wrap(s);
    SegmentsOfOne(s);
    assert NewlineString([s]) == [w];
    DrawnRowsOf("[" + s + "]", [w], [BoxText(w)]);
    BoxTextLines(w);
    var b := BoxLines(Split(w, '\n'));
    assert SplitLines([BoxText(w)]) == [b];
    CombineOne(b);
  }

  /** Seven to nine words wrap into lines of three, three and the rest. */
  lemma WrapThreeGroups(g1: seq<string>, g2: seq<string>, g3: seq<string>)
    requires |g1| == 3 && |g2| == 3 && 1 <= |g3| <= 3
    requires forall k :: 0 <= k < |g1 + g2 + g3| ==> IsWord((g1 + g2 + g3)[k])
    ensures Wrap(Join(g1 + g2 + g3, " ")) == Join(g1, " ") + "\n" + Join(g2, " ") + "\n" + Join(g3, " ")
  {
    var ws := g1 + g2 + g3;
    WordsJoin(ws);
    var cs := Chunks(ws);
    assert cs == [g1, g2, g3] by {
      assert |cs| == 3;
      assert cs[0] == ws[0..3] == g1;
      assert cs[1] == ws[3..6] == g2;
      assert cs[2] == ws[6..|ws|] == g3;
    }
    assert JoinEach(cs) == [Join(g1, " "), Join(g2, " "), Join(g3, " ")];
    Join3(Join(g1, " "), Join(g2, " "), Join(g3, " "), "\n");
  }

  lemma JoinGroups(g1: seq<string>, g2: seq<string>, g3: seq<string>, sep: string)
    requires g1 != [] && g2 != [] && g3 != []
    ensures Join(g1 + g2 + g3, sep) == Join(g1, sep) + sep + Join(g2, sep) + sep + Join(g3, sep)
  {
    JoinConcat(g1, g2, sep);
    JoinConcat(g1 + g2, g3, sep);
  }

  /** "An idiot admires complexity, a genius admires simplicity", spelt as
      the three lines it wraps into, joined by spaces. */
  const Sentence: string := "An idiot admires" + " " + "complexity, a genius" + " " + "admires simplicity"

  lemma SentenceGroup1() ensures Join(["An", "idiot", "admires"], " ") == "An idiot admires" {
    Join3("An", "idiot", "admires", " ");
  }

  lemma SentenceGroup2() ensures Join(["complexity,", "a", "genius"], " ") == "complexity, a genius" {
    Join3("complexity,", "a", "genius", " ");
  }

  lemma SentenceGroup3() ensures Join(["admires", "simplicity"], " ") == "admires simplicity" {
    assert ["admires", "simplicity"][1..] == ["simplicity"];
  }

  lemma SentenceWords()
    ensures Sentence == Join(["An", "idiot", "admires"] + ["complexity,", "a", "genius"] + ["admires", "simplicity"], " ")
    ensures Join(["An", "idiot", "admires"], " ") == "An idiot admires"
    ensures Join(["complexity,", "a", "genius"], " ") == "complexity, a genius"
    ensures Join(["admires", "simplicity"], " ") == "admires simplicity"
  {
    JoinGroups(["An", "idiot", "admires"], ["complexity,", "a", "genius"], ["admires", "simplicity"], " ");
    SentenceGroup1();
    SentenceGroup2();
    SentenceGroup3();
  }

  lemma WrapSentence()
    ensures Wrap(Sentence) == "An idiot admires" + "\n" + "complexity, a genius" + "\n" + "admires simplicity"
  {
    SentenceWords();
    var g1, g2, g3 := ["An", "idiot", "admires"], ["complexity,", "a", "genius"], ["admires", "simplicity"];
    var ws := g1 + g2 + g3;
    assert forall k :: 0 <= k < |ws| ==> IsWord(ws[k]) by {
      assert ws == ["An", "idiot", "admires", "complexity,", "a", "genius", "admires", "simplicity"];
    }
    WrapThreeGroups(g1, g2, g3);
  }

  lemma SentenceWidth()
    ensures MaxLen(["An idiot admires", "complexity, a genius", "admires simplicity"]) == 20
  {
    assert ["An idiot admires", "complexity, a genius", "admires simplicity"][1..] ==
           ["complexity, a genius", "admires simplicity"];
    assert ["complexity, a genius", "admires simplicity"][1..] == ["admires simplicity"];
  }

  lemma SentenceBorder() ensures Border(20) == "+----------------------+" {
    assert Repeat('-', 22) == "----------------------";
  }

  lemma SentenceRow1() ensures Row("An idiot admires", 20) == "| An idiot admires     |" {
    assert Repeat(' ', 4) == "    ";
  }

  lemma SentenceRow2() ensures Row("complexity, a genius", 20) == "| complexity, a genius |" {
    assert Repeat(' ', 0) == "";
  }

  lemma SentenceRow3() ensures Row("admires simplicity", 20) == "| admires simplicity   |" {
    assert Repeat(' ', 2) == "  ";
  }

  lemma SentenceLinesSingle()
    ensures '\n' !in "An idiot admires"
    ensures '\n' !in "complexity, a genius"
    ensures '\n' !in "admires simplicity"
  {
  }

  lemma SentenceLines()
    ensures Split(Wrap(Sentence), '\n') == ["An idiot admires", "complexity, a genius", "admires simplicity"]
  {
    var ls := ["An idiot admires", "complexity, a genius", "admires simplicity"];
    WrapSentence();
    Join3(ls[0], ls[1], ls[2], "\n");
    SentenceLinesSingle();
    assert forall k :: 0 <= k < |ls| ==> '\n' !in ls[k];
    SplitJoin(ls, '\n');
  }

  lemma SentenceBox()
    ensures BoxLines(["An idiot admires", "complexity, a genius", "admires simplicity"]) ==
            ["+----------------------+",
             "| An idiot admires     |",
             "| complexity, a genius |",
             "| admires simplicity   |",
             "+----------------------+"]
  {
    SentenceWidth();
    SentenceBorder();
    SentenceRow1();
    SentenceRow2();
    SentenceRow3();
  }

  /** The long sentence of the header is drawn as one box of three wrapped
      lines. */
  lemma DrawnSentence()
    ensures DrawnRows("[" + Sentence + "]") ==
            ["+----------------------+",
             "| An idiot admires     |",
             "| complexity, a genius |",
             "| admires simplicity   |",
             "+----------------------+"]
  {
    OneSegmentRows(Sentence);
    SentenceLines();
    SentenceBox();
  }

  /** A line holding one bracketed word draws as the three lines of its box. */
  lemma OneWordRows(w: string)
    requires IsWord(w) && ']' !in w
    ensures DrawnRows("[" + w + "]") == [Border(|w|), Row(w, |w|), Border(|w|)]
  {
    OneSegmentRows(w);
    WordWrapLines(w);
    assert MaxLen([w]) == |w|;
  }

  lemma WordWrapLines(w: string)
    requires IsWord(w)
    ensures Split(Wrap(w), '\n') == [w]
  {
    WrapWord(w);
    assert IsWhitespace('\n');
    SplitNoSep(w, '\n');
  }

  lemma GoodBox() ensures Border(4) == "+------+" && Row("Good", 4) == "| Good |" {
    assert Repeat('-', 6) == "------";
    assert Repeat(' ', 0) == "";
  }

  lemma MorningBox() ensures Border(7) == "+---------+" && Row("Morning", 7) == "| Morning |" {
    assert Repeat('-', 9) == "---------";
    assert Repeat(' ', 0) == "";
  }

  lemma GoodRows()
    ensures DrawnRows("[Good]") == ["+------+", "| Good |", "+------+"]
  {
    assert "[Good]" == "[" + "Good" + "]";
    assert IsWord("Good");
    OneWordRows("Good");
    GoodBox();
  }

  lemma MorningRows()
    ensures DrawnRows("[Morning]") == ["+---------+", "| Morning |", "+---------+"]
  {
    assert "[Morning]" == "[" + "Morning" + "]";
    assert IsWord("Morning");
    OneWordRows("Morning");
    MorningBox();
  }

  lemma RenderedTwo(buf: seq<string>)
    requires |buf| >= 2
    ensures RenderedRows(buf, 2) == DrawnRows(buf[0]) + DrawnRows(buf[1])
  {
    var d0, d1 := DrawnRows(buf[0]), DrawnRows(buf[1]);
    assert RenderedRows(buf, 1) == RenderedRows(buf, 0) + d0;
    EmptyAppend(d0);
    assert RenderedRows(buf, 2) == RenderedRows(buf, 1) + d1;
  }

  /** A buffer of two box lines and the closing marker: each line is drawn
      in turn and the marker is left out. */
  lemma RenderedGoodMorning()
    ensures RenderedRows(["[Good]", "[Morning]", "@@end::box"], 2) ==
            ["+------+", "| Good |", "+------+"] + ["+---------+", "| Morning |", "+---------+"]
  {
    RenderedTwo(["[Good]", "[Morning]", "@@end::box"]);
    GoodRows();
    MorningRows();
  }
}
