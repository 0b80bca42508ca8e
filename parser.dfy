/** The directive scanner of `src/parser.rs`: a per-line state machine over
    two flags and a command buffer (`handle_line`), folded over the lines of
    the input document (`parse_and_render`).  What a line makes the scanner
    append to the output file is returned as a sequence of written chunks. */
module Parser {
  import opened Text

  const StartMarker: string := "@@start"
  const EndMarker: string := "@@end"

  /** The text appended in place of every directive: the renderers are not
      wired in yet, so this placeholder is all an `@@end` line produces. */
  const Placeholder: string := "!![THIS IS A DIRECTIVE]!!\n"

  /** The scanner's mutable locals: `directive_start`, `directive_end` and
      the `directive_cmd` buffer. */
  datatype ScanState = ScanState(directiveStart: bool, directiveEnd: bool, directiveCmd: seq<string>)

  /** `directive_end` starts out true although no directive has been seen. */
  const Initial: ScanState := ScanState(false, true, [])

  predicate Outside(s: ScanState) {
    !s.directiveStart && s.directiveEnd
  }

  /** Exactly one of "inside" and "outside" holds. */
  predicate Consistent(s: ScanState) {
    s.directiveStart == !s.directiveEnd
  }

  /** The state after a line, and what the line appended to the output file. */
  datatype Effect = Effect(state: ScanState, written: seq<string>)

  predicate IsMarker(line: string) {
    StartsWith(line, StartMarker) || StartsWith(line, EndMarker)
  }

  lemma MarkersExclusive(line: string)
    ensures !(StartsWith(line, StartMarker) && StartsWith(line, EndMarker))
  {
    if StartsWith(line, StartMarker) {
      assert line[..|EndMarker|][2] == StartMarker[2] != EndMarker[2];
    }
  }

  /** One call of `handle_line`. */
  function Step(s: ScanState, line: string): (r: Effect)
    ensures Consistent(s) ==> Consistent(r.state)
    ensures s.directiveCmd == [] ==> r.state.directiveCmd == []
    ensures StartsWith(line, StartMarker) ==>
              r.state == s.(directiveStart := true, directiveEnd := false) && r.written == []
    ensures StartsWith(line, EndMarker) ==>
              r.state == ScanState(false, true, []) && r.written == [Placeholder]
    ensures !IsMarker(line) && Outside(s) ==> r == Effect(s, [line])
    ensures !IsMarker(line) && !Outside(s) ==> r == Effect(s, [])
  {
    MarkersExclusive(line);
    // First `if` chain: the marker lines move the flags.  At `@@end` the
    // line is pushed onto the buffer, the placeholder is written and the
    // buffer is cleared, so the push is never observable.
    var s1 := if StartsWith(line, StartMarker) then s.(directiveStart := true, directiveEnd := false)
              else if StartsWith(line, EndMarker) then ScanState(false, true, [])
              else s;
    var w1 := if !StartsWith(line, StartMarker) && StartsWith(line, EndMarker) then [Placeholder] else [];
    // Second `if` chain: pass-through when outside; the buffering branch
    // tests `directive_end && !directive_end` and can never be taken.
    if !s1.directiveStart && s1.directiveEnd && !StartsWith(line, EndMarker) then
      Effect(s1, w1 + [line])
    else if s1.directiveEnd && !s1.directiveEnd then
      Effect(if Trim(line) != [] then s1.(directiveCmd := s1.directiveCmd + [line]) else s1, w1)
    else
      Effect(s1, w1)
  }

  /** `handle_line` applied to each line in turn; the written chunks are
      concatenated in line order. */
  function Run(s: ScanState, lines: seq<string>): (r: Effect)
    ensures Consistent(s) ==> Consistent(r.state)
    ensures s.directiveCmd == [] ==> r.state.directiveCmd == []
    ensures |r.written| <= |lines|
    decreases |lines|
  {
    if lines == [] then Effect(s, [])
    else
      var e := Step(s, lines[0]);
      var rest := Run(e.state, lines[1..]);
      Effect(rest.state, e.written + rest.written)
  }

  /** Running over two pieces of a document is running over the first,
      then over the second from where the first left off. */
  lemma {:induction false} RunAppend(s: ScanState, a: seq<string>, b: seq<string>)
    ensures Run(s, a + b).state == Run(Run(s, a).state, b).state
    ensures Run(s, a + b).written == Run(s, a).written + Run(Run(s, a).state, b).written
    decreases |a|
  {
    if a == [] {
      assert a + b == b;
    } else {
      assert (a + b)[0] == a[0] && (a + b)[1..] == a[1..] + b;
      RunAppend(Step(s, a[0]).state, a[1..], b);
    }
  }

  /** A document without markers is copied verbatim, line by line. */
  lemma {:induction false} PassThrough(s: ScanState, lines: seq<string>)
    requires Outside(s)
    requires forall k :: 0 <= k < |lines| ==> !IsMarker(lines[k])
    ensures Run(s, lines) == Effect(s, lines)
    decreases |lines|
  {
    if lines != [] {
      PassThrough(s, lines[1..]);
      assert [lines[0]] + lines[1..] == lines;
    }
  }

  /** Inside a directive that is never closed, nothing more is written and
      the scanner stays inside. */
  lemma {:induction false} Unterminated(s: ScanState, lines: seq<string>)
    requires s.directiveStart && !s.directiveEnd
    requires forall k :: 0 <= k < |lines| ==> !StartsWith(lines[k], EndMarker)
    ensures Run(s, lines).written == []
    ensures Run(s, lines).state.directiveStart && !Run(s, lines).state.directiveEnd
    decreases |lines|
  {
    if lines != [] {
      Unterminated(Step(s, lines[0]).state, lines[1..]);
    }
  }

  /** A whole directive, from its `@@start` line to its `@@end` line, read
      from outside: it writes the placeholder alone and leaves the scanner
      in its initial state. */
  lemma Block(s: ScanState, st: string, body: seq<string>, en: string)
    requires Outside(s)
    requires StartsWith(st, StartMarker) && StartsWith(en, EndMarker)
    requires forall k :: 0 <= k < |body| ==> !StartsWith(body[k], EndMarker)
    ensures Run(s, [st] + (body + [en])) == Effect(Initial, [Placeholder])
  {
    var inside := s.(directiveStart := true, directiveEnd := false);
    assert Step(s, st) == Effect(inside, []);
    assert Run(s, [st]) == Effect(inside, []);
    RunAppend(s, [st], body + [en]);
    Unterminated(inside, body);
    var after := Run(inside, body).state;
    assert Step(after, en) == Effect(Initial, [Placeholder]);
    assert Run(after, [en]) == Effect(Initial, [Placeholder]);
    RunAppend(inside, body, [en]);
  }

  /** A document with one directive between marker-free text: the text
      around it is copied, and the directive becomes the placeholder. */
  lemma {:induction false} DirectiveDocument(a: seq<string>, st: string, body: seq<string>, en: string, c: seq<string>)
    requires forall k :: 0 <= k < |a| ==> !IsMarker(a[k])
    requires forall k :: 0 <= k < |c| ==> !IsMarker(c[k])
    requires StartsWith(st, StartMarker) && StartsWith(en, EndMarker)
    requires forall k :: 0 <= k < |body| ==> !StartsWith(body[k], EndMarker)
    ensures Run(Initial, a + ([st] + (body + [en])) + c).written == a + [Placeholder] + c
  {
    var block := [st] + (body + [en]);
    PassThrough(Initial, a);
    RunAppend(Initial, a, block + c);
    assert a + block + c == a + (block + c);
    Block(Initial, st, body, en);
    RunAppend(Initial, block, c);
    PassThrough(Initial, c);
  }

  /** Every written chunk is the placeholder or an input line that is not a
      marker: marker lines are never copied to the output. */
  lemma {:induction false} WrittenChunks(s: ScanState, lines: seq<string>)
    ensures forall k :: 0 <= k < |Run(s, lines).written| ==>
              var w := Run(s, lines).written[k];
              w == Placeholder || (w in lines && !IsMarker(w))
    decreases |lines|
  {
    if lines != [] {
      WrittenChunks(Step(s, lines[0]).state, lines[1..]);
      MarkersExclusive(lines[0]);
    }
  }

  /** The in-place form of the scanner state, as `parse_and_render` keeps it
      in its locals, and the output file as the sequence of appended chunks. */
  class Scanner {
    var directiveStart: bool
    var directiveEnd: bool
    var directiveCmd: seq<string>
    var written: seq<string>

    function State(): ScanState
      reads this
    {
      ScanState(directiveStart, directiveEnd, directiveCmd)
    }

    /** The flags as initialised, and an output file just removed. */
    constructor ()
      ensures State() == Initial && written == []
    {
      directiveStart := false;
      directiveEnd := true;
      directiveCmd := [];
      written := [];
    }

    /** `handle_line`: updates the flags and the buffer in place and appends
        to the output. */
    method HandleLine(line: string)
      modifies this
      ensures State() == Step(old(State()), line).state
      ensures written == old(written) + Step(old(State()), line).written
    {
      MarkersExclusive(line);
      if StartsWith(line, StartMarker) {
        directiveStart := true;
        directiveEnd := false;
      } else if StartsWith(line, EndMarker) {
        directiveStart := false;
        directiveEnd := true;
        directiveCmd := directiveCmd + [line];
        written := written + [Placeholder];
        directiveCmd := [];
      }
      // The buffer is staged in a local so that the unreachable branch
      // touches no field.
      var cmd := directiveCmd;
      if !directiveStart && directiveEnd && !StartsWith(line, EndMarker) {
        written := written + [line];
      } else if directiveEnd && !directiveEnd {
        if Trim(line) != [] {
          cmd := cmd + [line];
        }
      }
      directiveCmd := cmd;
    }
  }

  /** `parse_and_render` on the lines `read_line` returns (each with its line
      terminator): the output file starts empty and receives the chunks of
      every line in order. */
  method ParseAndRender(lines: seq<string>) returns (output: seq<string>)
    ensures output == Run(Initial, lines).written
  {
    var scanner := new Scanner();
    var i := 0;
    while i < |lines|
      invariant 0 <= i <= |lines|
      invariant scanner.State() == Run(Initial, lines[..i]).state
      invariant scanner.written == Run(Initial, lines[..i]).written
    {
      RunAppend(Initial, lines[..i], [lines[i]]);
      assert lines[..i + 1] == lines[..i] + [lines[i]];
      scanner.HandleLine(lines[i]);
      i := i + 1;
    }
    assert lines[..i] == lines;
    output := scanner.written;
  }
}
