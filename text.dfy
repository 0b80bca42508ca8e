/** String helpers that mirror the Rust standard-library operations the
    preprocessor uses on `&str`: `starts_with`, `split(char)`, `join`,
    `trim_start`, `trim_end`, `trim`, `trim_start_matches`, `split_whitespace`
    and `repeat`.  Strings are sequences of characters and lengths count
    characters, which equals Rust's byte `len()` on ASCII text. */
module Text {

  /** The ASCII part of Rust's `char::is_whitespace`: space, and tab through
      carriage return (tab, line feed, vertical tab, form feed, return). */
  predicate IsWhitespace(c: char) {
    c == ' ' || ('\t' <= c <= '\r')
  }

  predicate StartsWith(s: string, p: string) {
    |p| <= |s| && s[..|p|] == p
  }

  /** `n` copies of `c`, like `" ".repeat(n)` or `repeat(c).take(n)`. */
  function Repeat(c: char, n: nat): (r: string)
    ensures |r| == n
    ensures forall k :: 0 <= k < n ==> r[k] == c
  {
    if n == 0 then [] else [c] + Repeat(c, n - 1)
  }

  /** Concatenation of all parts, in order (a string when the parts are). */
  function Flatten<T>(parts: seq<seq<T>>): seq<T> {
    if parts == [] then [] else parts[0] + Flatten(parts[1..])
  }

  lemma {:induction false} FlattenAppend<T>(a: seq<seq<T>>, b: seq<seq<T>>)
    ensures Flatten(a + b) == Flatten(a) + Flatten(b)
  {
    if a == [] {
      assert a + b == b;
    } else {
      assert (a + b)[1..] == a[1..] + b;
      FlattenAppend(a[1..], b);
    }
  }

  lemma FlattenSnoc<T>(parts: seq<seq<T>>, i: nat)
    requires i < |parts|
    ensures Flatten(parts[..i + 1]) == Flatten(parts[..i]) + parts[i]
  {
    assert parts[..i + 1] == parts[..i] + [parts[i]];
    FlattenAppend(parts[..i], [parts[i]]);
  }

  lemma FlattenPair<T>(parts: seq<seq<T>>)
    requires |parts| == 2
    ensures Flatten(parts) == parts[0] + parts[1]
  {
    var rest := parts[1..];
    assert rest[0] == parts[1] && rest[1..] == [];
    assert Flatten(rest) == parts[1] + Flatten(rest[1..]);
    assert Flatten(rest) == parts[1];
  }

  /** One step of a loop that appends `parts[i]` to an accumulator. */
  lemma Accumulate<T>(acc: seq<T>, head: seq<T>, parts: seq<seq<T>>, i: nat, x: seq<T>)
    requires i < |parts| && acc == head + Flatten(parts[..i]) && x == parts[i]
    ensures acc + x == head + Flatten(parts[..i + 1])
  {
    FlattenSnoc(parts, i);
  }

  lemma FlattenFrom<T>(parts: seq<seq<T>>, i: nat)
    requires i < |parts|
    ensures Flatten(parts[i..]) == parts[i] + Flatten(parts[i + 1..])
  {
    assert parts[i..][1..] == parts[i + 1..];
  }

  lemma HeadTail<T>(s: seq<T>)
    requires s != []
    ensures [s[0]] + s[1..] == s
  {
  }

  lemma DropFirst<T>(s: seq<T>, i: nat)
    requires i < |s|
    ensures s[i..][0] == s[i] && s[i..][1..] == s[i + 1..]
  {
  }

  lemma EmptyAppend<T>(s: seq<T>)
    ensures [] + s == s
  {
  }

  lemma Assoc<T>(a: seq<T>, b: seq<T>, c: seq<T>)
    ensures a + b + c == a + (b + c)
  {
  }

  lemma SliceOfDrop<T>(s: seq<T>, d: nat, a: nat, b: nat)
    requires a <= b && d + b <= |s|
    ensures s[d..][a..b] == s[d + a..d + b]
  {
  }

  lemma TakeSnoc<T>(s: seq<T>, i: nat)
    requires i < |s|
    ensures s[..i + 1] == s[..i] + [s[i]]
  {
  }

  lemma TakeAll<T>(s: seq<T>)
    ensures s[..|s|] == s
  {
  }

  lemma DropNone<T>(s: seq<T>)
    ensures s[0..] == s
  {
  }

  lemma DropAll<T>(s: seq<T>)
    ensures s[|s|..] == []
  {
  }

  /** Each line followed by a line feed, as successive `writeln!` calls or
      `push_str(".. \n")` calls leave them. */
  function Terminated(lines: seq<string>): string {
    if lines == [] then [] else lines[0] + "\n" + Terminated(lines[1..])
  }

  lemma {:induction false} TerminatedSnoc(lines: seq<string>, x: string)
    ensures Terminated(lines + [x]) == Terminated(lines) + x + "\n"
  {
    if lines == [] {
      assert lines + [x] == [x];
    } else {
      assert (lines + [x])[1..] == lines[1..] + [x];
      TerminatedSnoc(lines[1..], x);
    }
  }

  /** Terminated lines followed by one more line are those lines joined by
      line feeds. */
  lemma {:induction false} TerminatedThenLast(lines: seq<string>, last: string)
    ensures Terminated(lines) + last == Join(lines + [last], "\n")
  {
    if lines != [] {
      TerminatedThenLast(lines[1..], last);
      assert (lines + [last])[1..] == lines[1..] + [last];
      JoinCons(lines[0], lines[1..] + [last], "\n");
      assert [lines[0]] + (lines[1..] + [last]) == lines + [last];
    }
  }

  /** `parts.join(sep)`: the parts with `sep` between neighbours. */
  function Join(parts: seq<string>, sep: string): string {
    if |parts| == 0 then []
    else if |parts| == 1 then parts[0]
    else parts[0] + sep + Join(parts[1..], sep)
  }

  lemma {:induction false} JoinCons(x: string, rest: seq<string>, sep: string)
    requires rest != []
    ensures Join([x] + rest, sep) == x + sep + Join(rest, sep)
  {
    assert ([x] + rest)[1..] == rest;
  }

  lemma {:induction false} JoinSnoc(parts: seq<string>, x: string, sep: string)
    requires parts != []
    ensures Join(parts + [x], sep) == Join(parts, sep) + sep + x
  {
    if |parts| == 1 {
      assert parts + [x] == [parts[0], x];
    } else {
      JoinSnoc(parts[1..], x, sep);
      assert (parts + [x])[1..] == parts[1..] + [x];
    }
  }

  /** Joining two non-empty lists is joining each and putting `sep` between. */
  lemma {:induction false} JoinConcat(a: seq<string>, b: seq<string>, sep: string)
    requires a != [] && b != []
    ensures Join(a + b, sep) == Join(a, sep) + sep + Join(b, sep)
    decreases |a|
  {
    if |a| == 1 {
      assert a + b == [a[0]] + b;
      JoinCons(a[0], b, sep);
    } else {
      assert a + b == [a[0]] + (a[1..] + b);
      JoinCons(a[0], a[1..] + b, sep);
      JoinConcat(a[1..], b, sep);
      assert [a[0]] + a[1..] == a;
      JoinCons(a[0], a[1..], sep);
      var x, y, z := a[0] + sep, Join(a[1..], sep) + sep, Join(b, sep);
      Assoc(x, y, z);
      Assoc(x, Join(a[1..], sep), sep);
    }
  }

  /** Every character of the joined string comes from a part or from `sep`. */
  lemma {:induction false} JoinAvoids(parts: seq<string>, sep: string, c: char)
    requires c !in sep
    requires forall k :: 0 <= k < |parts| ==> c !in parts[k]
    ensures c !in Join(parts, sep)
  {
    if |parts| > 1 {
      JoinAvoids(parts[1..], sep, c);
    }
  }

  /** `s.split(c)`: the pieces between occurrences of `c`; never empty, and
      a string with k occurrences of `c` yields k + 1 pieces. */
  function Split(s: string, c: char): (r: seq<string>)
    ensures |r| >= 1
    ensures forall k :: 0 <= k < |r| ==> c !in r[k]
    decreases |s|
  {
    if s == [] then [[]]
    else if s[0] == c then [[]] + Split(s[1..], c)
    else
      var t := Split(s[1..], c);
      [[s[0]] + t[0]] + t[1..]
  }

  /** Joining the pieces of a split with the separator gives back the string. */
  lemma {:induction false} JoinSplit(s: string, c: char)
    ensures Join(Split(s, c), [c]) == s
    decreases |s|
  {
    if s == [] {
    } else if s[0] == c {
      JoinSplit(s[1..], c);
      var t := Split(s[1..], c);
      JoinCons([], t, [c]);
      assert s == [c] + s[1..];
    } else {
      JoinSplit(s[1..], c);
      var t := Split(s[1..], c);
      if |t| == 1 {
        assert Join(t, [c]) == t[0];
      } else {
        JoinCons(t[0], t[1..], [c]);
        assert [t[0]] + t[1..] == t;
        JoinCons([s[0]] + t[0], t[1..], [c]);
      }
      assert s == [s[0]] + s[1..];
    }
  }

  /** Splitting a string that starts with a piece free of `c`, followed by `c`. */
  lemma {:induction false} SplitPieceThenSep(x: string, c: char, rest: string)
    requires c !in x
    ensures Split(x + [c] + rest, c) == [x] + Split(rest, c)
    decreases |x|
  {
    if x == [] {
      assert x + [c] + rest == [c] + rest;
      assert ([c] + rest)[1..] == rest;
    } else {
      var s := x + [c] + rest;
      assert s[0] == x[0] && s[1..] == x[1..] + [c] + rest;
      SplitPieceThenSep(x[1..], c, rest);
      assert [x[0]] + x[1..] == x;
    }
  }

  /** A string free of `c` is a single piece. */
  lemma {:induction false} SplitNoSep(x: string, c: char)
    requires c !in x
    ensures Split(x, c) == [x]
    decreases |x|
  {
    if x != [] {
      SplitNoSep(x[1..], c);
      assert [x[0]] + x[1..] == x;
    }
  }

  /** Splitting a join of `c`-free parts on `c` gives back the parts. */
  lemma {:induction false} SplitJoin(parts: seq<string>, c: char)
    requires |parts| >= 1
    requires forall k :: 0 <= k < |parts| ==> c !in parts[k]
    ensures Split(Join(parts, [c]), c) == parts
  {
    if |parts| == 1 {
      SplitNoSep(parts[0], c);
    } else {
      SplitJoin(parts[1..], c);
      SplitPieceThenSep(parts[0], c, Join(parts[1..], [c]));
      assert [parts[0]] + parts[1..] == parts;
    }
  }

  /** Number of leading whitespace characters. */
  function LeadingWhitespace(s: string): (n: nat)
    ensures n <= |s|
  {
    if s != [] && IsWhitespace(s[0]) then 1 + LeadingWhitespace(s[1..]) else 0
  }

  /** The count is of the longest all-whitespace prefix. */
  lemma {:induction false} LeadingWhitespaceRun(s: string)
    ensures forall k :: 0 <= k < LeadingWhitespace(s) ==> IsWhitespace(s[k])
    ensures LeadingWhitespace(s) < |s| ==> !IsWhitespace(s[LeadingWhitespace(s)])
  {
    if s != [] && IsWhitespace(s[0]) {
      LeadingWhitespaceRun(s[1..]);
    }
  }

  /** Number of trailing whitespace characters. */
  function TrailingWhitespace(s: string): (n: nat)
    ensures n <= |s|
  {
    if s != [] && IsWhitespace(s[|s| - 1]) then 1 + TrailingWhitespace(s[..|s| - 1]) else 0
  }

  /** The count is of the longest all-whitespace suffix. */
  lemma {:induction false} TrailingWhitespaceRun(s: string)
    ensures forall k :: |s| - TrailingWhitespace(s) <= k < |s| ==> IsWhitespace(s[k])
    ensures TrailingWhitespace(s) < |s| ==> !IsWhitespace(s[|s| - TrailingWhitespace(s) - 1])
  {
    if s != [] && IsWhitespace(s[|s| - 1]) {
      TrailingWhitespaceRun(s[..|s| - 1]);
    }
  }

  /** Number of leading copies of `c`, like `chars().take_while(|x| x == c).count()`. */
  function LeadingMatches(s: string, c: char): (n: nat)
    ensures n <= |s|
  {
    if s != [] && s[0] == c then 1 + LeadingMatches(s[1..], c) else 0
  }

  /** The count is of the longest prefix made only of `c`. */
  lemma {:induction false} LeadingMatchesRun(s: string, c: char)
    ensures forall k :: 0 <= k < LeadingMatches(s, c) ==> s[k] == c
    ensures LeadingMatches(s, c) < |s| ==> s[LeadingMatches(s, c)] != c
  {
    if s != [] && s[0] == c {
      LeadingMatchesRun(s[1..], c);
    }
  }

  /** Parts that each end in `c` concatenate to a string that is empty or
      ends in `c`. */
  lemma {:induction false} FlattenEndsIn(parts: seq<string>, c: char)
    requires forall k :: 0 <= k < |parts| ==> parts[k] != [] && parts[k][|parts[k]| - 1] == c
    ensures Flatten(parts) == [] || Flatten(parts)[|Flatten(parts)| - 1] == c
  {
    if parts != [] {
      FlattenEndsIn(parts[1..], c);
      var t := Flatten(parts[1..]);
      assert Flatten(parts) == parts[0] + t;
      if t == [] {
        assert Flatten(parts) == parts[0];
      } else {
        assert Flatten(parts)[|Flatten(parts)| - 1] == t[|t| - 1];
      }
    }
  }

  /** `s.trim_start()`: drops leading whitespace. */
  function TrimStart(s: string): string {
    s[LeadingWhitespace(s)..]
  }

  /** `s.trim_end()`: drops trailing whitespace. */
  function TrimEnd(s: string): string {
    s[..|s| - TrailingWhitespace(s)]
  }

  /** `s.trim()`: drops leading and trailing whitespace. */
  function Trim(s: string): string {
    TrimEnd(TrimStart(s))
  }

  /** A trimmed string is empty or has no whitespace at either end. */
  lemma TrimClean(s: string)
    ensures var r := Trim(s);
            r == [] || (!IsWhitespace(r[0]) && !IsWhitespace(r[|r| - 1]))
  {
    var t := TrimStart(s);
    LeadingWhitespaceRun(s);
    TrailingWhitespaceRun(t);
    var r := Trim(s);
    if r != [] {
      assert r[0] == t[0] == s[LeadingWhitespace(s)];
      assert r[|r| - 1] == t[|t| - TrailingWhitespace(t) - 1];
    }
  }

  /** A string with no whitespace at either end is its own trim. */
  lemma TrimUntouched(s: string)
    requires s != [] && !IsWhitespace(s[0]) && !IsWhitespace(s[|s| - 1])
    ensures Trim(s) == s
  {
    assert LeadingWhitespace(s) == 0;
    assert TrailingWhitespace(s) == 0;
  }

  /** Whitespace padding before a word is exactly what `trim` removes. */
  lemma TrimPadded(pad: string, word: string)
    requires forall k :: 0 <= k < |pad| ==> IsWhitespace(pad[k])
    requires word != [] && !IsWhitespace(word[0]) && !IsWhitespace(word[|word| - 1])
    ensures Trim(pad + word) == word
  {
    LeadingWhitespaceOfPad(pad, word);
    assert (pad + word)[|pad|..] == word;
    assert TrailingWhitespace(word) == 0;
  }

  /** The leading-whitespace count of a padded string is the padding. */
  lemma {:induction false} LeadingWhitespaceOfPad(pad: string, rest: string)
    requires forall k :: 0 <= k < |pad| ==> IsWhitespace(pad[k])
    requires rest == [] || !IsWhitespace(rest[0])
    ensures LeadingWhitespace(pad + rest) == |pad|
    decreases |pad|
  {
    if pad == [] {
      assert pad + rest == rest;
    } else {
      assert (pad + rest)[1..] == pad[1..] + rest;
      LeadingWhitespaceOfPad(pad[1..], rest);
    }
  }

  /** The count of leading `c` in a string that starts with a run of `c`. */
  lemma {:induction false} LeadingMatchesOfPad(pad: string, c: char, rest: string)
    requires forall k :: 0 <= k < |pad| ==> pad[k] == c
    requires rest == [] || rest[0] != c
    ensures LeadingMatches(pad + rest, c) == |pad|
    decreases |pad|
  {
    if pad == [] {
      assert pad + rest == rest;
    } else {
      assert (pad + rest)[1..] == pad[1..] + rest;
      LeadingMatchesOfPad(pad[1..], c, rest);
    }
  }

  /** `s.trim_start_matches(c)`: drops every leading `c`. */
  function TrimStartMatches(s: string, c: char): string {
    s[LeadingMatches(s, c)..]
  }

  /** Index of the first `c` in `s`, or `|s|` if there is none. */
  function IndexOf(s: string, c: char): (k: nat)
    ensures k <= |s|
    ensures k < |s| ==> s[k] == c
    ensures forall j :: 0 <= j < k ==> s[j] != c
  {
    if s == [] || s[0] == c then 0 else 1 + IndexOf(s[1..], c)
  }

  /** Text before the first `c` only shifts its position. */
  lemma {:induction false} IndexOfAfter(x: string, c: char, y: string)
    requires c !in x
    ensures IndexOf(x + y, c) == |x| + IndexOf(y, c)
    decreases |x|
  {
    if x != [] {
      assert (x + y)[1..] == x[1..] + y;
      IndexOfAfter(x[1..], c, y);
    } else {
      assert x + y == y;
    }
  }

  /** Index of the last `c` in `s`, or -1 if there is none. */
  function LastIndexOf(s: string, c: char): (k: int)
    ensures -1 <= k < |s|
    ensures k >= 0 ==> s[k] == c
    ensures forall j :: k < j < |s| ==> s[j] != c
  {
    if s == [] then -1
    else if s[|s| - 1] == c then |s| - 1
    else LastIndexOf(s[..|s| - 1], c)
  }

  /** The last `c` of `x + [c] + f` is the one after `x` when `f` has none. */
  lemma {:induction false} LastIndexOfBefore(x: string, c: char, f: string)
    requires c !in f
    ensures LastIndexOf(x + [c] + f, c) == |x|
  {
    var s := x + [c] + f;
    assert s[|x|] == c;
    forall j | |x| < j < |s| ensures s[j] != c {
      assert s[j] == f[j - |x| - 1];
    }
  }

  /** The first piece of a split is everything before the first separator. */
  lemma {:induction false} SplitFirst(s: string, c: char)
    ensures Split(s, c)[0] == s[..IndexOf(s, c)]
    decreases |s|
  {
    if s != [] && s[0] != c {
      SplitFirst(s[1..], c);
      assert s[..IndexOf(s, c)] == [s[0]] + s[1..][..IndexOf(s[1..], c)];
    }
  }

  /** Index of the first whitespace character of `s`, or `|s|` if none. */
  function WordEnd(s: string): (k: nat)
    ensures k <= |s|
    ensures k < |s| ==> IsWhitespace(s[k])
    ensures forall j :: 0 <= j < k ==> !IsWhitespace(s[j])
  {
    if s == [] || IsWhitespace(s[0]) then 0 else 1 + WordEnd(s[1..])
  }

  predicate IsWord(w: string) {
    w != [] && forall k :: 0 <= k < |w| ==> !IsWhitespace(w[k])
  }

  /** `s.split_whitespace()`: the maximal runs of non-whitespace characters,
      left to right. */
  function Words(s: string): (r: seq<string>)
    ensures forall k :: 0 <= k < |r| ==> IsWord(r[k])
    decreases |s|
  {
    var t := TrimStart(s);
    if t == [] then []
    else
      LeadingWhitespaceRun(s);
      var k := WordEnd(t);
      assert k >= 1;
      assert IsWord(t[..k]);
      [t[..k]] + Words(t[k..])
  }

  /** A string has no words exactly when it is all whitespace. */
  lemma WordsEmpty(s: string)
    ensures Words(s) == [] <==> forall k :: 0 <= k < |s| ==> IsWhitespace(s[k])
  {
    LeadingWhitespaceRun(s);
    var t := TrimStart(s);
    if t != [] {
      assert !IsWhitespace(s[|s| - |t|]);
    }
  }

  lemma {:induction false} WordEndOfWord(w: string, c: char, rest: string)
    requires IsWord(w) && IsWhitespace(c)
    ensures WordEnd(w + [c] + rest) == |w|
    decreases |w|
  {
    var s := w + [c] + rest;
    if |w| > 1 {
      assert w[1..] + [c] + rest == s[1..];
      WordEndOfWord(w[1..], c, rest);
    } else {
      assert s[1..] == [c] + rest;
    }
  }

  /** A single word splits to itself. */
  lemma WordsOfWord(w: string)
    requires IsWord(w)
    ensures Words(w) == [w]
  {
    assert TrimStart(w) == w;
    assert WordEnd(w) == |w|;
    assert w[..|w|] == w;
    assert w[|w|..] == [];
  }

  /** A leading whitespace character does not change the words. */
  lemma WordsAfterSpace(c: char, rest: string)
    requires IsWhitespace(c)
    ensures Words([c] + rest) == Words(rest)
  {
    DropFirst([c] + rest, 0);
    assert TrimStart([c] + rest) == TrimStart(rest);
  }

  /** A word followed by a whitespace character contributes itself and then
      the words of the rest. */
  lemma WordsWordThenSep(w: string, c: char, rest: string)
    requires IsWord(w) && IsWhitespace(c)
    ensures Words(w + [c] + rest) == [w] + Words(rest)
  {
    var s := w + [c] + rest;
    assert s[0] == w[0];
    assert LeadingWhitespace(s) == 0;
    DropNone(s);
    WordEndOfWord(w, c, rest);
    assert s[..|w|] == w;
    assert s[|w|..] == [c] + rest;
    assert Words(s) == [s[..|w|]] + Words(s[|w|..]);
    WordsAfterSpace(c, rest);
  }

  /** `split_whitespace` undoes `join(" ")` on a list of words. */
  lemma {:induction false} WordsJoin(ws: seq<string>)
    requires forall k :: 0 <= k < |ws| ==> IsWord(ws[k])
    ensures Words(Join(ws, " ")) == ws
  {
    if |ws| == 1 {
      WordsOfWord(ws[0]);
    } else if |ws| > 1 {
      var tail := ws[1..];
      var rest := Join(tail, " ");
      assert forall k :: 0 <= k < |tail| ==> IsWord(tail[k]) by {
        forall k | 0 <= k < |tail| ensures IsWord(tail[k]) {
          assert tail[k] == ws[k + 1];
        }
      }
      WordsJoin(tail);
      WordsWordThenSep(ws[0], ' ', rest);
      JoinCons(ws[0], tail, " ");
      assert [ws[0]] + tail == ws;
    }
  }
}
