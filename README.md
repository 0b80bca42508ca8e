# txtplus, modelled in Dafny

txtplus is a line-oriented preprocessor for plain-text documents. It reads a
document line by line and copies it to `<name>.plus.txt` next to the input.
Blocks between an `@@start::<kind>` line and an `@@end::<kind>` line are
directives. In the current code every directive is replaced by the fixed
placeholder `!![THIS IS A DIRECTIVE]!!`. The repository also holds two
renderers that the scanner does not call yet:

- a box renderer that draws each `[...]` segment of a line as a bordered
  box, wrapping its words three to a line and placing boxes side by side;
- a tree renderer that turns an indented bullet list into a `├──`/`└──`
  tree.

This project models four pieces of that code:

- the directive scanner (`handle_line` and the line loop of
  `parse_and_render`);
- both renderers, each with its rows returned as values;
- the derivation of the output path.

What is proved is the behaviour of the code. Properties are stated for all
inputs, and the unit tests and header examples are restated as lemmas. Some
examples in the header comments disagree with the code; those are listed
below, and the model proves the code's version. The `~/` and `./` cases of
the path test depend on path resolution, which is under "## Left out".

Modules, one per source file, plus a shared string library:

- `Text` (`text.dfy`) holds the pieces of Rust's string API the code uses:
  `split`, `join`, `trim`, `trim_start`, `trim_end`, `trim_start_matches`,
  `split_whitespace`, `starts_with` and `repeat`. The split/join pairs have
  round-trip lemmas; the trims have lemmas on what they remove.
- `Parser` (`parser.dfy`) defines:
  - the pure transition `Step` and its fold `Run`;
  - the class `Scanner`, whose `HandleLine` updates the two flags and the
    command buffer in place;
  - the loop `ParseAndRender`.
- `Textbox` (`textbox.dfy`) holds:
  - the bracket scanner that replaces the regular expression;
  - the three-word wrapping;
  - the box builder, with the string-building method proved against
    `BoxText`;
  - the row combination of `box_to_file`, `draw_texbox` and `render_box`.
- `Tree` (`tree.dfy`) defines:
  - the `TreeNode` datatype;
  - `add_children` as a `while` loop proved against the recursive
    specification `Kids`, with a characterisation of whose child each line
    becomes;
  - `generate_tree_string` as a loop proved against `TreeText`, together
    with a pre-order reference rendering;
  - `render_tree`.
- `Utils` (`utils.dfy`) defines `write_filepath` as a function of the
  already-resolved absolute path.

Where the header comments and the code disagree, the model follows the code:

- **Box spacing.** The header comment of `src/textbox.rs` shows two spaces
  between side-by-side boxes, but `box_to_file` joins them with one space.
  `DrawnHelloWorld` proves the one-space form.
- **Sentence example.** That comment spells the wrapped sentence as
  "complecity", while the input says "complexity".
- **Closing marker.** The second example closes with `@@start::end`.

Notable behaviour of the code, on which its comments are silent:

- **Filler width.** A box that runs out of lines is padded with as many
  spaces as *its own* first line is wide, not the first box's width
  (`Textbox.Cells`).
- **Empty segment.** An empty segment still draws a box: `+--+`, a row of
  two spaces between bars, `+--+` (`Textbox.EmptySegmentBox`).
- **Directive kind.** The scanner does not check the `::<kind>` suffix of
  `@@end`. Any line that starts with `@@end` closes a directive and writes
  the placeholder, in either state.
- **Leading dashes.** A tree label loses every leading `-`, not just one:
  `--- x` reads as `x` (`Tree.NodeValueOfDashes`).
- **Buffering branch.** The branch of `handle_line` that should buffer
  directive lines tests `directive_end && !directive_end`, so it can never
  be taken. Lines inside a directive are dropped, and the buffer is empty
  after every line (`Parser.Step`). The model keeps that branch literally.

Strings are `seq<char>`. The code measures lengths with byte `len()`. The
model treats every character as one unit, which agrees for ASCII text. The
tree's box-drawing glyphs are only concatenated, never measured.

## Model

| member | source | states |
|---|---|---|
| Parser.MarkersExclusive | src/parser.rs:57-60 | no line starts with both `@@start` and `@@end`, so the two marker branches never both apply |
| Parser.Step | src/parser.rs:48-83 | one call of `handle_line`: the flags stay complementary; an empty buffer stays empty; `@@start` moves inside and writes nothing; `@@end` moves outside from either state and writes exactly the placeholder, never itself; any other line is written verbatim when outside and neither written nor buffered when inside |
| Parser.Run | src/parser.rs:20-43 | the scanner folded over a document keeps the complementary-flags and empty-buffer invariants, and writes at most one chunk per line |
| Parser.RunAppend | src/parser.rs:20-43 | scanning `a + b` is scanning `a` then `b` from the state `a` left, and the output is the two outputs concatenated in order |
| Parser.PassThrough | src/parser.rs:74-75 | outside a directive, a document without marker lines is copied unchanged, line by line |
| Parser.Block | src/parser.rs:57-75 | a whole directive read from outside, from its `@@start` line through body lines without `@@end` to its `@@end` line, writes the placeholder alone and leaves the scanner in its initial state |
| Parser.DirectiveDocument | src/parser.rs:20-43 | a document of marker-free text, one directive, and marker-free text is output as the first text, the placeholder, then the second text |
| Parser.Unterminated | src/parser.rs:56-80 | inside a directive that is never closed, the remaining lines write nothing and the scanner stays inside, with no error |
| Parser.WrittenChunks | src/parser.rs:60-75 | every written chunk is either the placeholder or one of the input lines that is not a marker |
| Parser.Scanner.constructor | src/parser.rs:17-19 | the scanner starts outside a directive (`directive_start` false, `directive_end` true), with an empty buffer and an empty output file |
| Parser.Scanner.HandleLine | src/parser.rs:48-83 | updating the fields in place gives the state `Step` gives, and appends exactly the chunks `Step` writes |
| Parser.ParseAndRender | src/parser.rs:8-45 | the output file, started empty, holds the concatenated chunks of every input line in order |
| Textbox.Segments | src/textbox.rs:56-61 | no extracted segment contains `]` |
| Textbox.SegmentsStep | src/textbox.rs:56-61 | a bracketed group after text without `[` contributes its contents, and scanning resumes after its `]` |
| Textbox.NoSegments | src/textbox.rs:56-61 | text without `[` yields no segments |
| Textbox.SegmentsOfBracketed | src/textbox.rs:56-61 | for any interleaving of bracket-free gaps and `]`-free contents, the scanner returns exactly the contents, left to right, ignoring everything outside brackets; the text after the last segment may open a `[` that is never closed |
| Textbox.UnclosedTail | src/textbox.rs:56-61 | text whose first `[` has no `]` after it has no segments |
| Textbox.OpenTail | src/textbox.rs:56-61 | text without `[`, then a `[` with no `]` after it, gives no segments |
| Textbox.OpenAfterSegment | src/textbox.rs:56-61 | a segment followed by text with an unclosed `[` gives just that segment |
| Textbox.SegmentsUnclosed | src/textbox.rs:56-61 | `[a] [b` gives `["a"]` |
| Textbox.EmptyBracket | src/textbox.rs:57 | `[]` yields one empty segment |
| Textbox.SegmentsHelloWorld | src/textbox.rs:152-155 | `[hello] [world]` yields `hello`, `world` |
| Textbox.SegmentsBoxyRandom | src/textbox.rs:156-159 | `[boxy] [boxy] random` yields `boxy`, `boxy`; the trailing unbracketed text is ignored |
| Textbox.Chunks | src/textbox.rs:121 | `chunks(3)`: ceil(n/3) groups, group `k` being words `3k` up to `3k+3` (fewer in the last) |
| Textbox.FlattenChunks | src/textbox.rs:121 | the chunks put back together are the original words in order |
| Textbox.WordsOfEachLine | src/textbox.rs:122 | each output line of a wrapped segment holds exactly the words of its chunk, in order |
| Textbox.WordsOfLines | src/textbox.rs:119-124 | reading the words of the `\n`-joined lines gives back all the chunk words in order |
| Textbox.Wrap | src/textbox.rs:118-125 | wrapping a segment keeps exactly its whitespace-separated words, in order |
| Textbox.NewlineString | src/textbox.rs:115-127 | one output per segment, each holding exactly the segment's words in order |
| Textbox.WrapLayout | src/textbox.rs:118-125 | a segment without words becomes `""`; otherwise its `\n`-separated lines are the word groups of three joined by single spaces, every line but the last holding exactly three words |
| Textbox.WrapBlank | src/textbox.rs:118-125 | a segment of whitespace only (which has no words, by `Text.WordsEmpty`) wraps to `""` |
| Textbox.WrapWord | src/textbox.rs:118-125 | a single word is left as it is |
| Textbox.WrapThreeGroups | src/textbox.rs:118-125 | seven to nine words wrap into two lines of three words and a last line of the rest, joined by line feeds, as in the header's sentence example |
| Textbox.MaxLen | src/textbox.rs:68 | the width is at least every line's length, and 0 for no lines |
| Textbox.MaxLenAttained | src/textbox.rs:68 | some line is exactly the width long |
| Textbox.Border | src/textbox.rs:69 | the border of a box `n` wide is `n + 4` characters: a `+`, `n + 2` dashes and a `+` |
| Textbox.Row | src/textbox.rs:72-76 | the row for a line of a box `n` wide is `n + 4` characters long, bar to bar |
| Textbox.RowLayout | src/textbox.rs:73-75 | a row is a bar and a space, the text, spaces up to the common width, then a space and a bar: `n + 4` characters wide |
| Textbox.BoxLines | src/textbox.rs:63-83 | a box has the text's line count plus two lines, all `n + 4` wide, with identical top and bottom borders of `n + 2` dashes and each text line padded in between |
| Textbox.BoxText | src/textbox.rs:63-83 | the string `create_textbox_string` makes of one text: the lines of `BoxLines` of the text's `\n`-separated lines, joined by line feeds, with no final line feed |
| Textbox.BoxTextLines | src/textbox.rs:80 | splitting the box string on `\n` gives back exactly its lines: there is no trailing newline |
| Textbox.BoxTextParts | src/textbox.rs:69-80 | the box string is the border with a line feed, one row and line feed per line, then the border with its line feed trimmed |
| Textbox.BorderLine | src/textbox.rs:69 | the formatted border is a `Border` and a line feed, which `trim_end` removes |
| Textbox.BuildBox | src/textbox.rs:66-80 | building the box with `push_str` in a loop yields exactly `BoxText` of the input |
| Textbox.CreateTextboxString | src/textbox.rs:63-83 | one box per input string, in order, each `BoxText` of its string |
| Textbox.OneLineBox | src/textbox.rs:66-80 | a one-line text draws as border, padded row, border, with no padding |
| Textbox.EmptySegmentBox | src/textbox.rs:66-80 | an empty text draws as `+--+`, a row of two spaces between bars, `+--+` |
| Textbox.ThreeLineBox | src/textbox.rs:66-80 | a three-line text draws as border, three rows padded to the longest, border |
| Textbox.BoxHello | src/textbox.rs:164-170 | `hello` boxes to a `+-------+` border, the row `hello` between a bar and a space on each side, and the same border |
| Textbox.BoxWorld | src/textbox.rs:164-170 | `world` boxes to a `+-------+` border, the row `world` between a bar and a space on each side, and the same border |
| Textbox.BoxMultiline | src/textbox.rs:171-174 | `multiline\nstring\nhere` boxes with an 11-dash border and rows padded to 9 |
| Textbox.NineWide | src/textbox.rs:171-174 | the widths and rows of the multiline test box |
| Textbox.MaxRows | src/textbox.rs:91-95 | the row count is at least every box's line count, and 0 for no boxes |
| Textbox.MaxRowsAttained | src/textbox.rs:91-95 | some box has exactly that many lines |
| Textbox.Cell | src/textbox.rs:101-107 | what one box contributes to row `i`: its line `i`, or past its last line as many spaces as its first line is long; when the box's lines share one width, the cell has that width |
| Textbox.BoxRows | src/textbox.rs:85-113 | the loop of `box_to_file` emits exactly the combined rows of the split boxes, in order |
| Textbox.JoinLength | src/textbox.rs:109 | a joined row is as long as its parts plus one separator between each pair |
| Textbox.CombinedRowLength | src/textbox.rs:98-109 | when every box's lines share one width, every combined row is as wide as the top borders plus the separators |
| Textbox.BoxesUniform | src/textbox.rs:63-89 | every box drawn has at least one line and lines of one width |
| Textbox.DrawnRows | src/textbox.rs:129-135 | the rows `draw_texbox` writes for one directive line: its bracketed segments, wrapped, each boxed, the boxes combined side by side |
| Textbox.DrawnRowsRectangular | src/textbox.rs:129-135 | the rows drawn for one directive line all have the same length |
| Textbox.DrawTextbox | src/textbox.rs:129-135 | `draw_texbox` emits the combined rows of the boxes of the wrapped segments of the line |
| Textbox.RenderedRows | src/textbox.rs:140-143 | the rows drawn for the first `i` buffered lines: each line's rows in turn, concatenated in buffer order |
| Textbox.RenderBox | src/textbox.rs:138-144 | `render_box` draws the buffered lines `0..n-1` in order, leaving out the final `@@end` line |
| Textbox.RenderedTwo | src/textbox.rs:140-143 | the first two buffered lines are drawn one after the other |
| Textbox.CombineTwo | src/textbox.rs:98-109 | two three-line boxes combine pairwise, with one space between them |
| Textbox.CombineOne | src/textbox.rs:98-109 | a single box is its own combined block |
| Textbox.OneSegmentRows | src/textbox.rs:129-135 | a line holding one segment draws as the box around the wrapped text |
| Textbox.SideBySide | src/textbox.rs:16-22 | two one-word segments on a line draw as two boxes side by side |
| Textbox.DrawnHelloWorld | src/textbox.rs:16-22 | `[Hello] [World]` draws as two `+-------+` boxes separated by one space |
| Textbox.OneWordRows | src/textbox.rs:4-13 | a one-word segment draws as border, the word padded by one space on each side, border |
| Textbox.RenderedGoodMorning | src/textbox.rs:25-35 | `[Good]` and `[Morning]` on separate lines, closed by `@@end::box`, draw as a `+------+` box above a `+---------+` box |
| Textbox.WrapSentence | src/textbox.rs:37-47 | the header's eight-word sentence wraps into three lines |
| Textbox.DrawnSentence | src/textbox.rs:37-47 | that sentence draws as the five-line box of the header, 20 wide inside |
| Tree.IndentLevel | src/tree.rs:45 | the depth `d` of a line is the number of its leading spaces, rounded down to units of four: the line starts with `4d` spaces, and not with `4d + 4` |
| Tree.NodeValue | src/tree.rs:46 | a line's label: leading whitespace removed, then every leading `-`, then whitespace at both ends; it never begins or ends with whitespace |
| Tree.NodeValueOfDashes | src/tree.rs:46 | a label loses its whole leading run of dashes, not just one, but keeps any dash after the first space |
| Tree.BulletAt | src/tree.rs:44-46 | the line at index `i` is read as its indent level and its label |
| Tree.ReadLine | src/tree.rs:44-46 | reading one line gives its depth and label |
| Tree.Kids | src/tree.rs:41-58 | the children `add_children` appends at a level, never more than there are lines: a line at the level becomes a child collecting the following lines one level deeper, a deeper line is skipped, and a shallower line ends the scan |
| Tree.AddChildren | src/tree.rs:41-58 | the loop appends to the node's existing children exactly the children `Kids` specifies, and keeps its value |
| Tree.ParseBulletPoints | src/tree.rs:39-63 | the root is `.` with the children built at level 0 |
| Tree.ScopeEnd | src/tree.rs:43-54 | the scan of a level runs until the first line shallower than the level, or the end |
| Tree.LevelIndicesExact | src/tree.rs:43-54 | the lines that become children are exactly the lines at the level within the scope, in increasing order |
| Tree.KidsAt | src/tree.rs:41-58 | the `k`-th child at a level is built from the `k`-th line at that level, and takes the following lines one level deeper |
| Tree.ChildrenOfLine | src/tree.rs:41-57 | a node made from line `p` gets, in order, exactly the later lines one level deeper, up to the first later line at or above its own level; deeper lines are skipped |
| Tree.RootChildren | src/tree.rs:52-61 | the root's scan never stops early, and a line becomes a direct child of the root exactly when its level is 0 |
| Tree.KidsSkip | src/tree.rs:48-54 | lines deeper than the current level are passed over at that level |
| Tree.KidsCount | src/tree.rs:48-51 | the nodes built at a level are no more than the lines in its scope |
| Tree.ParseSize | src/tree.rs:39-63 | the parsed tree has at most one node per line, plus the root |
| Tree.TreeText | src/tree.rs:65-84 | the text `generate_tree_string` returns: the node's line, then each child's text under the extended prefix, the last child marked last; it is never empty and always ends in a line feed |
| Tree.ChildTexts | src/tree.rs:74-81 | one rendered text per child, in order, each ending in a line feed |
| Tree.GenerateTreeString | src/tree.rs:65-84 | the loop yields the node's line followed by every child's text, which is `TreeText` |
| Tree.TreeTextIsPreOrder | src/tree.rs:65-84 | the rendering is one `\n`-terminated line per node, in pre-order, each drawn from its ancestors' last-child flags |
| Tree.ChildrenTextIsPreOrder | src/tree.rs:74-81 | the children's texts concatenated are the pre-order lines of the children's subtrees |
| Tree.HeadLine | src/tree.rs:66-72 | a node's own line is its prefix and connector (none when the prefix is empty) followed by the trimmed value |
| Tree.EntryLineUnder | src/tree.rs:75 | being drawn under a parent extends the prefix by four spaces for a last parent and by `│` and three spaces otherwise |
| Tree.LinesOfUnder | src/tree.rs:75 | a whole subtree listing drawn under a parent is drawn with the parent's extended prefix |
| Tree.PreOrderDepth | src/tree.rs:65-84 | below a node's own line, every line of its subtree carries its parent's flag as well as its own, so it is drawn with an extended prefix and a connector |
| Tree.PreOrderSize | src/tree.rs:65-84 | the rendering has exactly one line per node |
| Tree.LeafText | src/tree.rs:65-72 | a leaf draws as prefix, connector, value and a line feed |
| Tree.TwoChildrenText | src/tree.rs:74-81 | with two children, the first is drawn as not last and the second as last, under the extended prefix |
| Tree.TwoLeavesText | src/tree.rs:65-81 | a node with two leaves draws as three lines, with `├──` then `└──` |
| Tree.ExampleShapeText | src/tree.rs:11-17 | the header's tree shape draws with the root line `.`, four-space depth-1 prefixes, and `│` continuing under the non-last child |
| Tree.ReadBulletOf | src/tree.rs:45-46 | a line of spaces, `- ` and a label is read as that label at depth spaces/4 |
| Tree.ExampleBullets | src/tree.rs:4-9 | the header's four bullet lines read as depths 0, 1, 1, 0 |
| Tree.ExampleKids | src/tree.rs:41-58 | those depths give a root with `First(Second, Third)` and `Fourth` |
| Tree.HeaderExample | src/tree.rs:1-19 | the header's bullet list parses into `First(Second, Third)`, `Fourth` under `.` and renders exactly as the header shows |
| Tree.RenderTree | src/tree.rs:86-97 | `render_tree` drops the final buffer line (the end marker) and renders the tree parsed from the rest from `.` with an empty prefix |
| Tree.RenderedTreeLines | src/tree.rs:86-90 | the rendered tree is one line per node in pre-order, at most one more line than the buffer holds, starting with the bare root line `.`; every later line's entry has at least two flags, so it gets a prefix piece and a connector |
| Utils.DirName | src/utils.rs:17-19 | the components before the last one, joined by `/`: the directory, a `/` and the last component put back together give the path; a path without `/` has an empty directory |
| Utils.BaseName | src/utils.rs:17-18 | the popped last component: a suffix of the path that contains no `/` |
| Utils.Stem | src/utils.rs:22-24 | the first `.`-piece of a name: a prefix with no `.`, followed in the name by a `.` unless it is the whole name |
| Utils.WriteFilepath | src/utils.rs:15-29 | once the path is resolved, a result is always present: the split yields a last component, and splitting it always yields a first piece |
| Utils.PathParts | src/utils.rs:17-19 | popping the last `/`-component of `dir/file` separates `dir` from `file` |
| Utils.WriteFilepathParts | src/utils.rs:15-29 | the output is the directory up to the last `/`, a `/`, the file name up to its first `.`, and `.plus.txt` |
| Utils.StemClean | src/utils.rs:17-25 | the stem contains neither `.` nor `/` |
| Utils.CutAtFirstDot | src/utils.rs:22-25 | a name is cut at its first dot, so `a.tar.gz` gives `a.plus.txt` |
| Utils.OutputLocation | src/utils.rs:15-29 | the output lies in the input's directory, and its name is the stem followed by `.plus.txt` |
| Utils.StemOfOutput | src/utils.rs:22-25 | the stem of an output name is the stem it was made from |
| Utils.WriteFilepathIdempotent | src/utils.rs:15-29 | deriving the output path of an output path gives that same path again |
| Utils.WriteFilepathExample | src/utils.rs:44-47 | `/home/okabe/projects/txtplus/testdata/mock/test.txt` maps to `…/mock/test.plus.txt` |
| Text.Split | src/textbox.rs:88 | `split` yields at least one piece, and no piece contains the separator |
| Text.JoinSplit | src/textbox.rs:88 | joining the pieces of a split with the separator gives back the string |
| Text.SplitJoin | src/textbox.rs:88 | splitting a join of separator-free pieces gives back the pieces |
| Text.Words | src/textbox.rs:119 | every word of `split_whitespace` is non-empty and free of whitespace |
| Text.WordsJoin | src/textbox.rs:119-122 | the words of words joined by single spaces are those words |
| Text.WordsEmpty | src/textbox.rs:119 | a string has no words exactly when it is all whitespace |
| Text.TrimUntouched | src/tree.rs:72 | a value with no whitespace at either end is its own trim |
| Text.TrimClean | src/tree.rs:46 | a trimmed string is empty or has no whitespace at either end |

## Left out

- `abspath` (`shellexpand` and filesystem `canonicalize`): it depends on the
  environment and the file system. `WriteFilepath` takes the resolved
  absolute path as its input.
- The `unwrap` panics on a path that cannot be resolved are not modelled.
  They come from that same resolution.
- File I/O:
  - `append_to_file`;
  - removing an existing output file;
  - `File::open` and `BufReader::read_line`;
  - `OpenOptions`, `write_all` and `writeln!` in the renderers;
  - their `io::Error` results.

  The output file becomes a returned or field-held sequence of the chunks
  or rows appended to it. A `writeln!` row is followed by a line feed in the
  file.
- Reading the input: `ParseAndRender` takes the lines `read_line` would
  return, each with its terminator.
- The `regex` crate: the pattern `\[([^\]]*)\]` is modelled as a
  hand-written scanner, `Textbox.Segments`.
- `src/main.rs`: it only calls `parse_and_render` on a fixed path.
- Unicode: whitespace is the ASCII subset of Rust's `char::is_whitespace`
  (space and U+0009 to U+000D). Lengths count characters, which equals
  `len()` only for ASCII text.
- Textbox.RenderBox: requires a non-empty buffer. On an empty buffer the
  Rust code panics in every build: `n - 1` overflows in a debug build, and
  in a release build it wraps to `usize::MAX`, so the loop runs and
  `directive_cmd[0]` fails Rust's bounds check. The model does not describe
  that panic.
- The ignored `Result` of each `draw_texbox` call in `render_box` is not
  modelled.
- Tree.AddChildren: the `&mut TreeNode` argument is modelled as a datatype
  value passed in and returned, so aliasing is not captured.
- Tree.RenderTree: the popped buffer is returned as a new sequence rather
  than updated in place.
- `render_box` and `render_tree` are reached by nothing in the scanner. The
  model keeps them as separate entry points, as the code does.
