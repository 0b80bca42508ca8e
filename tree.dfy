/** The tree renderer of `src/tree.rs`: bullet lines are built into a
    rooted ordered tree by indentation depth (`parse_bullet_points` and its
    `add_children` helper), and the tree is drawn in pre-order with
    box-drawing connectors (`generate_tree_string`). */
module Tree {
  import opened Text

  datatype TreeNode = TreeNode(value: string, children: seq<TreeNode>)

  /* ---------------- parse_bullet_points / add_children ---------------- */

  /** Indentation depth: leading `' '` characters (tabs do not count) in
      units of four, rounded down. */
  function IndentLevel(line: string): (d: nat)
    ensures 4 * d <= |line| && forall j :: 0 <= j < 4 * d ==> line[j] == ' '
    ensures !(4 * d + 4 <= |line| && forall j :: 0 <= j < 4 * d + 4 ==> line[j] == ' ')
  {
    LeadingMatchesRun(line, ' ');
    LeadingMatches(line, ' ') / 4
  }

  /** The label: leading whitespace, then every leading `-`, then the
      surrounding whitespace removed. */
  function NodeValue(line: string): (v: string)
    ensures v == [] || (!IsWhitespace(v[0]) && !IsWhitespace(v[|v| - 1]))
  {
    TrimClean(TrimStartMatches(TrimStart(line), '-'));
    Trim(TrimStartMatches(TrimStart(line), '-'))
  }

  /** What `add_children` reads off one line: its depth and its label. */
  datatype Bullet = Bullet(level: nat, value: string)

  function ReadBullet(line: string): Bullet {
    Bullet(IndentLevel(line), NodeValue(line))
  }

  /** Each line read in turn. */
  function Bullets(lines: seq<string>): (bs: seq<Bullet>)
    ensures |bs| == |lines|
  {
    if lines == [] then [] else [ReadBullet(lines[0])] + Bullets(lines[1..])
  }

  lemma {:induction false} BulletAt(lines: seq<string>, i: nat)
    requires i < |lines|
    ensures Bullets(lines)[i] == ReadBullet(lines[i])
  {
    if i > 0 {
      BulletAt(lines[1..], i - 1);
    }
  }

  /** Reading the lines after a position is reading all and dropping. */
  lemma {:induction false} BulletsDrop(lines: seq<string>, i: nat)
    requires i <= |lines|
    ensures Bullets(lines[i..]) == Bullets(lines)[i..]
  {
    if i > 0 {
      BulletsDrop(lines[1..], i - 1);
      assert lines[1..][i - 1..] == lines[i..];
    } else {
      DropNone(lines);
      DropNone(Bullets(lines));
    }
  }

  /** The children `add_children(node, lines, level)` appends to `node`:
      each line at `level` becomes a child whose own children are collected
      from the lines after it at `level + 1`; deeper lines are skipped, and
      the scan stops at the first shallower line. */
  function Kids(bs: seq<Bullet>, level: nat): (ks: seq<TreeNode>)
    ensures |ks| <= |bs|
    decreases |bs|
  {
    if bs == [] then []
    else if bs[0].level == level then
      [TreeNode(bs[0].value, Kids(bs[1..], level + 1))] + Kids(bs[1..], level)
    else if bs[0].level < level then []
    else Kids(bs[1..], level)
  }

  /** `Kids` unfolded at position `i`. */
  lemma KidsUnfold(bs: seq<Bullet>, i: nat, level: nat)
    requires i < |bs|
    ensures bs[i].level == level ==>
              Kids(bs[i..], level) == [TreeNode(bs[i].value, Kids(bs[i + 1..], level + 1))] + Kids(bs[i + 1..], level)
    ensures bs[i].level < level ==> Kids(bs[i..], level) == []
    ensures bs[i].level > level ==> Kids(bs[i..], level) == Kids(bs[i + 1..], level)
  {
    DropFirst(bs, i);
  }

  /** The indent level and the label of line `i`, as the loop body of
      `add_children` computes them. */
  method ReadLine(lines: seq<string>, i: nat) returns (bullet: Bullet)
    requires i < |lines|
    ensures bullet == Bullets(lines)[i]
  {
    bullet := ReadBullet(lines[i]);
    BulletAt(lines, i);
  }

  /** `add_children`: the `while` loop over `lines`, recursing into the
      lines after each child.  The node the source updates through
      `&mut TreeNode` is passed in and returned updated. */
  method AddChildren(node: TreeNode, lines: seq<string>, level: nat) returns (result: TreeNode)
    ensures result == TreeNode(node.value, node.children + Kids(Bullets(lines), level))
    decreases |lines|
  {
    ghost var bs := Bullets(lines);
    var children := node.children;
    var i := 0;
    while i < |lines|
      invariant 0 <= i <= |lines|
      invariant children + Kids(bs[i..], level) == node.children + Kids(bs, level)
    {
      var bullet := ReadLine(lines, i);
      var indentLevel, value := bullet.level, bullet.value;
      if indentLevel == level {
        var childNode := AddChildren(TreeNode(value, []), lines[i + 1..], level + 1);
        assert children + [childNode] + Kids(bs[i + 1..], level) == node.children + Kids(bs, level) by {
          BulletsDrop(lines, i + 1);
          KidsUnfold(bs, i, level);
          EmptyAppend(Kids(bs[i + 1..], level + 1));
          Assoc(children, [childNode], Kids(bs[i + 1..], level));
        }
        children := children + [childNode];
      } else if indentLevel < level {
        assert Kids(bs[i..], level) == [] by {
          KidsUnfold(bs, i, level);
        }
        break;
      } else {
        assert Kids(bs[i..], level) == Kids(bs[i + 1..], level) by {
          KidsUnfold(bs, i, level);
        }
      }
      i := i + 1;
    }
    if i == |lines| {
      DropAll(bs);
    }
    result := TreeNode(node.value, children);
  }

  /** The tree `parse_bullet_points` builds: a synthetic root `"."` with the
      level-0 lines as its children. */
  function ParsedTree(lines: seq<string>): TreeNode {
    TreeNode(".", Kids(Bullets(lines), 0))
  }

  /** `parse_bullet_points`. */
  method ParseBulletPoints(lines: seq<string>) returns (root: TreeNode)
    ensures root == ParsedTree(lines)
  {
    root := TreeNode(".", []);
    root := AddChildren(root, lines, 0);
  }

  /** The first position at or after `from` whose line is shallower than
      `level`, or the number of lines: where a scan started at `from` stops. */
  function ScopeEnd(bs: seq<Bullet>, level: nat, from: nat): (e: nat)
    requires from <= |bs|
    ensures from <= e <= |bs|
    ensures forall j :: from <= j < e ==> bs[j].level >= level
    ensures e < |bs| ==> bs[e].level < level
    decreases |bs| - from
  {
    if from == |bs| || bs[from].level < level then from
    else ScopeEnd(bs, level, from + 1)
  }

  /** The positions, from `from` on and in increasing order, of the lines at
      exactly `level` before the scan stops. */
  function LevelIndices(bs: seq<Bullet>, level: nat, from: nat): (idx: seq<nat>)
    requires from <= |bs|
    decreases |bs| - from
  {
    if from == |bs| || bs[from].level < level then []
    else if bs[from].level == level then [from] + LevelIndices(bs, level, from + 1)
    else LevelIndices(bs, level, from + 1)
  }

  /** Exactly the lines at `level` before the scan stops are listed, each
      once, in order. */
  lemma {:induction false} LevelIndicesExact(bs: seq<Bullet>, level: nat, from: nat)
    requires from <= |bs|
    ensures var idx, e := LevelIndices(bs, level, from), ScopeEnd(bs, level, from);
            (forall k :: 0 <= k < |idx| ==> from <= idx[k] < e && bs[idx[k]].level == level) &&
            (forall k, m :: 0 <= k < m < |idx| ==> idx[k] < idx[m]) &&
            (forall j :: from <= j < e && bs[j].level == level ==> j in idx)
    decreases |bs| - from
  {
    if from < |bs| && bs[from].level >= level {
      LevelIndicesExact(bs, level, from + 1);
      var it := LevelIndices(bs, level, from + 1);
      assert ScopeEnd(bs, level, from) == ScopeEnd(bs, level, from + 1);
      if bs[from].level == level {
        var idx := [from] + it;
        assert LevelIndices(bs, level, from) == idx;
        forall k | 0 < k < |idx| ensures idx[k] == it[k - 1] {
        }
        assert idx[0] == from;
      } else {
        assert LevelIndices(bs, level, from) == it;
      }
    }
  }

  /** The children built for `bs[from..]` at `level` are, in order, one
      node per position `LevelIndices` lists, each holding the children built
      at the next level from the lines after it. */
  lemma {:induction false} KidsAt(bs: seq<Bullet>, level: nat, from: nat)
    requires from <= |bs|
    ensures var ks, idx := Kids(bs[from..], level), LevelIndices(bs, level, from);
            |ks| == |idx| &&
            forall k :: 0 <= k < |ks| ==>
              idx[k] < |bs| &&
              ks[k] == TreeNode(bs[idx[k]].value, Kids(bs[idx[k] + 1..], level + 1))
    decreases |bs| - from
  {
    if from == |bs| {
      DropAll(bs);
    } else {
      KidsUnfold(bs, from, level);
      KidsAt(bs, level, from + 1);
      if bs[from].level == level {
        KidsAtHere(bs, level, from);
      }
    }
  }

  /** The step of `KidsAt` at a line of exactly `level`. */
  lemma KidsAtHere(bs: seq<Bullet>, level: nat, from: nat)
    requires from < |bs| && bs[from].level == level
    requires var kt, it := Kids(bs[from + 1..], level), LevelIndices(bs, level, from + 1);
             |kt| == |it| &&
             forall k :: 0 <= k < |kt| ==>
               it[k] < |bs| &&
               kt[k] == TreeNode(bs[it[k]].value, Kids(bs[it[k] + 1..], level + 1))
    ensures var ks, idx := Kids(bs[from..], level), LevelIndices(bs, level, from);
            |ks| == |idx| &&
            forall k :: 0 <= k < |ks| ==>
              idx[k] < |bs| &&
              ks[k] == TreeNode(bs[idx[k]].value, Kids(bs[idx[k] + 1..], level + 1))
  {
    KidsUnfold(bs, from, level);
    var kt, it := Kids(bs[from + 1..], level), LevelIndices(bs, level, from + 1);
    var ks := [TreeNode(bs[from].value, Kids(bs[from + 1..], level + 1))] + kt;
    var idx := [from] + it;
    assert Kids(bs[from..], level) == ks;
    assert LevelIndices(bs, level, from) == idx;
    forall k | 0 <= k < |ks|
      ensures idx[k] < |bs| && ks[k] == TreeNode(bs[idx[k]].value, Kids(bs[idx[k] + 1..], level + 1))
    {
      if k > 0 {
        assert ks[k] == kt[k - 1] && idx[k] == it[k - 1];
      }
    }
  }

  /** A node made from the line at position `p` gets as children exactly the
      later lines one level deeper, in order, up to the first later line at
      its own level or shallower (`ScopeEnd`); lines deeper still are left to
      those children. */
  lemma ChildrenOfLine(bs: seq<Bullet>, p: nat)
    requires p < |bs|
    ensures var depth := bs[p].level + 1;
            var kids, idx, e := Kids(bs[p + 1..], depth), LevelIndices(bs, depth, p + 1), ScopeEnd(bs, depth, p + 1);
            |kids| == |idx| &&
            (forall k :: 0 <= k < |kids| ==> p < idx[k] < e && bs[idx[k]].level == depth && kids[k].value == bs[idx[k]].value) &&
            (forall k, m :: 0 <= k < m < |idx| ==> idx[k] < idx[m]) &&
            (forall j :: p < j < e && bs[j].level == depth ==> j in idx) &&
            (forall j :: p < j < e ==> bs[j].level > bs[p].level) &&
            (e < |bs| ==> bs[e].level <= bs[p].level)
  {
    KidsAt(bs, bs[p].level + 1, p + 1);
    LevelIndicesExact(bs, bs[p].level + 1, p + 1);
  }

  /** Every line at depth 0 is a direct child of the root, in input order:
      no line is shallower than level 0, so the scan never stops early. */
  lemma {:induction false} RootChildren(lines: seq<string>)
    ensures var bs := Bullets(lines);
            ScopeEnd(bs, 0, 0) == |lines| &&
            forall j :: 0 <= j < |lines| ==> (IndentLevel(lines[j]) == 0 <==> j in LevelIndices(bs, 0, 0))
  {
    var bs := Bullets(lines);
    LevelIndicesExact(bs, 0, 0);
    forall j | 0 <= j < |lines| ensures bs[j] == ReadBullet(lines[j]) {
      BulletAt(lines, j);
    }
  }

  function Size(t: TreeNode): nat
    decreases t, 1
  {
    1 + SizeOf(t.children)
  }

  function SizeOf(ts: seq<TreeNode>): nat
    decreases ts, 0
  {
    if ts == [] then 0 else Size(ts[0]) + SizeOf(ts[1..])
  }

  lemma {:induction false} SizeOfCons(t: TreeNode, ts: seq<TreeNode>)
    ensures SizeOf([t] + ts) == Size(t) + SizeOf(ts)
  {
    DropFirst([t] + ts, 0);
  }

  /** Lines deeper than `level` are skipped. */
  lemma {:induction false} KidsSkip(bs: seq<Bullet>, level: nat, from: nat, e: nat)
    requires from <= e <= |bs|
    requires forall j :: from <= j < e ==> bs[j].level > level
    ensures Kids(bs[from..], level) == Kids(bs[e..], level)
    decreases e - from
  {
    if from < e {
      KidsUnfold(bs, from, level);
      KidsSkip(bs, level, from + 1, e);
    }
  }

  /** Lines no shallower than `level` do not stop the scan. */
  lemma {:induction false} ScopeEndSkip(bs: seq<Bullet>, level: nat, from: nat, e: nat)
    requires from <= e <= |bs|
    requires forall j :: from <= j < e ==> bs[j].level >= level
    ensures ScopeEnd(bs, level, from) == ScopeEnd(bs, level, e)
    decreases e - from
  {
    if from < e {
      ScopeEndSkip(bs, level, from + 1, e);
    }
  }

  /** Each line before the scan stops yields at most one node. */
  lemma {:induction false} KidsCount(bs: seq<Bullet>, level: nat, from: nat)
    requires from <= |bs|
    ensures SizeOf(Kids(bs[from..], level)) <= ScopeEnd(bs, level, from) - from
    decreases |bs| - from
  {
    if from == |bs| {
      DropAll(bs);
    } else {
      KidsUnfold(bs, from, level);
      if bs[from].level == level {
        var e := ScopeEnd(bs, level + 1, from + 1);
        KidsCount(bs, level + 1, from + 1);
        KidsSkip(bs, level, from + 1, e);
        KidsCount(bs, level, e);
        ScopeEndSkip(bs, level, from, e);
        SizeOfCons(TreeNode(bs[from].value, Kids(bs[from + 1..], level + 1)), Kids(bs[from + 1..], level));
      } else if bs[from].level > level {
        KidsCount(bs, level, from + 1);
      }
    }
  }

  /** The parsed tree has at most one node per line, plus the root. */
  lemma ParseSize(lines: seq<string>)
    ensures Size(ParsedTree(lines)) <= |lines| + 1
  {
    KidsCount(Bullets(lines), 0, 0);
    DropNone(Bullets(lines));
  }

  /* ---------------- generate_tree_string ---------------- */

  function Connector(isLast: bool): string {
    if isLast then "└── " else "├── "
  }

  /** What a node adds to its children's prefix. */
  function Extension(isLast: bool): string {
    if isLast then "    " else "│   "
  }

  /** The text `generate_tree_string(node, prefix, is_last)` returns: the
      node's own line, then each child's text with the extended prefix, the
      last child marked as last. */
  function TreeText(node: TreeNode, prefix: string, isLast: bool): (t: string)
    ensures t != [] && t[|t| - 1] == '\n'
    decreases node, 1
  {
    var currentPrefix := if prefix != [] then prefix + Connector(isLast) else prefix;
    var texts := ChildTexts(node.children, prefix + Extension(isLast));
    FlattenEndsIn(texts, '\n');
    currentPrefix + Trim(node.value) + "\n" + Flatten(texts)
  }

  /** The text of each child, drawn with `prefix`, the last one as last. */
  function ChildTexts(children: seq<TreeNode>, prefix: string): (r: seq<string>)
    ensures |r| == |children|
    ensures forall k :: 0 <= k < |r| ==> r[k] != [] && r[k][|r[k]| - 1] == '\n'
    decreases children, 0
  {
    seq(|children|, k requires 0 <= k < |children| => TreeText(children[k], prefix, k == |children| - 1))
  }

  lemma ChildTextAt(children: seq<TreeNode>, prefix: string, k: nat)
    requires k < |children|
    ensures ChildTexts(children, prefix)[k] == TreeText(children[k], prefix, k == |children| - 1)
  {
  }

  /** `generate_tree_string`: the node's line, then a `for` loop appending
      the text of each child. */
  method GenerateTreeString(node: TreeNode, prefix: string, isLast: bool) returns (treeString: string)
    ensures treeString == TreeText(node, prefix, isLast)
    decreases node
  {
    var connector := Connector(isLast);
    var currentPrefix := prefix;
    if prefix != [] {
      currentPrefix := currentPrefix + connector;
    }
    treeString := currentPrefix + Trim(node.value) + "\n";
    ghost var head := treeString;
    var children := node.children;
    var newPrefix := prefix + Extension(isLast);
    ghost var texts := ChildTexts(children, newPrefix);
    var n := |children|;
    for i := 0 to n
      invariant treeString == head + Flatten(texts[..i])
    {
      var childString := GenerateTreeString(children[i], newPrefix, i == n - 1);
      ChildTextAt(children, newPrefix, i);
      Accumulate(treeString, head, texts, i, childString);
      treeString := treeString + childString;
    }
    TakeAll(texts);
  }

  /** A node as seen in a pre-order listing: the last-child flags along its
      path (starting with the flag of the node the listing starts from, and
      ending with its own), and its value. */
  datatype Entry = Entry(lastFlags: seq<bool>, value: string)

  /** The pre-order listing of the tree under `node`. */
  function PreOrder(node: TreeNode, isLast: bool): (r: seq<Entry>)
    decreases node, 1
  {
    [Entry([isLast], node.value)] + ChildEntries(node.children, 0, isLast)
  }

  function ChildEntries(children: seq<TreeNode>, i: nat, parentLast: bool): seq<Entry>
    requires i <= |children|
    decreases children, 0, |children| - i
  {
    if i == |children| then []
    else Under(parentLast, PreOrder(children[i], i == |children| - 1)) + ChildEntries(children, i + 1, parentLast)
  }

  /** The entries seen one level further up: the parent's flag goes first. */
  function Under(parentLast: bool, es: seq<Entry>): (r: seq<Entry>)
    ensures |r| == |es|
  {
    if es == [] then [] else [Entry([parentLast] + es[0].lastFlags, es[0].value)] + Under(parentLast, es[1..])
  }

  /** The prefix the ancestors contribute, one four-column piece each. */
  function Bars(flags: seq<bool>): string {
    if flags == [] then [] else Extension(flags[0]) + Bars(flags[1..])
  }

  /** The line drawn for an entry below a node drawn with `prefix`. */
  function EntryLine(prefix: string, e: Entry): string {
    var fs := e.lastFlags;
    if fs == [] then []
    else
      var p := prefix + Bars(fs[..|fs| - 1]);
      (if p != [] then p + Connector(fs[|fs| - 1]) else p) + Trim(e.value) + "\n"
  }

  function LinesOf(prefix: string, es: seq<Entry>): string {
    if es == [] then [] else EntryLine(prefix, es[0]) + LinesOf(prefix, es[1..])
  }

  lemma {:induction false} LinesOfAppend(prefix: string, a: seq<Entry>, b: seq<Entry>)
    ensures LinesOf(prefix, a + b) == LinesOf(prefix, a) + LinesOf(prefix, b)
  {
    if a == [] {
      assert a + b == b;
    } else {
      assert (a + b)[0] == a[0] && (a + b)[1..] == a[1..] + b;
      LinesOfAppend(prefix, a[1..], b);
    }
  }

  /** One entry listed under its parent draws like the bare entry under the
      parent's extended prefix. */
  lemma EntryLineUnder(prefix: string, parentLast: bool, e: Entry)
    requires e.lastFlags != []
    ensures EntryLine(prefix, Entry([parentLast] + e.lastFlags, e.value)) == EntryLine(prefix + Extension(parentLast), e)
  {
    var fs := e.lastFlags;
    var gs := [parentLast] + fs;
    assert gs[..|gs| - 1] == [parentLast] + fs[..|fs| - 1];
    assert Bars(gs[..|gs| - 1]) == Extension(parentLast) + Bars(fs[..|fs| - 1]);
    assert prefix + Bars(gs[..|gs| - 1]) == (prefix + Extension(parentLast)) + Bars(fs[..|fs| - 1]);
    assert gs[|gs| - 1] == fs[|fs| - 1];
  }

  /** Entries listed under their parent draw like the bare entries under the
      parent's extended prefix. */
  lemma {:induction false} LinesOfUnder(prefix: string, parentLast: bool, es: seq<Entry>)
    requires forall k :: 0 <= k < |es| ==> es[k].lastFlags != []
    ensures LinesOf(prefix, Under(parentLast, es)) == LinesOf(prefix + Extension(parentLast), es)
  {
    if es != [] {
      EntryLineUnder(prefix, parentLast, es[0]);
      LinesOfUnder(prefix, parentLast, es[1..]);
      var u := Under(parentLast, es);
      assert u[0] == Entry([parentLast] + es[0].lastFlags, es[0].value);
      assert u[1..] == Under(parentLast, es[1..]);
    }
  }

  lemma {:induction false} PreOrderFlags(node: TreeNode, isLast: bool)
    ensures forall k :: 0 <= k < |PreOrder(node, isLast)| ==> PreOrder(node, isLast)[k].lastFlags != []
    decreases node, 1
  {
    ChildEntriesFlags(node.children, 0, isLast);
  }

  lemma {:induction false} ChildEntriesFlags(children: seq<TreeNode>, i: nat, parentLast: bool)
    requires i <= |children|
    ensures forall k :: 0 <= k < |ChildEntries(children, i, parentLast)| ==>
              ChildEntries(children, i, parentLast)[k].lastFlags != []
    decreases children, 0, |children| - i
  {
    if i < |children| {
      ChildEntriesFlags(children, i + 1, parentLast);
      UnderFlags(parentLast, PreOrder(children[i], i == |children| - 1));
    }
  }

  lemma {:induction false} UnderFlags(parentLast: bool, es: seq<Entry>)
    ensures forall k :: 0 <= k < |Under(parentLast, es)| ==> Under(parentLast, es)[k].lastFlags != []
  {
    if es != [] {
      UnderFlags(parentLast, es[1..]);
    }
  }

  /** The rendered text is the pre-order listing, one line per node: each
      line is the starting prefix, one `"    "` or `"│   "` per ancestor below
      the start (by whether that ancestor is a last child), the connector
      for the node's own position (left out when the whole prefix is empty),
      and the trimmed value. */
  lemma {:induction false} TreeTextIsPreOrder(node: TreeNode, prefix: string, isLast: bool)
    ensures TreeText(node, prefix, isLast) == LinesOf(prefix, PreOrder(node, isLast))
    decreases node, 1
  {
    var head := Entry([isLast], node.value);
    var rest := ChildEntries(node.children, 0, isLast);
    HeadLine(prefix, isLast, node.value);
    LinesOfAppend(prefix, [head], rest);
    assert LinesOf(prefix, [head]) == EntryLine(prefix, head);
    ChildrenTextIsPreOrder(node.children, 0, prefix, isLast);
  }

  /** The line of the node the listing starts from. */
  lemma HeadLine(prefix: string, isLast: bool, value: string)
    ensures EntryLine(prefix, Entry([isLast], value)) ==
            (if prefix != [] then prefix + Connector(isLast) else prefix) + Trim(value) + "\n"
  {
    assert ([isLast])[..0] == [];
    assert prefix + Bars([]) == prefix;
  }

  lemma {:induction false} ChildrenTextIsPreOrder(children: seq<TreeNode>, i: nat, prefix: string, parentLast: bool)
    requires i <= |children|
    ensures Flatten(ChildTexts(children, prefix + Extension(parentLast))[i..])
            == LinesOf(prefix, ChildEntries(children, i, parentLast))
    decreases children, 0, |children| - i
  {
    var q := prefix + Extension(parentLast);
    var texts := ChildTexts(children, q);
    if i < |children| {
      var last := i == |children| - 1;
      var es := PreOrder(children[i], last);
      var rest := ChildEntries(children, i + 1, parentLast);
      assert ChildEntries(children, i, parentLast) == Under(parentLast, es) + rest;
      ChildTextAt(children, q, i);
      TreeTextIsPreOrder(children[i], q, last);
      PreOrderFlags(children[i], last);
      LinesOfUnder(prefix, parentLast, es);
      // texts[i] == LinesOf(prefix, Under(parentLast, es))
      ChildrenTextIsPreOrder(children, i + 1, prefix, parentLast);
      LinesOfAppend(prefix, Under(parentLast, es), rest);
      FlattenFrom(texts, i);
    } else {
      DropAll(texts);
    }
  }

  /** The listing has one entry per node. */
  lemma {:induction false} PreOrderSize(node: TreeNode, isLast: bool)
    ensures |PreOrder(node, isLast)| == Size(node)
    decreases node, 1
  {
    ChildEntriesSize(node.children, 0, isLast);
  }

  lemma {:induction false} ChildEntriesSize(children: seq<TreeNode>, i: nat, parentLast: bool)
    requires i <= |children|
    ensures |ChildEntries(children, i, parentLast)| == SizeOf(children[i..])
    decreases children, 0, |children| - i
  {
    if i < |children| {
      PreOrderSize(children[i], i == |children| - 1);
      ChildEntriesSize(children, i + 1, parentLast);
      assert children[i..][1..] == children[i + 1..];
    } else {
      assert children[i..] == [];
    }
  }

  /** Drawn under a parent, every entry carries one flag more. */
  lemma {:induction false} UnderDepth(parentLast: bool, es: seq<Entry>, d: nat)
    requires forall k :: 0 <= k < |es| ==> |es[k].lastFlags| >= d
    ensures forall k :: 0 <= k < |es| ==> |Under(parentLast, es)[k].lastFlags| >= d + 1
  {
    if es != [] {
      UnderDepth(parentLast, es[1..], d);
      var r := Under(parentLast, es);
      forall k | 0 <= k < |es| ensures |r[k].lastFlags| >= d + 1 {
        if k > 0 {
          assert r[k] == Under(parentLast, es[1..])[k - 1];
        }
      }
    }
  }

  /** Every entry has a flag of its own; every entry below the first has
      its parent's flag as well. */
  lemma {:induction false} PreOrderDepth(node: TreeNode, isLast: bool)
    ensures forall k :: 1 <= k < |PreOrder(node, isLast)| ==> |PreOrder(node, isLast)[k].lastFlags| >= 2
    decreases node, 1
  {
    ChildEntriesDepth(node.children, 0, isLast);
    var es := PreOrder(node, isLast);
    var cs := ChildEntries(node.children, 0, isLast);
    assert es == [Entry([isLast], node.value)] + cs;
    forall k | 1 <= k < |es| ensures |es[k].lastFlags| >= 2 {
      assert es[k] == cs[k - 1];
    }
  }

  lemma {:induction false} ChildEntriesDepth(children: seq<TreeNode>, i: nat, parentLast: bool)
    requires i <= |children|
    ensures forall k :: 0 <= k < |ChildEntries(children, i, parentLast)| ==> |ChildEntries(children, i, parentLast)[k].lastFlags| >= 2
    decreases children, 0, |children| - i
  {
    if i < |children| {
      var es := PreOrder(children[i], i == |children| - 1);
      PreOrderDepth(children[i], i == |children| - 1);
      assert es[0].lastFlags == [i == |children| - 1];
      assert forall k :: 0 <= k < |es| ==> |es[k].lastFlags| >= 1;
      UnderDepth(parentLast, es, 1);
      ChildEntriesDepth(children, i + 1, parentLast);
      var u := Under(parentLast, es);
      var rest := ChildEntries(children, i + 1, parentLast);
      var cs := ChildEntries(children, i, parentLast);
      assert cs == u + rest;
      forall k | 0 <= k < |cs| ensures |cs[k].lastFlags| >= 2 {
        if k < |u| { assert cs[k] == u[k]; } else { assert cs[k] == rest[k - |u|]; }
      }
    }
  }

  /* ---------------- render_tree ---------------- */

  /** `render_tree`: pops the final buffer element (the `@@end` line; a pop
      of an empty buffer removes nothing), parses the rest and draws it from
      the root with an empty prefix, marked as last. */
  method RenderTree(directives: seq<string>) returns (remaining: seq<string>, treeString: string)
    ensures remaining == if directives == [] then [] else directives[..|directives| - 1]
    ensures treeString == TreeText(ParsedTree(remaining), "", true)
  {
    remaining := if directives == [] then [] else directives[..|directives| - 1];
    var tree := ParseBulletPoints(remaining);
    treeString := GenerateTreeString(tree, "", true);
  }

  /** The drawn tree starts with the root line `"."`, and every other node
      of the buffer's bullet lines gets one line whose entry carries at
      least two flags: one four-column `Bars` piece of prefix, then its
      connector. */
  lemma RenderedTreeLines(lines: seq<string>)
    ensures var root := ParsedTree(lines);
            var es := PreOrder(root, true);
            TreeText(root, "", true) == LinesOf("", es) &&
            |es| == Size(root) <= |lines| + 1 &&
            EntryLine("", es[0]) == ".\n" &&
            forall k :: 1 <= k < |es| ==> |es[k].lastFlags| >= 2
  {
    var root := ParsedTree(lines);
    PreOrderDepth(root, true);
    TreeTextIsPreOrder(root, "", true);
    PreOrderSize(root, true);
    ParseSize(lines);
    assert PreOrder(root, true)[0] == Entry([true], ".");
    HeadLine("", true, ".");
    TrimDot();
  }

  lemma TrimDot()
    ensures Trim(".") == "."
  {
    assert LeadingWhitespace(".") == 0;
    assert TrailingWhitespace(".") == 0;
  }

  /* ---------------- the example in the header of `src/tree.rs` ---------------- */

  const ExampleLines: seq<string> := ["- First", "    - Second", "    - Third", "- Fourth"]

  const ExampleTree: TreeNode :=
    TreeNode(".", [TreeNode("First", [TreeNode("Second", []), TreeNode("Third", [])]), TreeNode("Fourth", [])])

  /** Every leading dash goes, however many there are: `--- x` reads as
      `x`.  Dashes after the first space stay. */
  lemma NodeValueOfDashes(pad: string, dashes: string, word: string)
    requires forall k :: 0 <= k < |pad| ==> IsWhitespace(pad[k])
    requires dashes != [] && forall k :: 0 <= k < |dashes| ==> dashes[k] == '-'
    requires word != [] && !IsWhitespace(word[0]) && !IsWhitespace(word[|word| - 1])
    ensures NodeValue(pad + dashes + " " + word) == word
  {
    var line := pad + dashes + " " + word;
    var rest := dashes + (" " + word);
    assert line == pad + rest;
    LeadingWhitespaceOfPad(pad, rest);
    assert TrimStart(line) == rest;
    LeadingMatchesOfPad(dashes, '-', " " + word);
    assert TrimStartMatches(rest, '-') == " " + word;
    TrimPadded(" ", word);
  }

  /** A line made of `pad` spaces, a dash, a space and a label reads as
      that label at depth `|pad| / 4`. */
  lemma ReadBulletOf(line: string, pad: string, word: string)
    requires line == pad + "- " + word
    requires forall k :: 0 <= k < |pad| ==> pad[k] == ' '
    requires word != [] && !IsWhitespace(word[0]) && !IsWhitespace(word[|word| - 1]) && word[0] != '-'
    ensures ReadBullet(line) == Bullet(|pad| / 4, word)
  {
    var dashed := "- " + word;
    assert line == pad + dashed;
    LeadingMatchesOfPad(pad, ' ', dashed);
    LeadingWhitespaceOfPad(pad, dashed);
    assert line[|pad|..] == dashed;
    assert dashed == "-" + (" " + word);
    LeadingMatchesOfPad("-", '-', " " + word);
    assert dashed[1..] == " " + word;
    TrimPadded(" ", word);
  }

  lemma BulletsOfFour(ls: seq<string>)
    requires |ls| == 4
    ensures Bullets(ls) == [ReadBullet(ls[0]), ReadBullet(ls[1]), ReadBullet(ls[2]), ReadBullet(ls[3])]
  {
    var bs := Bullets(ls);
    assert bs == [bs[0], bs[1], bs[2], bs[3]];
    BulletAt(ls, 0);
    BulletAt(ls, 1);
    BulletAt(ls, 2);
    BulletAt(ls, 3);
  }

  lemma ExampleBullet0() ensures ReadBullet(ExampleLines[0]) == Bullet(0, "First") {
    ReadBulletOf(ExampleLines[0], "", "First");
  }

  lemma ExampleBullet1() ensures ReadBullet(ExampleLines[1]) == Bullet(1, "Second") {
    ReadBulletOf(ExampleLines[1], "    ", "Second");
  }

  lemma ExampleBullet2() ensures ReadBullet(ExampleLines[2]) == Bullet(1, "Third") {
    ReadBulletOf(ExampleLines[2], "    ", "Third");
  }

  lemma ExampleBullet3() ensures ReadBullet(ExampleLines[3]) == Bullet(0, "Fourth") {
    ReadBulletOf(ExampleLines[3], "", "Fourth");
  }

  lemma ExampleBullets()
    ensures Bullets(ExampleLines) == [Bullet(0, "First"), Bullet(1, "Second"), Bullet(1, "Third"), Bullet(0, "Fourth")]
  {
    BulletsOfFour(ExampleLines);
    ExampleBullet0();
    ExampleBullet1();
    ExampleBullet2();
    ExampleBullet3();
  }

  lemma ExampleKids(bs: seq<Bullet>)
    requires bs == [Bullet(0, "First"), Bullet(1, "Second"), Bullet(1, "Third"), Bullet(0, "Fourth")]
    ensures Kids(bs, 0) == ExampleTree.children
  {
    var b1, b2, b3 := bs[1..], bs[2..], bs[3..];
    assert b1[1..] == b2 && b2[1..] == b3 && b3[1..] == [];
    assert Kids(b3, 2) == [] && Kids(b3, 1) == [];
    assert Kids(b3, 0) == [TreeNode("Fourth", [])];
    assert Kids(b2, 2) == [] && Kids(b2, 0) == Kids(b3, 0);
    assert Kids(b2, 1) == [TreeNode("Third", [])];
    assert Kids(b1, 1) == [TreeNode("Second", []), TreeNode("Third", [])];
    assert Kids(b1, 0) == Kids(b2, 0);
  }

  /** A node without children draws as its one line. */
  lemma LeafText(value: string, prefix: string, isLast: bool)
    requires prefix != []
    requires value != [] && !IsWhitespace(value[0]) && !IsWhitespace(value[|value| - 1])
    ensures TreeText(TreeNode(value, []), prefix, isLast) == prefix + Connector(isLast) + value + "\n"
  {
    TrimUntouched(value);
    assert ChildTexts([], prefix + Extension(isLast)) == [];
    assert Flatten<char>([]) == [];
  }

  /** A node with two children draws as its line and then theirs. */
  lemma TwoChildrenText(node: TreeNode, prefix: string, isLast: bool)
    requires |node.children| == 2
    ensures var q := prefix + Extension(isLast);
            TreeText(node, prefix, isLast) ==
            (if prefix != [] then prefix + Connector(isLast) else prefix) + Trim(node.value) + "\n" +
            TreeText(node.children[0], q, false) + TreeText(node.children[1], q, true)
  {
    var q := prefix + Extension(isLast);
    var texts := ChildTexts(node.children, q);
    ChildTextAt(node.children, q, 0);
    ChildTextAt(node.children, q, 1);
    FlattenPair(texts);
    var head := (if prefix != [] then prefix + Connector(isLast) else prefix) + Trim(node.value) + "\n";
    assert TreeText(node, prefix, isLast) == head + Flatten(texts);
    Assoc(head, texts[0], texts[1]);
  }

  /** Whether a label is drawn unchanged: it has no whitespace at its ends. */
  predicate Clean(w: string) {
    w != [] && !IsWhitespace(w[0]) && !IsWhitespace(w[|w| - 1])
  }

  /** A node with two leaf children draws as three lines. */
  lemma TwoLeavesText(v: string, a: string, b: string, prefix: string, isLast: bool)
    requires prefix != [] && Clean(v) && Clean(a) && Clean(b)
    ensures var q := prefix + Extension(isLast);
            TreeText(TreeNode(v, [TreeNode(a, []), TreeNode(b, [])]), prefix, isLast) ==
            prefix + Connector(isLast) + v + "\n" + (q + "├── " + a + "\n") + (q + "└── " + b + "\n")
  {
    var q := prefix + Extension(isLast);
    TwoChildrenText(TreeNode(v, [TreeNode(a, []), TreeNode(b, [])]), prefix, isLast);
    TrimUntouched(v);
    LeafText(a, q, false);
    LeafText(b, q, true);
  }

  lemma ExampleFirstText(v1: string, a: string, b: string)
    requires Clean(v1) && Clean(a) && Clean(b)
    ensures TreeText(TreeNode(v1, [TreeNode(a, []), TreeNode(b, [])]), "    ", false) ==
            "    ├── " + v1 + "\n" + ("    │   ├── " + a + "\n") + ("    │   └── " + b + "\n")
  {
    TwoLeavesText(v1, a, b, "    ", false);
    assert "    " + Connector(false) == "    ├── ";
    assert "    " + Extension(false) + "├── " == "    │   ├── ";
    assert "    " + Extension(false) + "└── " == "    │   └── ";
  }

  lemma ExampleLastText(v2: string)
    requires Clean(v2)
    ensures TreeText(TreeNode(v2, []), "    ", true) == "    └── " + v2 + "\n"
  {
    LeafText(v2, "    ", true);
    assert "    " + Connector(true) == "    └── ";
  }

  /** The shape of the header example, whatever its labels. */
  lemma ExampleShapeText(v1: string, a: string, b: string, v2: string)
    requires Clean(v1) && Clean(a) && Clean(b) && Clean(v2)
    ensures TreeText(TreeNode(".", [TreeNode(v1, [TreeNode(a, []), TreeNode(b, [])]), TreeNode(v2, [])]), "", true) ==
            ".\n" + ("    ├── " + v1 + "\n" + ("    │   ├── " + a + "\n") + ("    │   └── " + b + "\n")) +
            ("    └── " + v2 + "\n")
  {
    var first := TreeNode(v1, [TreeNode(a, []), TreeNode(b, [])]);
    ExampleFirstText(v1, a, b);
    ExampleLastText(v2);
    assert "" + Extension(true) == "    ";
    TwoChildrenText(TreeNode(".", [first, TreeNode(v2, [])]), "", true);
    TrimDot();
  }

  lemma ExampleLabelLines()
    ensures "    ├── " + "First" + "\n" == "    ├── First\n"
    ensures "    │   ├── " + "Second" + "\n" == "    │   ├── Second\n"
    ensures "    │   └── " + "Third" + "\n" == "    │   └── Third\n"
    ensures "    └── " + "Fourth" + "\n" == "    └── Fourth\n"
  {
  }

  lemma ExampleText()
    ensures TreeText(ExampleTree, "", true) ==
            ".\n" + "    ├── First\n" + "    │   ├── Second\n" + "    │   └── Third\n" + "    └── Fourth\n"
  {
    ExampleShapeText("First", "Second", "Third", "Fourth");
    ExampleLabelLines();
  }

  /** The bullet list in the header comment of `src/tree.rs` draws as the
      tree shown there. */
  lemma HeaderExample()
    ensures ParsedTree(ExampleLines) == ExampleTree
    ensures TreeText(ParsedTree(ExampleLines), "", true) ==
            ".\n" + "    ├── First\n" + "    │   ├── Second\n" + "    │   └── Third\n" + "    └── Fourth\n"
  {
    ExampleBullets();
    ExampleKids(Bullets(ExampleLines));
    ExampleText();
  }
}
