/** The output-path rule of `src/utils.rs`: `write_filepath` derives the
    file a document is rendered into from the document's absolute path. */
module Utils {
  import opened Text

  datatype Option<T> = None | Some(value: T)

  const Extension: string := ".plus.txt"

  /** Everything before the last `/`, or `""` when there is none: putting
      the directory, a `/` and the last component back together gives the
      path. */
  function DirName(p: string): (d: string)
    ensures '/' in p ==> p == d + "/" + BaseName(p)
    ensures '/' !in p ==> d == []
  {
    var k := LastIndexOf(p, '/');
    if k >= 0 then
      assert p == p[..k] + "/" + p[k + 1..];
      p[..k]
    else []
  }

  /** Everything after the last `/`: a suffix of the path with no `/`. */
  function BaseName(p: string): (b: string)
    ensures '/' !in b
    ensures |b| <= |p| && b == p[|p| - |b|..]
  {
    AfterLast(p, LastIndexOf(p, '/'), '/');
    p[LastIndexOf(p, '/') + 1..]
  }

  /** A file name up to its first `.`: a prefix of the name with no `.`,
      followed in the name by a `.` unless it is the whole name. */
  function Stem(name: string): (s: string)
    ensures '.' !in s
    ensures |s| <= |name| && s == name[..|s|]
    ensures |s| < |name| ==> name[|s|] == '.'
  {
    var k := IndexOf(name, '.');
    assert forall j :: 0 <= j < k ==> name[..k][j] != '.';
    name[..k]
  }

  /** `write_filepath` after `abspath` has resolved the path: split on `/`,
      pop the file name, join the directories back with `/`, and append the
      file name's first `.`-piece and `.plus.txt`.  Both `Option`s the source
      tests (the popped component and the first piece) are always present,
      because a split yields at least one piece. */
  function WriteFilepath(absPath: string): (r: Option<string>)
    ensures r.Some?
  {
    var pathComponents := Split(absPath, '/');
    if pathComponents == [] then None
    else
      var file := pathComponents[|pathComponents| - 1];
      var dirpath := Join(pathComponents[..|pathComponents| - 1], "/");
      var pieces := Split(file, '.');
      if pieces == [] then None
      else Some(dirpath + "/" + pieces[0] + Extension)
  }

  /** A path that ends in a `/`-free name splits into that name and what
      comes before its `/`. */
  lemma PathParts(dir: string, file: string)
    requires '/' !in file
    ensures DirName(dir + "/" + file) == dir
    ensures BaseName(dir + "/" + file) == file
  {
    LastIndexOfBefore(dir, '/', file);
    var p := dir + "/" + file;
    assert p[..|dir|] == dir;
    assert p[|dir| + 1..] == file;
  }

  /** The output path is the input's directory, a `/`, the stem of the
      input's file name, and `.plus.txt`. */
  lemma {:induction false} WriteFilepathParts(absPath: string)
    ensures WriteFilepath(absPath) == Some(DirName(absPath) + "/" + Stem(BaseName(absPath)) + Extension)
  {
    var comps := Split(absPath, '/');
    var m := |comps|;
    var file := comps[m - 1];
    var head := comps[..m - 1];
    JoinSplit(absPath, '/');
    SplitFirst(file, '.');
    if m == 1 {
      assert comps == [file];
      assert absPath == file;
      assert LastIndexOf(absPath, '/') == -1;
      DropNone(absPath);
    } else {
      assert comps == head + [file];
      JoinSnoc(head, file, "/");
      PathParts(Join(head, "/"), file);
    }
  }

  lemma AfterLast(p: string, k: int, c: char)
    requires -1 <= k < |p|
    requires forall j :: k < j < |p| ==> p[j] != c
    ensures c !in p[k + 1..]
  {
    var b := p[k + 1..];
    forall j | 0 <= j < |b| ensures b[j] != c {
      assert b[j] == p[k + 1 + j];
    }
  }

  /** The stem is free of `.`, and of the separator. */
  lemma StemClean(p: string)
    ensures '.' !in Stem(BaseName(p)) && '/' !in Stem(BaseName(p))
  {
    var b := BaseName(p);
    var s := Stem(b);
    forall j | 0 <= j < |s| ensures s[j] != '/' {
      assert s[j] == b[j];
    }
  }

  /** The output file sits in the input's directory, under the stem followed
      by `.plus.txt`. */
  lemma OutputLocation(absPath: string)
    ensures var out := WriteFilepath(absPath).value;
            DirName(out) == DirName(absPath) &&
            BaseName(out) == Stem(BaseName(absPath)) + Extension
  {
    WriteFilepathParts(absPath);
    var dir, stem := DirName(absPath), Stem(BaseName(absPath));
    StemClean(absPath);
    NameAvoidsSlash(stem);
    Assoc(dir + "/", stem, Extension);
    PathParts(dir, stem + Extension);
  }

  lemma NameAvoidsSlash(stem: string)
    requires '/' !in stem
    ensures '/' !in stem + Extension
  {
    var s := stem + Extension;
    forall j | 0 <= j < |s| ensures s[j] != '/' {
      if j >= |stem| {
        assert s[j] == Extension[j - |stem|];
      }
    }
  }

  /** A stem followed by `.plus.txt` has that stem. */
  lemma StemOfOutput(stem: string)
    requires '.' !in stem
    ensures Stem(stem + Extension) == stem
  {
    IndexOfAfter(stem, '.', Extension);
    assert IndexOf(Extension, '.') == 0;
    assert (stem + Extension)[..|stem|] == stem;
  }

  /** Deriving the output path of an output path changes nothing. */
  lemma WriteFilepathIdempotent(absPath: string)
    ensures WriteFilepath(WriteFilepath(absPath).value) == WriteFilepath(absPath)
  {
    var out := WriteFilepath(absPath).value;
    var dir, stem := DirName(absPath), Stem(BaseName(absPath));
    WriteFilepathParts(absPath);
    assert out == dir + "/" + stem + Extension;
    OutputLocation(absPath);
    StemClean(absPath);
    StemOfOutput(stem);
    WriteFilepathParts(out);
    assert WriteFilepath(out) == Some(dir + "/" + stem + Extension);
  }

  const ExampleDir: string := "/home/okabe/projects/txtplus/testdata/mock"

  lemma ExampleInput()
    ensures "/home/okabe/projects/txtplus/testdata/mock/test.txt" == ExampleDir + "/" + "test.txt"
  {
  }

  lemma ExampleStem()
    ensures Stem("test.txt") == "test"
  {
    IndexOfAfter("test", '.', ".txt");
    assert "test.txt" == "test" + ".txt";
  }

  lemma ExampleOutput()
    ensures ExampleDir + "/" + "test" + Extension == "/home/okabe/projects/txtplus/testdata/mock/test.plus.txt"
  {
  }

  /** The name is cut at its first dot, not at its last extension:
      `a.tar.gz` becomes `a.plus.txt`. */
  lemma CutAtFirstDot(dir: string, stem: string, rest: string)
    requires '/' !in stem && '/' !in rest && '.' !in stem
    ensures WriteFilepath(dir + "/" + stem + "." + rest) == Some(dir + "/" + stem + Extension)
  {
    var file := stem + "." + rest;
    assert '/' !in file by {
      assert forall j :: 0 <= j < |file| ==> file[j] == (if j < |stem| then stem[j] else if j == |stem| then '.' else rest[j - |stem| - 1]);
    }
    PathParts(dir, file);
    assert dir + "/" + stem + "." + rest == dir + "/" + file;
    WriteFilepathParts(dir + "/" + file);
    IndexOfAfter(stem, '.', "." + rest);
    assert file == stem + ("." + rest);
  }

  /** The absolute-path case of the module's own test. */
  lemma WriteFilepathExample()
    ensures WriteFilepath("/home/okabe/projects/txtplus/testdata/mock/test.txt")
            == Some("/home/okabe/projects/txtplus/testdata/mock/test.plus.txt")
  {
    ExampleInput();
    PathParts(ExampleDir, "test.txt");
    WriteFilepathParts(ExampleDir + "/" + "test.txt");
    ExampleStem();
    ExampleOutput();
  }
}
