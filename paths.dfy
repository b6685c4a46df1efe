/** POSIX path handling (`os.path.basename`, `dirname`, `splitext`, `join`)
    and the clip engine's output-path policy built on it. */
module Paths {
  import opened Wrappers

  const Sep: char := '/'
  const ExtSep: char := '.'

  /** Index of the last `c` in `s`, or -1 when there is none (`str.rfind`). */
  function RFind(s: string, c: char): (i: int)
    ensures -1 <= i < |s|
    decreases |s|
  {
    if s == [] then -1
    else if s[|s| - 1] == c then |s| - 1
    else RFind(s[..|s| - 1], c)
  }

  /** `RFind` finds the last occurrence: `c` sits at the index found and
      nowhere after it. */
  lemma {:induction false} RFindLast(s: string, c: char)
    ensures var i := RFind(s, c);
            && (0 <= i ==> s[i] == c)
            && (forall k :: i < k < |s| ==> s[k] != c)
    decreases |s|
  {
    if s != [] && s[|s| - 1] != c {
      var init := s[..|s| - 1];
      RFindLast(init, c);
      assert forall k :: 0 <= k < |init| ==> init[k] == s[k];
    }
  }

  /** Every character of `s` is `c`. */
  predicate AllChars(s: string, c: char)
  {
    forall k :: 0 <= k < |s| ==> s[k] == c
  }

  /** `s` without its trailing run of `c` (`str.rstrip(c)`). */
  function RStrip(s: string, c: char): (r: string)
    ensures |r| <= |s|
    decreases |s|
  {
    if s != [] && s[|s| - 1] == c then RStrip(s[..|s| - 1], c) else s
  }

  /** `RStrip` keeps a prefix, which does not end in `c`, and removes only
      copies of `c`. */
  lemma {:induction false} RStripRemovesTrailing(s: string, c: char)
    ensures var r := RStrip(s, c);
            && r == s[..|r|]
            && (r == [] || r[|r| - 1] != c)
            && (forall k :: |r| <= k < |s| ==> s[k] == c)
    decreases |s|
  {
    if s != [] && s[|s| - 1] == c {
      var init := s[..|s| - 1];
      RStripRemovesTrailing(init, c);
      var r := RStrip(init, c);
      assert r == init[..|r|];
      assert s[..|r|] == init[..|r|];
      assert forall k :: |r| <= k < |init| ==> init[k] == s[k];
    }
  }

  /** A directory as `dirname` produces it: empty, not ending in a separator,
      or made of separators only (the root). */
  predicate NormalDirectory(d: string)
  {
    d == [] || d[|d| - 1] != Sep || AllChars(d, Sep)
  }

  /** The final component of `p`: everything after its last separator. */
  function Basename(p: string): string
  {
    p[RFind(p, Sep) + 1..]
  }

  /** A base name is a suffix of its path, holds no separator, and is the
      whole path or starts right after a separator. */
  lemma BasenameIsLastComponent(p: string)
    ensures var r := Basename(p);
            && Sep !in r
            && |r| <= |p| && p == p[..|p| - |r|] + r
            && (|r| == |p| || p[|p| - |r| - 1] == Sep)
  {
    RFindLast(p, Sep);
    var i := RFind(p, Sep);
    var r := Basename(p);
    assert p == p[..i + 1] + r;
    forall k | 0 <= k < |r| ensures r[k] != Sep {
      assert r[k] == p[i + 1 + k];
    }
  }

  /** Everything before the last separator of `p`, with trailing separators
      removed unless it consists of separators only. */
  function Dirname(p: string): string
  {
    var head := p[..RFind(p, Sep) + 1];
    if head != [] && !AllChars(head, Sep) then RStrip(head, Sep) else head
  }

  /** The directory part of a head ending in a separator (as `dirname` takes
      it): a normal directory, a prefix of the head that is empty only when
      the head is, followed by separators only. */
  lemma StrippedHead(head: string)
    requires head == [] || head[|head| - 1] == Sep
    ensures var r := if head != [] && !AllChars(head, Sep) then RStrip(head, Sep) else head;
            && NormalDirectory(r)
            && r == head[..|r|]
            && (r != [] <==> head != [])
            && (forall k :: |r| <= k < |head| ==> head[k] == Sep)
  {
    if head != [] && !AllChars(head, Sep) {
      RStripRemovesTrailing(head, Sep);
    }
  }

  /** A directory name is a normal directory and a prefix of its path. It is
      empty exactly when the path holds no separator, and only separators
      lie between it and the base name. */
  lemma DirnameIsPrefix(p: string)
    ensures var r := Dirname(p);
            && NormalDirectory(r)
            && |r| <= |p| && r == p[..|r|]
            && (Sep !in p ==> r == [])
            && (r != [] <==> Sep in p)
            && (forall k :: |r| <= k < |p| - |Basename(p)| ==> p[k] == Sep)
  {
    RFindLast(p, Sep);
    var i := RFind(p, Sep);
    var head := p[..i + 1];
    StrippedHead(head);
    assert |Basename(p)| == |p| - |head|;
    if 0 <= i {
      assert p[i] in p;
    } else {
      assert forall k :: 0 <= k < |p| ==> p[k] != Sep;
    }
    var r := Dirname(p);
    assert r == p[..|r|] by {
      assert r == head[..|r|];
    }
    assert forall k :: |r| <= k < |head| ==> head[k] == p[k];
  }

  /** `os.path.splitext`: the extension runs from the last dot of the last
      component, provided that component has a non-dot character before the
      dot (so ".shp" and "..shp" have no extension). */
  function SplitExt(p: string): (string, string)
  {
    var sepIndex := RFind(p, Sep);
    var dotIndex := RFind(p, ExtSep);
    if sepIndex < dotIndex && exists k :: sepIndex + 1 <= k < dotIndex && p[k] != ExtSep then
      (p[..dotIndex], p[dotIndex..])
    else
      (p, [])
  }

  /** No `c` follows the index `RFind` returns. */
  lemma RFindAfter(s: string, c: char, k: int)
    requires RFind(s, c) < k < |s|
    ensures s[k] != c
  {
    RFindLast(s, c);
  }

  /** The stem and the extension put back together give the path; the
      extension is empty, or a dot followed by neither a separator nor
      another dot; and an extension is split off exactly when the last dot
      lies in the last component with a non-dot character before it there. */
  lemma SplitExtParts(p: string)
    ensures var (stem, ext) := SplitExt(p);
            && stem + ext == p
            && (ext == [] || (ext[0] == ExtSep && Sep !in ext && ExtSep !in ext[1..]))
            && (ext != [] <==>
                  var sepIndex, dotIndex := RFind(p, Sep), RFind(p, ExtSep);
                  sepIndex < dotIndex && exists k :: sepIndex < k < dotIndex && p[k] != ExtSep)
  {
    var sepIndex := RFind(p, Sep);
    var dotIndex := RFind(p, ExtSep);
    var (stem, ext) := SplitExt(p);
    if ext == [] {
      assert stem == p;
    } else {
      assert stem == p[..dotIndex] && ext == p[dotIndex..];
      assert p[..dotIndex] + p[dotIndex..] == p;
      assert ext[0] == ExtSep by {
        RFindLast(p, ExtSep);
      }
      forall k | 0 <= k < |ext| ensures ext[k] != Sep {
        assert ext[k] == p[dotIndex + k];
        RFindAfter(p, Sep, dotIndex + k);
      }
      forall k | 0 <= k < |ext[1..]| ensures ext[1..][k] != ExtSep {
        assert ext[1..][k] == p[dotIndex + 1 + k];
        RFindAfter(p, ExtSep, dotIndex + 1 + k);
      }
    }
  }

  /** A string without `c` has no last `c`. */
  lemma {:induction false} RFindAbsent(s: string, c: char)
    requires c !in s
    ensures RFind(s, c) == -1
    decreases |s|
  {
    if s != [] {
      var init := s[..|s| - 1];
      assert s[|s| - 1] in s;
      assert forall x :: x in init ==> x in s;
      RFindAbsent(init, c);
    }
  }

  /** A plain file name made of a stem holding some non-dot character and
      an extension made of one dot and no further dot splits into exactly
      that stem and that extension: "roads.shp" gives "roads" and ".shp". */
  lemma SplitExtOfStemAndExt(stem: string, ext: string)
    requires Sep !in stem && Sep !in ext
    requires exists k :: 0 <= k < |stem| && stem[k] != ExtSep
    requires ext != [] && ext[0] == ExtSep && ExtSep !in ext[1..]
    ensures SplitExt(stem + ext) == (stem, ext)
  {
    var p := stem + ext;
    NotInParts(Sep, stem, ext);
    RFindAbsent(p, Sep);
    var head := stem + [ExtSep];
    assert p == head + ext[1..] by {
      assert ext == [ExtSep] + ext[1..];
    }
    RFindSkipsSuffix(head, ext[1..], ExtSep);
    assert RFind(head, ExtSep) == |stem|;
    var k :| 0 <= k < |stem| && stem[k] != ExtSep;
    assert p[k] == stem[k];
    assert p[..|stem|] == stem && p[|stem|..] == ext;
  }

  /** The output name of a plain input name "stem.ext" is
      "stem" + postfix + ".ext". */
  lemma ClippedFileNameInsertsPostfix(stem: string, ext: string, postfix: string)
    requires Sep !in stem && Sep !in ext
    requires exists k :: 0 <= k < |stem| && stem[k] != ExtSep
    requires ext != [] && ext[0] == ExtSep && ExtSep !in ext[1..]
    ensures ClippedFileName(stem + ext, postfix) == stem + postfix + ext
  {
    NotInParts(Sep, stem, ext);
    RFindAbsent(stem + ext, Sep);
    assert Basename(stem + ext) == stem + ext;
    SplitExtOfStemAndExt(stem, ext);
  }

  /** `os.path.join(a, b)`: an absolute `b` replaces `a`; otherwise one
      separator is inserted unless `a` is empty or already ends with one. */
  function Join(a: string, b: string): string
  {
    if b != [] && b[0] == Sep then b
    else if a == [] || a[|a| - 1] == Sep then a + b
    else a + [Sep] + b
  }

  /** The output file name: the input's base name with `postfix` inserted
      between its stem and its extension. */
  function ClippedFileName(filePath: string, postfix: string): string
  {
    var parts := SplitExt(Basename(filePath));
    parts.0 + postfix + parts.1
  }

  /** The output file name is the base name lengthened by the postfix, is
      the base name itself when the postfix is empty, and is a plain file
      name (no separator) whenever the postfix is one. */
  lemma ClippedFileNameShape(filePath: string, postfix: string)
    ensures |ClippedFileName(filePath, postfix)| == |Basename(filePath)| + |postfix|
    ensures postfix == [] ==> ClippedFileName(filePath, postfix) == Basename(filePath)
    ensures Sep !in postfix ==> Sep !in ClippedFileName(filePath, postfix)
  {
    var name := Basename(filePath);
    BasenameIsLastComponent(filePath);
    var parts := SplitExt(name);
    SplitExtParts(name);
    InfixShape(parts.0, parts.1, postfix);
  }

  /** Inserting `infix` between two parts lengthens their concatenation by
      its length, changes nothing when it is empty, and brings in no
      separator that neither part nor `infix` holds. */
  lemma InfixShape(a: string, b: string, infix: string)
    ensures |a + infix + b| == |a + b| + |infix|
    ensures infix == [] ==> a + infix + b == a + b
    ensures Sep !in a + b && Sep !in infix ==> Sep !in a + infix + b
  {
    if infix == [] {
      assert a + infix == a;
    }
    NotInParts(Sep, a, b);
    NotInParts(Sep, a, infix);
    NotInParts(Sep, a + infix, b);
  }

  /** A character is absent from a concatenation exactly when it is absent
      from both parts. */
  lemma NotInParts(c: char, a: string, b: string)
    ensures c !in a + b <==> c !in a && c !in b
  {
    if c in a {
      var i :| 0 <= i < |a| && a[i] == c;
      assert (a + b)[i] == c;
    }
    if c in b {
      var i :| 0 <= i < |b| && b[i] == c;
      assert (a + b)[|a| + i] == c;
    }
    if c in a + b {
      var i :| 0 <= i < |a + b| && (a + b)[i] == c;
      if i < |a| {
        assert a[i] == c;
      } else {
        assert b[i - |a|] == c;
      }
    }
  }

  /** `__generate_clipped_output_file_path`: the output file name, placed in
      `outputPath`, or beside the input when `outputPath` is None. */
  function ClippedOutputFilePath(filePath: string, outputPath: Option<string>, postfix: string): string
  {
    var directory := if outputPath.None? then Dirname(filePath) else outputPath.value;
    Join(directory, ClippedFileName(filePath, postfix))
  }

  /** Appending characters other than `c` does not move the last `c`. */
  lemma {:induction false} RFindSkipsSuffix(s: string, t: string, c: char)
    requires c !in t
    ensures RFind(s + t, c) == RFind(s, c)
    decreases |t|
  {
    if t == [] {
      assert s + t == s;
    } else {
      var init := t[..|t| - 1];
      assert t[|t| - 1] in t;
      assert (s + t)[|s + t| - 1] == t[|t| - 1];
      assert (s + t)[..|s + t| - 1] == s + init;
      assert forall x :: x in init ==> x in t;
      RFindSkipsSuffix(s, init, c);
    }
  }

  /** Joining a normal directory and a plain file name can be taken apart
      again by `dirname` and `basename`. */
  lemma JoinSplits(d: string, n: string)
    requires NormalDirectory(d)
    requires n != [] && Sep !in n
    ensures Dirname(Join(d, n)) == d
    ensures Basename(Join(d, n)) == n
  {
    var j := Join(d, n);
    if d == [] {
      assert j == [] + n;
      RFindSkipsSuffix([], n, Sep);
    } else if d[|d| - 1] != Sep {
      var head := d + [Sep];
      assert j == head + n;
      RFindSkipsSuffix(head, n, Sep);
      assert RFind(head, Sep) == |d|;
      assert j[..|d| + 1] == head;
      assert head[|d| - 1] != Sep;
      assert RStrip(head, Sep) == RStrip(d, Sep);
      assert j[|d| + 1..] == n;
    } else {
      assert AllChars(d, Sep);
      assert j == d + n;
      RFindSkipsSuffix(d, n, Sep);
      assert RFind(d, Sep) == |d| - 1;
      assert j[..|d|] == d;
      assert j[|d|..] == n;
    }
  }

  /** The output file lands in the output directory when one is given, and
      in the input's own directory when it is None; its name is the clipped
      file name. */
  lemma OutputPathLocation(filePath: string, outputPath: Option<string>, postfix: string)
    requires Sep !in postfix
    requires ClippedFileName(filePath, postfix) != []
    requires outputPath.Some? ==> NormalDirectory(outputPath.value)
    ensures Dirname(ClippedOutputFilePath(filePath, outputPath, postfix))
         == (if outputPath.None? then Dirname(filePath) else outputPath.value)
    ensures Basename(ClippedOutputFilePath(filePath, outputPath, postfix))
         == ClippedFileName(filePath, postfix)
  {
    var directory := if outputPath.None? then Dirname(filePath) else outputPath.value;
    ClippedFileNameShape(filePath, postfix);
    DirnameIsPrefix(filePath);
    JoinSplits(directory, ClippedFileName(filePath, postfix));
  }

  /** Only None means "beside the input": an empty output path yields the
      bare file name, a path relative to the working directory. */
  lemma EmptyOutputPathIsNotNone(filePath: string, postfix: string)
    ensures ClippedOutputFilePath(filePath, Some([]), postfix) == ClippedFileName(filePath, postfix)
  {
    var name := ClippedFileName(filePath, postfix);
    assert [] + name == name;
  }
}
