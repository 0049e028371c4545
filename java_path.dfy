/**
 * `JavaPath`: a class path given by a list of root directories, and the
 * conversions between class names (`java.util.List$Itr`) and the names of
 * their class or source files relative to a root (`java/util/List.java`).
 *
 * The platform's file separator (`file.separator`) is a parameter, and so is
 * the way a path string is split into its entries at `path.separator`.
 * A `java.io.File` is its path string.
 */
module JavaPaths {
  import opened JavaLang

  /** Separates packages from their subpackages and classes. */
  const CLASS_SEP: char := '.'

  /** Separates an inner class from its enclosing class. */
  const INNER_CLASS_SEP: char := '$'

  // ---------------------------------------------------------------------
  // Strings
  // ---------------------------------------------------------------------

  predicate EndsWith(s: string, suffix: string)
  {
    |suffix| <= |s| && s[|s| - |suffix|..] == suffix
  }

  predicate StartsWith(s: string, prefix: string)
  {
    |prefix| <= |s| && s[..|prefix|] == prefix
  }

  /** `s.replace(a, b)`: every occurrence of the character `a` becomes `b`. */
  function Replace(s: string, a: char, b: char): (r: string)
    ensures |r| == |s|
    ensures forall i | 0 <= i < |s| :: r[i] == if s[i] == a then b else s[i]
    decreases |s|
  {
    if |s| == 0 then [] else [if s[0] == a then b else s[0]] + Replace(s[1..], a, b)
  }

  /** Replacing `a` by `b` and then `b` by `a` gives back a string without `b`. */
  lemma ReplaceBack(s: string, a: char, b: char)
    requires b !in s
    ensures Replace(Replace(s, a, b), b, a) == s
  {
    var r := Replace(Replace(s, a, b), b, a);
    forall i | 0 <= i < |s|
      ensures r[i] == s[i]
    {
      assert s[i] != b;
    }
  }

  /** Replacing characters other than `c` keeps the positions of `c`. */
  lemma ReplaceCutAt(s: string, a: char, b: char, c: char)
    requires a != c && b != c
    ensures CutAt(Replace(s, a, b), c) == Replace(CutAt(s, c), a, b)
  {
    var r := Replace(s, a, b);
    var k := FirstIndex(s, c);
    assert forall i | 0 <= i < |s| :: r[i] == c <==> s[i] == c;
    FirstIndexSame(s, r, c);
    assert CutAt(r, c) == r[..k] == Replace(s[..k], a, b);
  }

  /** The index of the first `c` in `s`, or `|s|` if there is none. */
  function FirstIndex(s: string, c: char): (k: nat)
    ensures k <= |s|
    ensures c !in s[..k]
    ensures k < |s| ==> s[k] == c
    ensures c !in s <==> k == |s|
    decreases |s|
  {
    if |s| == 0 then 0
    else if s[0] == c then 0
    else
      var k := 1 + FirstIndex(s[1..], c);
      assert s[..k] == [s[0]] + s[1..][..k - 1];
      k
  }

  /** Strings with `c` in the same places have their first `c` at the same index. */
  lemma {:induction false} FirstIndexSame(s: string, t: string, c: char)
    requires |s| == |t|
    requires forall i | 0 <= i < |s| :: t[i] == c <==> s[i] == c
    ensures FirstIndex(t, c) == FirstIndex(s, c)
    decreases |s|
  {
    if |s| > 0 && s[0] != c {
      FirstIndexSame(s[1..], t[1..], c);
    }
  }

  /** The part of `s` before its first `c`: all of `s` if there is no `c`. */
  function CutAt(s: string, c: char): (r: string)
    ensures c !in r && StartsWith(s, r)
    ensures c !in s ==> r == s
    ensures c in s ==> s[|r|] == c
  {
    var k := FirstIndex(s, c);
    assert s[..k] == s[..k][..k];
    s[..k]
  }

  /** The characters at which `.` stops in a Java regular expression. */
  predicate IsLineTerminator(ch: char)
  {
    ch == '\n' || ch == '\r' || ch == '\U{0085}' || ch == '\U{2028}' || ch == '\U{2029}'
  }

  predicate NoLineTerminator(s: string)
  {
    forall i | 0 <= i < |s| :: !IsLineTerminator(s[i])
  }

  /** What `.*` leaves over of `s`: everything from the first line terminator on. */
  function SkipLine(s: string): (r: string)
    ensures |r| <= |s| && r == s[|s| - |r|..]
    ensures NoLineTerminator(s) ==> r == []
    decreases |s|
  {
    if |s| == 0 || IsLineTerminator(s[0]) then s else SkipLine(s[1..])
  }

  /**
   * `s.replaceAll("\\$.*", "")`: each `$` is removed together with the rest
   * of its line.
   */
  function DropInner(s: string): (r: string)
    ensures INNER_CLASS_SEP !in r
    decreases |s|
  {
    if |s| == 0 then []
    else if s[0] == INNER_CLASS_SEP then DropInner(SkipLine(s[1..]))
    else [s[0]] + DropInner(s[1..])
  }

  /** On a single line, dropping inner classes cuts the name at its first `$`. */
  lemma {:induction false} DropInnerCuts(s: string)
    requires NoLineTerminator(s)
    ensures DropInner(s) == CutAt(s, INNER_CLASS_SEP)
    decreases |s|
  {
    if |s| > 0 {
      if s[0] == INNER_CLASS_SEP {
        assert SkipLine(s[1..]) == [];
        assert FirstIndex(s, INNER_CLASS_SEP) == 0;
      } else {
        DropInnerCuts(s[1..]);
        assert s == [s[0]] + s[1..];
        assert FirstIndex(s, INNER_CLASS_SEP) == 1 + FirstIndex(s[1..], INNER_CLASS_SEP);
      }
    }
  }

  // ---------------------------------------------------------------------
  // Class files and source files
  // ---------------------------------------------------------------------

  /** Whether the class file or the source file of a class is meant. */
  datatype ClsSrc = Class | Source {
    function FileEnding(): (e: string)
      ensures |e| > 1 && e[0] == CLASS_SEP && CLASS_SEP !in e[1..]
    {
      if Class? then ".class" else ".java"
    }

    /**
     * The name of the class whose file holds `clsName`: the name itself for
     * class files, the outermost enclosing class for source files.
     */
    function TrimInnerClass(clsName: string): (r: string)
      ensures Class? ==> r == clsName
      ensures Source? ==> INNER_CLASS_SEP !in r
    {
      if Class? then clsName else DropInner(clsName)
    }
  }

  /** `cls2locFile`: package separators become file separators, then the ending. */
  function Cls2LocFile(fileSep: char, clsName: string, clsSrc: ClsSrc): (r: string)
    ensures EndsWith(r, clsSrc.FileEnding())
  {
    var r := clsSrc.TrimInnerClass(Replace(clsName, CLASS_SEP, fileSep)) + clsSrc.FileEnding();
    assert r[|r| - |clsSrc.FileEnding()|..] == clsSrc.FileEnding();
    r
  }

  /**
   * `locFile2cls`: a file name without the expected ending is rejected;
   * otherwise the ending is cut off and file separators become `.`.
   */
  function LocFile2Cls(fileSep: char, locFileName: string, clsSrc: ClsSrc): (r: Result<string>)
    ensures r.Throw? <==> !EndsWith(locFileName, clsSrc.FileEnding())
    ensures r.Throw? ==> r.exception == IllegalArgument
    ensures r.Ok? ==> |r.value| == |locFileName| - |clsSrc.FileEnding()|
    ensures r.Ok? && fileSep != CLASS_SEP ==> fileSep !in r.value
  {
    var ending := clsSrc.FileEnding();
    if !EndsWith(locFileName, ending) then Throw(IllegalArgument)
    else Ok(Replace(locFileName[..|locFileName| - |ending|], fileSep, CLASS_SEP))
  }

  /** A class name without file separators comes back from its class file name. */
  lemma ClassRoundTrip(fileSep: char, clsName: string)
    requires fileSep !in clsName
    ensures LocFile2Cls(fileSep, Cls2LocFile(fileSep, clsName, Class), Class) == Ok(clsName)
  {
    var stem := Replace(clsName, CLASS_SEP, fileSep);
    var f := Cls2LocFile(fileSep, clsName, Class);
    assert f[..|f| - |Class.FileEnding()|] == stem;
    ReplaceBack(clsName, CLASS_SEP, fileSep);
  }

  /**
   * From its source file name a class name comes back without its inner
   * classes: cut at the first `$`.
   */
  lemma SourceRoundTrip(fileSep: char, clsName: string)
    requires fileSep !in clsName && fileSep != INNER_CLASS_SEP && !IsLineTerminator(fileSep)
    requires NoLineTerminator(clsName)
    ensures LocFile2Cls(fileSep, Cls2LocFile(fileSep, clsName, Source), Source)
      == Ok(CutAt(clsName, INNER_CLASS_SEP))
  {
    var replaced := Replace(clsName, CLASS_SEP, fileSep);
    var stem := Source.TrimInnerClass(replaced);
    assert NoLineTerminator(replaced);
    DropInnerCuts(replaced);
    ReplaceCutAt(clsName, CLASS_SEP, fileSep, INNER_CLASS_SEP);
    var f := Cls2LocFile(fileSep, clsName, Source);
    assert f[..|f| - |Source.FileEnding()|] == stem;
    var cut := CutAt(clsName, INNER_CLASS_SEP);
    assert fileSep !in cut by {
      forall i | 0 <= i < |cut|
        ensures cut[i] != fileSep
      {
        assert cut[i] == clsName[i];
      }
    }
    ReplaceBack(cut, CLASS_SEP, fileSep);
  }

  /**
   * The other way round: a class file name whose stem has no `.` is what
   * `cls2locFile` makes of the class name `locFile2cls` reads off it.
   */
  lemma LocFileRoundTrip(fileSep: char, locFileName: string)
    requires EndsWith(locFileName, Class.FileEnding())
    requires CLASS_SEP !in locFileName[..|locFileName| - |Class.FileEnding()|]
    ensures Cls2LocFile(fileSep, LocFile2Cls(fileSep, locFileName, Class).value, Class) == locFileName
  {
    var n := |locFileName| - |Class.FileEnding()|;
    var stem := locFileName[..n];
    ReplaceBack(stem, fileSep, CLASS_SEP);
    assert locFileName == stem + Class.FileEnding();
  }

  // ---------------------------------------------------------------------
  // Finding a file below a root
  // ---------------------------------------------------------------------

  /** A `java.io.File`, given by its path. */
  datatype File = File(path: string)

  /**
   * What a file below `root` starts with: the root's path and a file
   * separator, which the path of the file-system root `/` already ends in.
   */
  function RootPrefix(fileSep: char, root: File): (p: string)
    ensures p == root.path || p == root.path + [fileSep]
    ensures |p| > 0 && p[|p| - 1] == fileSep
  {
    if |root.path| > 0 && root.path[|root.path| - 1] == fileSep then root.path
    else root.path + [fileSep]
  }

  /** The first root from position `k` on that `fileName` lies below, or `|roots|`. */
  function FirstBelow(fileSep: char, roots: seq<File>, fileName: string, k: nat): (i: nat)
    requires k <= |roots|
    ensures k <= i <= |roots|
    ensures forall j | k <= j < i :: !StartsWith(fileName, RootPrefix(fileSep, roots[j]))
    ensures i < |roots| ==> StartsWith(fileName, RootPrefix(fileSep, roots[i]))
    decreases |roots| - k
  {
    if k == |roots| || StartsWith(fileName, RootPrefix(fileSep, roots[k])) then k
    else FirstBelow(fileSep, roots, fileName, k + 1)
  }

  /**
   * The name of `fileName` relative to the first root it lies below, that
   * is, the first root whose `RootPrefix` starts `fileName`; `None` if it
   * lies below none of them.
   */
  function LocFileName(fileSep: char, roots: seq<File>, fileName: string): (r: Option<string>)
    ensures r.None? <==> forall i | 0 <= i < |roots| :: !StartsWith(fileName, RootPrefix(fileSep, roots[i]))
    ensures r.Some? ==> exists i | 0 <= i < |roots| ::
      (forall j | 0 <= j < i :: !StartsWith(fileName, RootPrefix(fileSep, roots[j]))) &&
      fileName == RootPrefix(fileSep, roots[i]) + r.value
  {
    var i := FirstBelow(fileSep, roots, fileName, 0);
    if i == |roots| then None
    else
      var prefix := RootPrefix(fileSep, roots[i]);
      assert fileName == prefix + fileName[|prefix|..];
      Some(fileName[|prefix|..])
  }

  /**
   * `getLocFileName` as written: a root matches when its path is a string
   * prefix of the file's path, and one character after it is skipped.
   */
  function LocFileNameAsWritten(roots: seq<File>, fileName: string): (r: Result<Option<string>>)
    ensures r.Throw? ==> r.exception == StringIndexOutOfBounds
    decreases |roots|
  {
    if |roots| == 0 then Ok(None)
    else if StartsWith(fileName, roots[0].path) then
      if |roots[0].path| + 1 <= |fileName| then Ok(Some(fileName[|roots[0].path| + 1..]))
      else Throw(StringIndexOutOfBounds)
    else LocFileNameAsWritten(roots[1..], fileName)
  }

  /**
   * As written, the root `/a` claims the file `/ab/c`, which does not lie
   * below it, and answers `/c`; below the path `/a` there is nothing.
   */
  lemma AsWrittenMatchesSibling()
    ensures LocFileNameAsWritten([File("/a")], "/ab/c") == Ok(Some("/c"))
    ensures LocFileName('/', [File("/a")], "/ab/c") == None
  {
    assert "/ab/c"[..2] == "/a";
    assert "/ab/c"[3..] == "/c";
    assert "/ab/c"[..3][2] != "/a/"[2];
  }

  /** As written, the root directory itself ends in `StringIndexOutOfBoundsException`. */
  lemma AsWrittenFailsOnRoot()
    ensures LocFileNameAsWritten([File("/a")], "/a") == Throw(StringIndexOutOfBounds)
    ensures LocFileName('/', [File("/a")], "/a") == None
  {
    assert "/a"[..2] == "/a";
  }

  /**
   * As written, below the file-system root `/` the first character after
   * the `/` is lost: `/x/y` is reported as `/y`.
   */
  lemma AsWrittenCutsBelowFileSystemRoot()
    ensures LocFileNameAsWritten([File("/")], "/x/y") == Ok(Some("/y"))
    ensures LocFileName('/', [File("/")], "/x/y") == Some("x/y")
  {
    assert "/x/y"[..1] == "/";
    assert "/x/y"[2..] == "/y";
    assert "/x/y"[1..] == "x/y";
  }

  /** A class path: the list of its root directories. */
  class JavaPath {
    const fileSep: char
    const roots: seq<File>

    /** One root per entry of the split path, in order. */
    constructor (fileSep: char, fileNames: seq<string>)
      ensures this.fileSep == fileSep
      ensures |roots| == |fileNames|
      ensures forall i | 0 <= i < |fileNames| :: roots[i].path == fileNames[i]
    {
      this.fileSep := fileSep;
      var rs: seq<File> := [];
      for i := 0 to |fileNames|
        invariant |rs| == i
        invariant forall k | 0 <= k < i :: rs[k].path == fileNames[k]
      {
        rs := rs + [File(fileNames[i])];
      }
      roots := rs;
    }

    /**
     * `new JavaPath(path)`: `split` stands for `path.split(PATH_SEP)`; a path
     * that splits into no entries is rejected.
     */
    static method Create(fileSep: char, path: string, split: string -> seq<string>)
      returns (r: Result<JavaPath>)
      ensures r.Throw? <==> |split(path)| == 0
      ensures r.Throw? ==> r.exception == IllegalArgument
      ensures r.Ok? ==> fresh(r.value) && r.value.fileSep == fileSep
      ensures r.Ok? ==> |r.value.roots| == |split(path)|
      ensures r.Ok? ==> forall i | 0 <= i < |split(path)| :: r.value.roots[i].path == split(path)[i]
    {
      var fileNames := split(path);
      if |fileNames| == 0 {
        return Throw(IllegalArgument);
      }
      var p := new JavaPath(fileSep, fileNames);
      return Ok(p);
    }

    /**
     * `getLocFileName(absFile)`, with a root matching only when the file
     * lies below it: the roots are tried in order, and the first match gives
     * the rest of the path after the root and its separator.
     */
    method GetLocFileName(absFile: File) returns (r: Option<string>)
      ensures r == LocFileName(fileSep, roots, absFile.path)
    {
      var fileName := absFile.path;
      for i := 0 to |roots|
        invariant FirstBelow(fileSep, roots, fileName, 0) == FirstBelow(fileSep, roots, fileName, i)
      {
        var prefix := RootPrefix(fileSep, roots[i]);
        if StartsWith(fileName, prefix) {
          return Some(fileName[|prefix|..]);
        }
      }
      return None;
    }

    /**
     * `absFile2cls(absFile, clsSrc)`: `None` when the file lies below no
     * root, otherwise `locFile2cls` of its name relative to the root.
     */
    method AbsFile2Cls(absFile: File, clsSrc: ClsSrc) returns (r: Result<Option<string>>)
      ensures LocFileName(fileSep, roots, absFile.path).None? ==> r == Ok(None)
      ensures LocFileName(fileSep, roots, absFile.path).Some? ==>
        var loc := LocFileName(fileSep, roots, absFile.path).value;
        (r.Throw? <==> !EndsWith(loc, clsSrc.FileEnding())) &&
        (r.Ok? ==> r.value == Some(LocFile2Cls(fileSep, loc, clsSrc).value))
    {
      var locFileName := GetLocFileName(absFile);
      if locFileName.None? {
        return Ok(None);
      }
      var cls :- LocFile2Cls(fileSep, locFileName.value, clsSrc);
      return Ok(Some(cls));
    }
  }
}
