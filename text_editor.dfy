/** `TextEditorTool`: a path guard, `view` with numbered lines, a unique-match `str_replace`,
    `create`, line-indexed `insert`, and backup/undo through copies kept in a backup directory.
    The file system is one map from absolute path to content; backups are entries of that map
    whose path lies in the backup directory, as they are on disk. */
module TextEditing {
  import opened Wrappers
  import opened Strings

  /** The errors the tool raises, one per `raise` in its commands. */
  datatype EditError =
    | AccessDenied(path: string)              // ArgumentError: path outside the allowed directory
    | FileNotFound                            // Errno::ENOENT "File not found"
    | NoMatch                                 // ArgumentError: no match found for replacement
    | TooManyMatches(count: nat)              // ArgumentError: found `count` matches
    | FileExists                              // Errno::EEXIST
    | LineOutOfRange(line: int, lines: nat)   // IndexError from `insert`
    | NoBackupsFound(path: string)            // Errno::ENOENT from `restore_backup`
    | NoPreviousEdits                         // Errno::ENOENT from `undo_edit`
    | NoSuchRange                             // a view range whose slice is nil
    | IsADirectory                            // Errno::EISDIR: a directory read as a file

  // ---------------------------------------------------------------------------------------
  // Paths
  // ---------------------------------------------------------------------------------------

  predicate EndsWithSlash(dir: string) {
    |dir| > 0 && dir[|dir| - 1] == '/'
  }

  /** `dir` followed by exactly one separator. */
  function WithSlash(dir: string): string {
    if EndsWithSlash(dir) then dir else dir + "/"
  }

  /** `File.join(dir, name)` for a plain file name. */
  function JoinPath(dir: string, name: string): string {
    WithSlash(dir) + name
  }

  /** `File.basename`: the part of the path after its last "/". */
  function Basename(path: string): (r: string)
    ensures |r| <= |path| && r == path[|path| - |r|..]
    ensures forall j :: 0 <= j < |r| ==> r[j] != '/'
    ensures |r| < |path| ==> path[|path| - |r| - 1] == '/'
  {
    if |path| == 0 || path[|path| - 1] == '/' then []
    else Basename(path[..|path| - 1]) + [path[|path| - 1]]
  }

  /** `absPath` names `base` itself or something below it: it extends `base` at a separator. */
  predicate InsideDir(absPath: string, base: string) {
    StartsWith(absPath, base) && (|absPath| == |base| || EndsWithSlash(base) || absPath[|base|] == '/')
  }

  /** `validate_path` as written, once `File.expand_path` has produced `absPath`: a bare
      string-prefix test against the base directory. */
  function CheckPathAsWritten(base: string, absPath: string, filePath: string): (r: Result<string, EditError>)
    ensures r.Success? <==> StartsWith(absPath, base)
    ensures r.Success? ==> r.value == absPath
    ensures r.Failure? ==> r.error == AccessDenied(filePath)
  {
    if StartsWith(absPath, base) then Success(absPath) else Failure(AccessDenied(filePath))
  }

  /** `validate_path` with the prefix taken up to a separator, as its error message intends. */
  function CheckPath(base: string, absPath: string, filePath: string): (r: Result<string, EditError>)
    ensures r.Success? ==> r.value == absPath
    ensures r.Failure? ==> r.error == AccessDenied(filePath)
  {
    if absPath == base || StartsWith(absPath, WithSlash(base)) then Success(absPath)
    else Failure(AccessDenied(filePath))
  }

  /** The corrected guard admits exactly the paths inside the base directory, returns them
      unchanged, and refuses everything else with "Access denied"; it admits nothing the
      check as written refuses. */
  lemma CheckPathInsideDir(base: string, absPath: string, filePath: string)
    ensures CheckPath(base, absPath, filePath).Success? <==> InsideDir(absPath, base)
    ensures CheckPath(base, absPath, filePath).Success? ==>
      CheckPath(base, absPath, filePath).value == absPath && CheckPathAsWritten(base, absPath, filePath).Success?
    ensures CheckPath(base, absPath, filePath).Failure? ==>
      CheckPath(base, absPath, filePath).error == AccessDenied(filePath)
  {
    if InsideDir(absPath, base) {
      if |absPath| == |base| {
        assert absPath == absPath[..|base|];
      } else if !EndsWithSlash(base) {
        assert absPath[..|base| + 1] == absPath[..|base|] + [absPath[|base|]];
      }
    }
    if StartsWith(absPath, WithSlash(base)) && !EndsWithSlash(base) {
      assert absPath[..|base|] == (base + "/")[..|base|];
    }
  }

  /** As written, a sibling directory whose name merely starts with the base directory's name
      passes the guard although it lies outside the base directory. */
  lemma SiblingDirectoryPasses()
    ensures CheckPathAsWritten("/srv/app", "/srv/app-data/key", "../app-data/key").Success?
    ensures !InsideDir("/srv/app-data/key", "/srv/app")
    ensures CheckPath("/srv/app", "/srv/app-data/key", "../app-data/key").Failure?
  {
    assert "/srv/app-data/key"[..8] == "/srv/app";
    assert "/srv/app-data/key"[8] == '-';
    CheckPathInsideDir("/srv/app", "/srv/app-data/key", "../app-data/key");
  }

  // ---------------------------------------------------------------------------------------
  // Lines
  // ---------------------------------------------------------------------------------------

  /** The first "\n" at or after `from`. */
  function NewlineFrom(c: string, from: nat): (r: Option<nat>)
    decreases |c| - from
    ensures r.Some? ==> from <= r.value < |c| && c[r.value] == '\n'
    ensures r.Some? ==> forall j :: from <= j < r.value ==> c[j] != '\n'
    ensures r.None? ==> forall j :: from <= j < |c| ==> c[j] != '\n'
  {
    if from >= |c| then None
    else if c[from] == '\n' then Some(from)
    else NewlineFrom(c, from + 1)
  }

  /** `File.readlines(path, chomp: false)`: every line keeps its "\n"; a last line without one
      is kept as it is. */
  function ReadLines(c: string): (r: seq<string>)
    decreases |c|
    ensures r == [] <==> c == []
    ensures forall i :: 0 <= i < |r| ==> r[i] != []
  {
    if |c| == 0 then []
    else match NewlineFrom(c, 0)
      case None => [c]
      case Some(i) => [c[..i + 1]] + ReadLines(c[i + 1..])
  }

  predicate EndsWithNewline(l: string) {
    |l| > 0 && l[|l| - 1] == '\n'
  }

  /** A line as `readlines` returns it: non-empty, with "\n" at most as its last character. */
  predicate IsLine(l: string) {
    |l| > 0 && forall j :: 0 <= j < |l| - 1 ==> l[j] != '\n'
  }

  /** A list of lines every one of which but the last ends in "\n". */
  predicate LineList(ls: seq<string>) {
    && (forall i :: 0 <= i < |ls| ==> IsLine(ls[i]))
    && (forall i :: 0 <= i < |ls| - 1 ==> EndsWithNewline(ls[i]))
  }

  /** `lines.join`. */
  function Concat(ls: seq<string>): string {
    if ls == [] then "" else ls[0] + Concat(ls[1..])
  }

  lemma {:induction false} ConcatAppend(a: seq<string>, b: seq<string>)
    ensures Concat(a + b) == Concat(a) + Concat(b)
  {
    if a == [] {
      assert a + b == b;
    } else {
      assert (a + b)[0] == a[0];
      assert (a + b)[1..] == a[1..] + b;
      ConcatAppend(a[1..], b);
    }
  }

  /** Joining a list with one more line `a + b + c` appends `a`, `b` and `c` in turn. */
  lemma ConcatSnoc(ls: seq<string>, a: string, b: string, c: string)
    ensures Concat(ls + [a + b + c]) == Concat(ls) + a + b + c
  {
    ConcatAppend(ls, [a + b + c]);
    assert [a + b + c][1..] == [];
    assert Concat(ls) + (a + b + c) == Concat(ls) + a + b + c;
  }

  /** `readlines` cuts the content into a line list that joins back to the content. */
  lemma {:induction false} ReadLinesJoin(c: string)
    decreases |c|
    ensures Concat(ReadLines(c)) == c
    ensures LineList(ReadLines(c))
  {
    if |c| > 0 {
      match NewlineFrom(c, 0)
      case None =>
      case Some(i) =>
        var rest := ReadLines(c[i + 1..]);
        ReadLinesJoin(c[i + 1..]);
        var ls := ReadLines(c);
        assert ls == [c[..i + 1]] + rest;
        assert ls[1..] == rest;
        assert c == c[..i + 1] + c[i + 1..];
        forall k | 1 <= k < |ls|
          ensures ls[k] == rest[k - 1]
        {
        }
    }
  }

  /** A line ending in "\n" is the first line `readlines` cuts from any text it starts. */
  lemma ReadLinesCons(head: string, rest: string)
    requires IsLine(head) && EndsWithNewline(head)
    ensures ReadLines(head + rest) == [head] + ReadLines(rest)
  {
    var c := head + rest;
    var i := |head| - 1;
    assert c[i] == '\n';
    forall j | 0 <= j < i
      ensures c[j] != '\n'
    {
      assert c[j] == head[j];
    }
    assert NewlineFrom(c, 0) == Some(i);
    assert c[..i + 1] == head && c[i + 1..] == rest;
  }

  /** Conversely, `readlines` of a joined line list gives the list back. */
  lemma {:induction false} ReadLinesOfConcat(ls: seq<string>)
    requires LineList(ls)
    ensures ReadLines(Concat(ls)) == ls
  {
    if ls != [] {
      var c := Concat(ls);
      var head := ls[0];
      assert LineList(ls[1..]) by {
        forall k | 0 <= k < |ls[1..]|
          ensures ls[1..][k] == ls[k + 1]
        {
        }
      }
      ReadLinesOfConcat(ls[1..]);
      assert c == head + Concat(ls[1..]);
      if EndsWithNewline(head) {
        ReadLinesCons(head, Concat(ls[1..]));
        assert ls == [head] + ls[1..];
      } else {
        assert |ls| == 1;
        assert Concat(ls[1..]) == "";
        assert c == head;
        assert NewlineFrom(c, 0).None?;
      }
    }
  }

  /** `content.split("\n")`, which drops trailing empty fields. */
  function SplitLines(c: string): seq<string> {
    DropTrailingEmpty(SplitOn(c, "\n"))
  }

  // ---------------------------------------------------------------------------------------
  // view
  // ---------------------------------------------------------------------------------------

  /** Ruby's `array[a...b]`: a negative bound counts from the end, a start outside `0..n` gives
      nil, and the slice is cut short at the end. */
  function RangeSlice<T>(s: seq<T>, a: int, b: int): (r: Option<seq<T>>)
    ensures r.Some? <==> (if a < 0 then 0 <= a + |s| else a <= |s|)
  {
    var start := if a < 0 then a + |s| else a;
    if start < 0 || start > |s| then None
    else
      var stop := if b < 0 then b + |s| else b;
      Some(s[start..Max(start, Min(stop, |s|))])
  }

  /** The lines shown by `view`: "<number>: <line>", numbered from `first`. */
  function Numbered(lines: seq<string>, first: int): seq<string> {
    seq(|lines|, i requires 0 <= i < |lines| => IntToString(first + i) + ": " + lines[i])
  }

  /** The text `view` returns for a file whose content is `c`. */
  function ViewText(c: string, viewRange: Option<(int, int)>): (r: Result<string, EditError>)
    ensures r.Failure? ==> viewRange.Some? && r.error == NoSuchRange
    ensures viewRange.Some? && 1 <= viewRange.value.0 <= |SplitLines(c)| + 1 ==> r.Success?
  {
    var lines := SplitLines(c);
    match viewRange
    case None => Success(Join(Numbered(lines, 1), "\n"))
    case Some((startLine, endLine)) =>
      var stop := if endLine == -1 then |lines| else endLine;
      match RangeSlice(lines, startLine - 1, stop)
      case None => Failure(NoSuchRange)
      case Some(selected) => Success(Join(Numbered(selected, startLine), "\n"))
  }

  /** The `each_with_index` loop of `view`. */
  method NumberLines(lines: seq<string>, first: int) returns (result: seq<string>)
    ensures result == Numbered(lines, first)
  {
    result := [];
    var index := 0;
    while index < |lines|
      invariant 0 <= index <= |lines|
      invariant result == Numbered(lines[..index], first)
    {
      result := result + [IntToString(first + index) + ": " + lines[index]];
      index := index + 1;
      assert lines[..index][..index - 1] == lines[..index - 1];
    }
    assert lines[..index] == lines;
  }

  /** A range from line 1 to -1 shows the whole file, and a range `[s, e]` inside the file shows
      exactly the lines `s..e` of the whole-file view, with the same numbers. */
  lemma ViewRangeIsPartOfWholeView(c: string, s: int, e: int)
    ensures ViewText(c, Some((1, -1))) == ViewText(c, None)
    ensures 1 <= s <= e <= |SplitLines(c)| ==>
      ViewText(c, Some((s, e))) == Success(Join(Numbered(SplitLines(c), 1)[s - 1..e], "\n"))
  {
    var lines := SplitLines(c);
    assert RangeSlice(lines, 0, |lines|) == Some(lines) by {
      assert lines[0..Max(0, Min(|lines|, |lines|))] == lines;
    }
    if 1 <= s <= e <= |lines| {
      assert RangeSlice(lines, s - 1, e) == Some(lines[s - 1..e]);
      NumberedSlice(lines, s, e);
    }
  }

  /** Numbering a slice from its own first line number agrees with slicing the numbered whole. */
  lemma NumberedSlice(lines: seq<string>, s: int, e: int)
    requires 1 <= s <= e <= |lines|
    ensures Numbered(lines[s - 1..e], s) == Numbered(lines, 1)[s - 1..e]
  {
    var part, whole := Numbered(lines[s - 1..e], s), Numbered(lines, 1)[s - 1..e];
    forall i | 0 <= i < |part|
      ensures part[i] == whole[i]
    {
      assert s + i == 1 + (s - 1 + i);
    }
  }

  // ---------------------------------------------------------------------------------------
  // str_replace
  // ---------------------------------------------------------------------------------------

  /** `content.scan(old_str).length`: non-overlapping occurrences from left to right; the empty
      pattern matches at every position. */
  function CountMatches(content: string, pat: string): (r: nat)
    decreases |content|
    ensures r <= |content| + 1
    ensures |pat| > 0 ==> r <= |content|
  {
    if |pat| == 0 then |content| + 1
    else match FindFrom(content, pat, 0)
      case None => 0
      case Some(p) => 1 + CountMatches(content[p + |pat|..], pat)
  }

  /** `content.gsub(old_str, new_str)` with the replacement taken literally. */
  function ReplaceAll(content: string, pat: string, rep: string): (r: string)
    decreases |content|
    ensures |pat| > 0 && FindFrom(content, pat, 0).None? ==> r == content
    ensures rep == pat ==> r == content
  {
    if |pat| == 0 then
      (if |content| == 0 then rep
       else
         assert content == content[..1] + content[1..];
         rep + content[..1] + ReplaceAll(content[1..], pat, rep))
    else match FindFrom(content, pat, 0)
      case None => content
      case Some(p) =>
        assert content == content[..p] + content[p..p + |pat|] + content[p + |pat|..];
        content[..p] + rep + ReplaceAll(content[p + |pat|..], pat, rep)
  }

  /** The new content `str_replace` writes, or the error it raises before writing. */
  function StrReplaceText(content: string, oldStr: string, newStr: string): (r: Result<string, EditError>)
    ensures r.Success? <==> CountMatches(content, oldStr) == 1
    ensures r.Failure? ==> r.error == if CountMatches(content, oldStr) == 0 then NoMatch else TooManyMatches(CountMatches(content, oldStr))
  {
    var count := CountMatches(content, oldStr);
    if count == 0 then Failure(NoMatch)
    else if count > 1 then Failure(TooManyMatches(count))
    else Success(ReplaceAll(content, oldStr, newStr))
  }

  /** No match is counted exactly when the pattern does not occur. */
  lemma CountMatchesZero(content: string, pat: string)
    requires |pat| > 0
    ensures CountMatches(content, pat) == 0 <==> !Contains(content, pat)
  {
    if FindFrom(content, pat, 0).Some? {
      assert OccursAt(content, pat, FindFrom(content, pat, 0).value);
    }
  }

  /** `str_replace` succeeds exactly on a single match and then replaces that occurrence and
      nothing else: the text before it and the text after it are kept, and the text after it
      holds no further occurrence. An empty pattern is unique only in an empty file. */
  lemma StrReplaceUnique(content: string, oldStr: string, newStr: string)
    ensures StrReplaceText(content, oldStr, newStr).Success? <==> CountMatches(content, oldStr) == 1
    ensures StrReplaceText(content, oldStr, newStr).Failure? ==>
      StrReplaceText(content, oldStr, newStr).error
        == if CountMatches(content, oldStr) == 0 then NoMatch else TooManyMatches(CountMatches(content, oldStr))
    ensures StrReplaceText(content, oldStr, newStr).Success? && |oldStr| == 0 ==>
      content == "" && StrReplaceText(content, oldStr, newStr).value == newStr
    ensures StrReplaceText(content, oldStr, newStr).Success? && |oldStr| > 0 ==>
      && FindFrom(content, oldStr, 0).Some?
      && var p := FindFrom(content, oldStr, 0).value;
      && StrReplaceText(content, oldStr, newStr).value == content[..p] + newStr + content[p + |oldStr|..]
      && (forall q :: 0 <= q < p ==> !OccursAt(content, oldStr, q))
      && !Contains(content[p + |oldStr|..], oldStr)
  {
    if CountMatches(content, oldStr) == 1 && |oldStr| > 0 {
      var p := FindFrom(content, oldStr, 0).value;
      var rest := content[p + |oldStr|..];
      CountMatchesZero(rest, oldStr);
      assert FindFrom(rest, oldStr, 0).None?;
      assert ReplaceAll(rest, oldStr, newStr) == rest;
    }
  }

  // ---------------------------------------------------------------------------------------
  // insert
  // ---------------------------------------------------------------------------------------

  /** The line list `insert` writes as written: the text gains a leading "\n" whenever the file's
      last line lacks one, wherever the text is inserted. */
  function InsertLinesAsWritten(lines: seq<string>, insertLine: int, newStr: string): (r: Result<seq<string>, EditError>)
    ensures r.Success? <==> 0 <= insertLine <= |lines|
    ensures r.Failure? ==> r.error == LineOutOfRange(insertLine, |lines|)
    ensures r.Success? ==> |r.value| == |lines| + 1
    ensures r.Success? ==> r.value[..insertLine] == lines[..insertLine] && r.value[insertLine + 1..] == lines[insertLine..]
  {
    var text := if |lines| > 0 && !EndsWithNewline(lines[|lines| - 1]) then "\n" + newStr else newStr;
    if insertLine == 0 then Success([text + "\n"] + lines)
    else if 0 < insertLine <= |lines| then Success(lines[..insertLine] + [text + "\n"] + lines[insertLine..])
    else Failure(LineOutOfRange(insertLine, |lines|))
  }

  /** As written, inserting at line 0 into a file whose last line has no "\n" adds a blank first
      line: "a" with "X" inserted at 0 reads back as three lines. */
  lemma InsertAddsBlankLine()
    ensures InsertLinesAsWritten(["a"], 0, "X") == Success(["\nX\n", "a"])
    ensures ReadLines(Concat(["\nX\n", "a"])) == ["\n", "X\n", "a"]
  {
    assert !EndsWithNewline("a");
    assert "\n" + "X" + "\n" == "\nX\n";
    assert ["\nX\n"] + ["a"] == ["\nX\n", "a"];
    var c := Concat(["\nX\n", "a"]);
    assert Concat(["a"]) == "a" by {
      assert ["a"][1..] == [];
    }
    assert c == "\nX\na";
    assert NewlineFrom(c, 0) == Some(0);
    assert c[1..] == "X\na";
    assert NewlineFrom("X\na", 0) == Some(1);
    assert "X\na"[2..] == "a";
    assert NewlineFrom("a", 0).None?;
    assert ReadLines("a") == ["a"];
    assert "X\na"[..2] == "X\n";
    assert ReadLines("X\na") == ["X\n"] + ReadLines("a");
    assert c[..1] == "\n";
    assert ReadLines(c) == ["\n"] + ReadLines(c[1..]);
  }

  /** `insert` with the leading "\n" added only when the text goes after an unterminated last
      line, where it is needed. */
  function InsertLines(lines: seq<string>, insertLine: int, newStr: string): (r: Result<seq<string>, EditError>)
    ensures r.Success? <==> 0 <= insertLine <= |lines|
    ensures r.Failure? ==> r.error == LineOutOfRange(insertLine, |lines|)
    ensures r.Success? ==> |r.value| == |lines| + 1
    ensures r.Success? ==> r.value[..insertLine] == lines[..insertLine] && r.value[insertLine + 1..] == lines[insertLine..]
  {
    var text := if insertLine == |lines| && |lines| > 0 && !EndsWithNewline(lines[|lines| - 1]) then "\n" + newStr else newStr;
    if insertLine == 0 then Success([text + "\n"] + lines)
    else if 0 < insertLine <= |lines| then Success(lines[..insertLine] + [text + "\n"] + lines[insertLine..])
    else Failure(LineOutOfRange(insertLine, |lines|))
  }

  /** The line list with its last line given the "\n" it lacks. */
  function TerminateLast(ls: seq<string>): seq<string> {
    if ls == [] || EndsWithNewline(ls[|ls| - 1]) then ls
    else ls[..|ls| - 1] + [ls[|ls| - 1] + "\n"]
  }

  /** The old lines as they read after inserting at `k`: unchanged, except that inserting after
      the last line terminates it. */
  function Closed(ls: seq<string>, k: int): seq<string> {
    if k == |ls| then TerminateLast(ls) else ls
  }

  lemma TerminateLastIsLineList(ls: seq<string>)
    requires LineList(ls)
    ensures |TerminateLast(ls)| == |ls| && Concat(TerminateLast(ls)) == Concat(ls) + (if ls == [] || EndsWithNewline(ls[|ls| - 1]) then "" else "\n")
    ensures forall i :: 0 <= i < |ls| ==> IsLine(TerminateLast(ls)[i]) && EndsWithNewline(TerminateLast(ls)[i])
  {
    if ls != [] && !EndsWithNewline(ls[|ls| - 1]) {
      var n := |ls|;
      ConcatAppend(ls[..n - 1], [ls[n - 1] + "\n"]);
      ConcatAppend(ls[..n - 1], [ls[n - 1]]);
      assert ls == ls[..n - 1] + [ls[n - 1]];
      var t := TerminateLast(ls);
      forall i | 0 <= i < n
        ensures IsLine(t[i]) && EndsWithNewline(t[i])
      {
        if i < n - 1 {
          assert t[i] == ls[i];
        } else {
          assert t[i] == ls[n - 1] + "\n";
        }
      }
    }
  }

  /** Inserting a line list `ls` of well-formed lines with `line` at `k` gives well-formed lines
      when everything before the end is terminated. */
  lemma InsertedIsLineList(ls: seq<string>, k: nat, line: string)
    requires LineList(ls) && k <= |ls| && IsLine(line) && EndsWithNewline(line)
    requires k == |ls| ==> forall i :: 0 <= i < |ls| ==> EndsWithNewline(ls[i])
    ensures LineList(ls[..k] + [line] + ls[k..])
  {
    var r := ls[..k] + [line] + ls[k..];
    forall i | 0 <= i < |r|
      ensures IsLine(r[i]) && (i < |r| - 1 ==> EndsWithNewline(r[i]))
    {
      if i < k {
        assert r[i] == ls[i];
      } else if i > k {
        assert r[i] == ls[i - 1];
      }
    }
  }

  /** With the corrected rule, inserting a one-line text at 0..n adds exactly one line, at
      position `k`, and keeps every old line (the last one gaining the "\n" it lacked when the
      text goes after it). */
  lemma InsertAddsOneLine(lines: seq<string>, k: int, newStr: string)
    requires LineList(lines) && 0 <= k <= |lines|
    requires forall j :: 0 <= j < |newStr| ==> newStr[j] != '\n'
    ensures InsertLines(lines, k, newStr).Success?
    ensures ReadLines(Concat(InsertLines(lines, k, newStr).value))
         == Closed(lines, k)[..k] + [newStr + "\n"] + Closed(lines, k)[k..]
    ensures |ReadLines(Concat(InsertLines(lines, k, newStr).value))| == |lines| + 1
  {
    var line := newStr + "\n";
    assert IsLine(line) && EndsWithNewline(line);
    var closed := Closed(lines, k);
    var r := closed[..k] + [line] + closed[k..];
    var out := InsertLines(lines, k, newStr).value;
    TerminateLastIsLineList(lines);
    if k == |lines| && |lines| > 0 && !EndsWithNewline(lines[|lines| - 1]) {
      var last := "\n" + newStr + "\n";
      assert out == lines + [last];
      assert r == TerminateLast(lines) + [line] by {
        assert closed[..k] == closed && closed[k..] == [];
      }
      assert Concat(out) == Concat(r) by {
        ConcatSnoc(lines, "\n", newStr, "\n");
        ConcatSnoc(TerminateLast(lines), "", newStr, "\n");
        assert "" + newStr == newStr && Concat(TerminateLast(lines)) + "" == Concat(TerminateLast(lines));
      }
      InsertedIsLineList(TerminateLast(lines), k, line);
      ReadLinesOfConcat(r);
    } else {
      assert closed == lines;
      assert out == r;
      InsertedIsLineList(lines, k, line);
      ReadLinesOfConcat(r);
    }
  }

  // ---------------------------------------------------------------------------------------
  // Backups
  // ---------------------------------------------------------------------------------------

  /** The name `backup_file` gives a copy: the file's base name, ".", its modification time. */
  function BackupName(path: string, mtime: nat): string {
    Basename(path) + "." + NatToString(mtime)
  }

  /** `restore_backup`'s filter as written: any entry starting with "<file_name>.". */
  predicate MatchesAsWritten(name: string, fileName: string)
    ensures IsBackupName(name, fileName) ==> MatchesAsWritten(name, fileName)
  {
    StartsWith(name, fileName + ".")
  }

  /** The filter that matches exactly the names `backup_file` gives: "<file_name>.<digits>". */
  predicate IsBackupName(name: string, fileName: string) {
    && StartsWith(name, fileName + ".")
    && |name| > |fileName| + 1
    && forall j :: |fileName| + 1 <= j < |name| ==> IsDigit(name[j])
  }

  /** Every copy `backup_file` makes is found again by the corrected filter for that file. */
  lemma BackupNameRecognised(path: string, mtime: nat)
    ensures IsBackupName(BackupName(path, mtime), Basename(path))
  {
    var b := Basename(path);
    var name := BackupName(path, mtime);
    assert name[..|b| + 1] == b + ".";
    forall j | |b| + 1 <= j < |name|
      ensures IsDigit(name[j])
    {
      assert name[j] == NatToString(mtime)[j - |b| - 1];
    }
  }

  /** A backup name belongs to one file name only. */
  lemma BackupNameHasOneOwner(name: string, f1: string, f2: string)
    requires IsBackupName(name, f1) && IsBackupName(name, f2)
    ensures f1 == f2
  {
    assert name[|f1|] == (f1 + ".")[|f1|] == '.';
    assert name[|f2|] == (f2 + ".")[|f2|] == '.';
    assert !IsDigit('.');
    assert |f1| == |f2|;
    assert f1 == name[..|f1|] == f2;
  }

  /** As written, undoing an edit of "notes" considers the backups of "notes.md" too, and the
      greatest candidate name is a backup of "notes.md". */
  lemma UndoPicksOtherFilesBackup()
    ensures MatchesAsWritten("notes.7", "notes") && MatchesAsWritten("notes.md.8", "notes")
    ensures Less("notes.7", "notes.md.8")
    ensures !IsBackupName("notes.md.8", "notes") && IsBackupName("notes.md.8", "notes.md")
  {
    assert "notes.7" == "notes." + "7";
    assert "notes.md.8" == "notes." + "md.8";
    assert "notes.md.8"[..9] == "notes.md.";
    assert !IsDigit("notes.md.8"[6]);
    assert Less("7", "md.8");
    LessCommonPrefix("notes.", "7", "md.8");
  }

  /** The greatest name of a non-empty set (`Array#max`). */
  predicate IsGreatest(m: string, names: set<string>) {
    m in names && forall n :: n in names && n != m ==> Less(n, m)
  }

  /** `backups.max`. */
  method Greatest(names: set<string>) returns (latest: string)
    requires names != {}
    ensures IsGreatest(latest, names)
  {
    latest :| latest in names;
    var rest := names - {latest};
    while rest != {}
      invariant rest <= names && latest in names && latest !in rest
      invariant forall n :: n in names - rest && n != latest ==> Less(n, latest)
      decreases |rest|
    {
      var n :| n in rest;
      if Less(latest, n) {
        forall m | m in names - rest && m != latest
          ensures Less(m, n)
        {
          LessTransitive(m, latest, n);
        }
        latest := n;
      } else {
        LessTotal(n, latest);
      }
      rest := rest - {n};
    }
  }

  lemma GreatestUnique(m1: string, m2: string, names: set<string>)
    requires IsGreatest(m1, names) && IsGreatest(m2, names)
    ensures m1 == m2
  {
    if m1 != m2 {
      LessAsymmetric(m1, m2);
    }
  }

  // ---------------------------------------------------------------------------------------
  // The tool
  // ---------------------------------------------------------------------------------------

  const ReplacedMessage := "Successfully replaced text at exactly one location."

  class TextEditor {
    const baseDir: string
    const backupDir: string
    /** `File.expand_path(File.join(base_dir, file_path))`, supplied from outside. */
    const resolve: (string, string) -> string
    /** Every file below the base directory and the backup directory, by absolute path. */
    var files: map<string, string>

    /** `TextEditorTool.new(base_dir:, backup_dir:)`: an empty base directory means the working
        directory, an empty backup directory means ".backups" inside the base directory. */
    constructor(baseDir: string, backupDir: string, cwd: string, resolve: (string, string) -> string, files: map<string, string>)
      ensures this.baseDir == if baseDir == "" then cwd else baseDir
      ensures this.backupDir == if backupDir == "" then JoinPath(this.baseDir, ".backups") else backupDir
      ensures this.resolve == resolve && this.files == files
    {
      this.baseDir := if baseDir == "" then cwd else baseDir;
      this.backupDir := if backupDir == "" then JoinPath(if baseDir == "" then cwd else baseDir, ".backups") else backupDir;
      this.resolve := resolve;
      this.files := files;
    }

    /** `validate_path`. */
    function ValidatePath(filePath: string): (r: Result<string, EditError>)
      ensures r.Success? <==> InsideDir(resolve(baseDir, filePath), baseDir)
      ensures r.Success? ==> r.value == resolve(baseDir, filePath)
      ensures r.Failure? ==> r.error == AccessDenied(filePath)
    {
      CheckPathInsideDir(baseDir, resolve(baseDir, filePath), filePath);
      CheckPath(baseDir, resolve(baseDir, filePath), filePath)
    }

    /** Whether `p` names an existing directory. The file map holds no directory entries: the
        base directory and the backup directory exist (`initialize` creates the latter), and so
        does every directory that holds a file. */
    predicate IsDir(p: string)
      reads this
    {
      p == baseDir || p == backupDir || exists k :: k in files && StartsWith(k, WithSlash(p))
    }

    /** `validate_path` followed by the "File not found" check; a directory passes that check
        and then fails when it is read as a file. */
    function Existing(filePath: string): Result<string, EditError>
      reads this
    {
      match ValidatePath(filePath)
      case Failure(e) => Failure(e)
      case Success(abs) =>
        if abs in files then Success(abs)
        else if IsDir(abs) then Failure(IsADirectory)
        else Failure(FileNotFound)
    }

    function BackupPath(path: string, mtime: nat): string {
      JoinPath(backupDir, BackupName(path, mtime))
    }

    /** The backups `restore_backup` considers for a file named `fileName`: the entries of the
        backup directory that are copies of it. */
    function BackupsOf(fileName: string): (r: set<string>)
      reads this
      ensures forall n :: n in r ==> IsBackupName(n, fileName) && WithSlash(backupDir) + n in files
      ensures forall k :: k in files && StartsWith(k, WithSlash(backupDir)) && IsBackupName(k[|WithSlash(backupDir)|..], fileName) ==>
        k[|WithSlash(backupDir)|..] in r
    {
      var dir := WithSlash(backupDir);
      assert forall k :: StartsWith(k, dir) ==> k == k[..|dir|] + k[|dir|..];
      set k | k in files && StartsWith(k, dir) && IsBackupName(k[|dir|..], fileName) :: k[|dir|..]
    }

    /** `backup_file(path)`, where `mtime` is the file's modification time in seconds. */
    method BackupFile(path: string, mtime: nat) returns (backupPath: string)
      modifies this
      ensures path !in old(files) ==> backupPath == "" && files == old(files)
      ensures path in old(files) ==>
        backupPath == BackupPath(path, mtime) && files == old(files)[backupPath := old(files)[path]]
    {
      if path !in files {
        return "";
      }
      backupPath := BackupPath(path, mtime);
      files := files[backupPath := files[path]];
    }

    /** `restore_backup(path)`: copies the greatest backup of the file back over it. */
    method RestoreBackup(path: string) returns (r: Result<string, EditError>)
      modifies this
      ensures old(BackupsOf(Basename(path))) == {} ==> r == Failure(NoBackupsFound(path)) && files == old(files)
      ensures old(BackupsOf(Basename(path))) != {} ==>
        && r == Success("Successfully restored " + path + " from backup")
        && exists latest :: IsGreatest(latest, old(BackupsOf(Basename(path))))
             && JoinPath(backupDir, latest) in old(files)
             && files == old(files)[path := old(files)[JoinPath(backupDir, latest)]]
    {
      var backups := BackupsOf(Basename(path));
      if backups == {} {
        return Failure(NoBackupsFound(path));
      }
      var latest := Greatest(backups);
      assert JoinPath(backupDir, latest) in files;
      files := files[path := files[JoinPath(backupDir, latest)]];
      r := Success("Successfully restored " + path + " from backup");
    }

    /** `view(file_path, view_range:)` on a file (directory listings are not modelled). */
    method View(filePath: string, viewRange: Option<(int, int)>) returns (r: Result<string, EditError>)
      ensures Existing(filePath).Failure? ==> r == Failure(Existing(filePath).error)
      ensures Existing(filePath).Success? ==> r == ViewText(files[Existing(filePath).value], viewRange)
    {
      var abs := ValidatePath(filePath);
      if abs.Failure? {
        return Failure(abs.error);
      }
      if abs.value !in files {
        return Failure(if IsDir(abs.value) then IsADirectory else FileNotFound);
      }
      var lines := SplitLines(files[abs.value]);
      var first := 1;
      var selected := lines;
      if viewRange.Some? {
        var (startLine, endLine) := viewRange.value;
        var stop := if endLine == -1 then |lines| else endLine;
        var slice := RangeSlice(lines, startLine - 1, stop);
        if slice.None? {
          return Failure(NoSuchRange);
        }
        first := startLine;
        selected := slice.value;
      }
      var result := NumberLines(selected, first);
      r := Success(Join(result, "\n"));
    }

    /** `str_replace(file_path, old_str, new_str)`; `mtime` is the file's modification time. */
    method StrReplace(filePath: string, oldStr: string, newStr: string, mtime: nat) returns (r: Result<string, EditError>)
      modifies this
      ensures old(Existing(filePath)).Failure? ==> r == Failure(old(Existing(filePath)).error) && files == old(files)
      ensures old(Existing(filePath)).Success? ==>
        var abs := old(Existing(filePath)).value;
        match StrReplaceText(old(files)[abs], oldStr, newStr)
        case Failure(e) => r == Failure(e) && files == old(files)
        case Success(updated) =>
          && r == Success(ReplacedMessage)
          && files == old(files)[BackupPath(abs, mtime) := old(files)[abs]][abs := updated]
    {
      var abs := ValidatePath(filePath);
      if abs.Failure? {
        return Failure(abs.error);
      }
      if abs.value !in files {
        return Failure(if IsDir(abs.value) then IsADirectory else FileNotFound);
      }
      var path := abs.value;
      var content := files[path];
      var outcome := StrReplaceText(content, oldStr, newStr);
      if outcome.Failure? {
        return Failure(outcome.error);
      }
      var _ := BackupFile(path, mtime);
      files := files[path := outcome.value];
      r := Success(ReplacedMessage);
    }

    /** `create(file_path, file_text)`. */
    method Create(filePath: string, fileText: string) returns (r: Result<string, EditError>)
      modifies this
      ensures ValidatePath(filePath).Failure? ==> r == Failure(ValidatePath(filePath).error) && files == old(files)
      ensures (&& ValidatePath(filePath).Success?
               && (ValidatePath(filePath).value in old(files) || old(IsDir(ValidatePath(filePath).value)))) ==>
        r == Failure(FileExists) && files == old(files)
      ensures (&& ValidatePath(filePath).Success?
               && ValidatePath(filePath).value !in old(files)
               && !old(IsDir(ValidatePath(filePath).value))) ==>
        && r == Success("Successfully created " + filePath)
        && files == old(files)[ValidatePath(filePath).value := fileText]
    {
      var abs := ValidatePath(filePath);
      if abs.Failure? {
        return Failure(abs.error);
      }
      if abs.value in files || IsDir(abs.value) {
        return Failure(FileExists);
      }
      files := files[abs.value := fileText];
      r := Success("Successfully created " + filePath);
    }

    /** `insert(file_path, insert_line, new_str)`; the backup is taken before the line number is
        checked, so a refused insert still leaves a backup behind. */
    method Insert(filePath: string, insertLine: int, newStr: string, mtime: nat) returns (r: Result<string, EditError>)
      modifies this
      ensures old(Existing(filePath)).Failure? ==> r == Failure(old(Existing(filePath)).error) && files == old(files)
      ensures old(Existing(filePath)).Success? ==>
        var abs := old(Existing(filePath)).value;
        var backedUp := old(files)[BackupPath(abs, mtime) := old(files)[abs]];
        match InsertLines(ReadLines(old(files)[abs]), insertLine, newStr)
        case Failure(e) => r == Failure(e) && files == backedUp
        case Success(lines) =>
          && r == Success("Successfully inserted text after line " + IntToString(insertLine))
          && files == backedUp[abs := Concat(lines)]
    {
      var abs := ValidatePath(filePath);
      if abs.Failure? {
        return Failure(abs.error);
      }
      if abs.value !in files {
        return Failure(if IsDir(abs.value) then IsADirectory else FileNotFound);
      }
      var path := abs.value;
      var _ := BackupFile(path, mtime);
      var lines := ReadLines(files[path]);
      var outcome := InsertLines(lines, insertLine, newStr);
      if outcome.Failure? {
        return Failure(outcome.error);
      }
      files := files[path := Concat(outcome.value)];
      r := Success("Successfully inserted text after line " + IntToString(insertLine));
    }

    /** `undo_edit(file_path)`: restores the greatest backup of the file, or reports that there
        is nothing to undo. */
    method UndoEdit(filePath: string) returns (r: Result<string, EditError>)
      modifies this
      ensures old(Existing(filePath)).Failure? ==> r == Failure(old(Existing(filePath)).error) && files == old(files)
      ensures old(Existing(filePath)).Success? ==>
        var abs := old(Existing(filePath)).value;
        var backups := old(BackupsOf(Basename(abs)));
        && (backups == {} ==> r == Failure(NoPreviousEdits) && files == old(files))
        && (backups != {} ==>
              && r == Success("Successfully restored " + abs + " from backup")
              && exists latest :: IsGreatest(latest, backups)
                   && JoinPath(backupDir, latest) in old(files)
                   && files == old(files)[abs := old(files)[JoinPath(backupDir, latest)]])
    {
      var abs := ValidatePath(filePath);
      if abs.Failure? {
        return Failure(abs.error);
      }
      if abs.value !in files {
        return Failure(if IsDir(abs.value) then IsADirectory else FileNotFound);
      }
      r := RestoreBackup(abs.value);
      if r.Failure? {
        r := Failure(NoPreviousEdits);
      }
    }
  }
}
