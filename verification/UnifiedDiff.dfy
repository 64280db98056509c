/** Reading unified diffs: which lines were added and which deleted. */
module UnifiedDiff {
  import opened CodeGraph
  import opened Text

  datatype LineRange = LineRange(start: int, count: int)

  datatype FileDiff = FileDiff(
    oldPath: string, newPath: string, isNew: bool, isDeleted: bool,
    added: seq<int>, deleted: seq<int>, ranges: seq<LineRange>)

  const NO_FILE := "/dev/null"

  const BLANK: FileDiff := FileDiff("", "", false, false, [], [], [])

  function PathOf(d: FileDiff): string {
    if d.newPath != "" && d.newPath != NO_FILE then d.newPath else d.oldPath
  }

  // ---------------------------------------------------------------------------------
  // Runs of lines

  function Numbers(start: int, count: nat): seq<int> {
    seq(count, i => start + i)
  }

  /** The lines some ranges stand for. */
  function Expand(ranges: seq<LineRange>): seq<int> {
    if ranges == [] then []
    else
      var last := ranges[|ranges| - 1];
      Expand(ranges[..|ranges| - 1]) + Numbers(last.start, if last.count < 0 then 0 else last.count)
  }

  /** No range is empty, and none could be joined to the one before. */
  predicate Maximal(ranges: seq<LineRange>) {
    ranges == [] ||
    var init, last := ranges[..|ranges| - 1], ranges[|ranges| - 1];
    && last.count > 0 && Maximal(init)
    && (init != [] ==> last.start != init[|init| - 1].start + init[|init| - 1].count)
  }

  lemma ExpandSnoc(ranges: seq<LineRange>, r: LineRange)
    requires r.count >= 0
    ensures Expand(ranges + [r]) == Expand(ranges) + Numbers(r.start, r.count)
  {
    assert (ranges + [r])[..|ranges|] == ranges;
  }

  /** Half-way: the closed ranges and the open one make up the lines so far. */
  ghost predicate Condensed(lines: seq<int>, ranges: seq<LineRange>, start: int, count: int) {
    && count > 0 && Expand(ranges) + Numbers(start, count) == lines
    && Maximal(ranges + [LineRange(start, count)])
  }

  lemma CondensedNext(lines: seq<int>, ranges: seq<LineRange>, start: int, count: int, line: int)
    requires Condensed(lines, ranges, start, count)
    ensures line == start + count ==> Condensed(lines + [line], ranges, start, count + 1)
    ensures line != start + count ==> Condensed(lines + [line], ranges + [LineRange(start, count)], line, 1)
  {
    if line == start + count {
      assert Numbers(start, count + 1) == Numbers(start, count) + [line];
      MaximalSnoc(ranges, LineRange(start, count));
      MaximalSnoc(ranges, LineRange(start, count + 1));
    } else {
      ExpandSnoc(ranges, LineRange(start, count));
      assert Numbers(line, 1) == [line];
      MaximalSnoc(ranges + [LineRange(start, count)], LineRange(line, 1));
    }
  }

  lemma CondensedLast(lines: seq<int>, ranges: seq<LineRange>, start: int, count: int)
    requires Condensed(lines, ranges, start, count)
    ensures lines[|lines| - 1] == start + count - 1
    ensures Expand(ranges + [LineRange(start, count)]) == lines
  {
    ExpandSnoc(ranges, LineRange(start, count));
    assert Numbers(start, count)[count - 1] == start + count - 1;
  }

  lemma CondensedStep(lines: seq<int>, i: nat, ranges: seq<LineRange>, start: int, count: int)
    requires 0 < i < |lines| && Condensed(lines[..i], ranges, start, count)
    ensures lines[i - 1] == start + count - 1
    ensures lines[i] == start + count ==> Condensed(lines[..i + 1], ranges, start, count + 1)
    ensures lines[i] != start + count ==> Condensed(lines[..i + 1], ranges + [LineRange(start, count)], lines[i], 1)
  {
    CondensedLast(lines[..i], ranges, start, count);
    CondensedNext(lines[..i], ranges, start, count, lines[i]);
    assert lines[..i + 1] == lines[..i] + [lines[i]];
  }

  lemma CondensedFirst(lines: seq<int>)
    requires |lines| > 0
    ensures Condensed(lines[..1], [], lines[0], 1)
  {
    assert lines[..1] == [lines[0]] == Numbers(lines[0], 1);
  }

  method CondenseLineRanges(lines: seq<int>) returns (ranges: seq<LineRange>)
    ensures Expand(ranges) == lines && Maximal(ranges)
  {
    ranges := [];
    if |lines| == 0 {
      return;
    }
    var start, count := lines[0], 1;
    CondensedFirst(lines);
    for i := 1 to |lines|
      invariant Condensed(lines[..i], ranges, start, count)
    {
      CondensedStep(lines, i, ranges, start, count);
      if lines[i] == lines[i - 1] + 1 {
        count := count + 1;
      } else {
        ranges := ranges + [LineRange(start, count)];
        start, count := lines[i], 1;
      }
    }
    assert lines[..|lines|] == lines;
    CondensedLast(lines, ranges, start, count);
    ranges := ranges + [LineRange(start, count)];
  }

  lemma MaximalSnoc(ranges: seq<LineRange>, r: LineRange)
    ensures Maximal(ranges + [r]) <==>
              && Maximal(ranges) && r.count > 0
              && (ranges != [] ==> r.start != ranges[|ranges| - 1].start + ranges[|ranges| - 1].count)
  {
    assert (ranges + [r])[..|ranges|] == ranges;
  }

  /** There is only one way to write some lines as maximal ranges. */
  lemma {:induction false} RangesUnique(a: seq<LineRange>, b: seq<LineRange>)
    requires Maximal(a) && Maximal(b) && Expand(a) == Expand(b)
    ensures a == b
    decreases |a|
  {
    OnlyEmpty(a);
    OnlyEmpty(b);
    if a != [] && b != [] {
      SameRun(a, b);
      SameRun(b, a);
      WithoutLast(a);
      WithoutLast(b);
      LastSplits(a);
      LastSplits(b);
      RangesUnique(a[..|a| - 1], b[..|b| - 1]);
    }
  }

  lemma LastSplits<T>(s: seq<T>)
    requires s != []
    ensures s == s[..|s| - 1] + [s[|s| - 1]]
  {
  }

  lemma WithoutLast(a: seq<LineRange>)
    requires Maximal(a) && a != []
    ensures Maximal(a[..|a| - 1])
    ensures 0 < a[|a| - 1].count <= |Expand(a)|
    ensures Expand(a[..|a| - 1]) == Expand(a)[..|Expand(a)| - a[|a| - 1].count]
  {
  }

  lemma OnlyEmpty(a: seq<LineRange>)
    requires Maximal(a)
    ensures Expand(a) == [] <==> a == []
  {
  }

  /** The last range is the longest run at the end. */
  lemma LastRun(a: seq<LineRange>)
    requires Maximal(a) && a != []
    ensures var x, lines := a[|a| - 1], Expand(a);
      && 0 < x.count <= |lines|
      && (forall i :: |lines| - x.count <= i < |lines| ==> lines[i] == x.start + x.count - (|lines| - i))
      && (x.count < |lines| ==> lines[|lines| - x.count - 1] != x.start - 1)
  {
    var init, x := a[..|a| - 1], a[|a| - 1];
    if init != [] {
      var y := init[|init| - 1];
      assert Expand(init) == Expand(init[..|init| - 1]) + Numbers(y.start, y.count);
      assert Expand(init)[|Expand(init)| - 1] == y.start + y.count - 1;
    }
  }

  lemma SameRun(a: seq<LineRange>, b: seq<LineRange>)
    requires Maximal(a) && Maximal(b) && a != [] && b != [] && Expand(a) == Expand(b)
    ensures a[|a| - 1].count <= b[|b| - 1].count
    ensures a[|a| - 1].count == b[|b| - 1].count ==> a[|a| - 1] == b[|b| - 1]
  {
    LastRun(a);
    LastRun(b);
    var x, y, lines := a[|a| - 1], b[|b| - 1], Expand(a);
    var end := |lines| - 1;
    assert lines[end] == x.start + x.count - 1 && lines[end] == y.start + y.count - 1;
  }

  // ---------------------------------------------------------------------------------
  // Words and numbers

  /** The blanks beyond ASCII. */
  const WIDE_SPACES: set<char> :=
    {'\U{85}', '\U{A0}', '\U{1680}', '\U{2000}', '\U{2001}', '\U{2002}', '\U{2003}', '\U{2004}', '\U{2005}',
     '\U{2006}', '\U{2007}', '\U{2008}', '\U{2009}', '\U{200A}', '\U{2028}', '\U{2029}', '\U{202F}', '\U{205F}',
     '\U{3000}'}

  /** The characters Unicode calls white space. */
  predicate IsSpace(c: char) {
    if c < '\U{80}' then c == ' ' || '\t' <= c <= '\r' else c in WIDE_SPACES
  }

  predicate AllSpace(s: string) {
    forall c :: c in s ==> IsSpace(c)
  }

  predicate NoSpace(s: string) {
    forall c :: c in s ==> !IsSpace(c)
  }

  predicate EndsInSpace(s: string) {
    s != [] && IsSpace(s[|s| - 1])
  }

  function TrimLeft(s: string): string {
    if s != [] && IsSpace(s[0]) then TrimLeft(s[1..]) else s
  }

  function TrimRight(s: string): string {
    if s != [] && IsSpace(s[|s| - 1]) then TrimRight(s[..|s| - 1]) else s
  }

  function TrimSpace(s: string): string {
    TrimRight(TrimLeft(s))
  }

  /** The words of a line and what follows the first of them. */
  function FirstWord(s: string): (string, string) {
    if s == [] || IsSpace(s[0]) then ([], s) else var p := FirstWord(s[1..]); ([s[0]] + p.0, p.1)
  }

  lemma {:induction false} FirstWordSplits(s: string)
    ensures FirstWord(s).0 + FirstWord(s).1 == s
    ensures s != [] && !IsSpace(s[0]) ==> FirstWord(s).0 != []
  {
    if s != [] && !IsSpace(s[0]) {
      FirstWordSplits(s[1..]);
      assert s == [s[0]] + s[1..];
    }
  }

  lemma {:induction false} TrimLeftShrinks(s: string)
    ensures |TrimLeft(s)| <= |s| && (TrimLeft(s) != [] ==> !IsSpace(TrimLeft(s)[0]))
  {
    if s != [] && IsSpace(s[0]) {
      TrimLeftShrinks(s[1..]);
    }
  }

  function Fields(s: string): seq<string>
    decreases |s|
  {
    TrimLeftShrinks(s);
    FirstWordSplits(TrimLeft(s));
    if TrimLeft(s) == [] then [] else [FirstWord(TrimLeft(s)).0] + Fields(FirstWord(TrimLeft(s)).1)
  }

  lemma {:induction false} FirstWordOf(w: string, rest: string)
    requires NoSpace(w) && (rest != [] ==> IsSpace(rest[0]))
    ensures FirstWord(w + rest) == (w, rest)
  {
    if w == [] {
      assert w + rest == rest;
    } else {
      assert (w + rest)[1..] == w[1..] + rest;
      assert w[0] in w && w == [w[0]] + w[1..];
      FirstWordOf(w[1..], rest);
    }
  }

  /** The first word of a text that has a blank in it is not the whole text. */
  lemma {:induction false} FirstWordShort(s: string, rest: string)
    requires !NoSpace(s)
    ensures |FirstWord(s + rest).0| < |s|
  {
    var c :| c in s && IsSpace(c);
    if !IsSpace(s[0]) {
      assert s == [s[0]] + s[1..] && c in s[1..];
      assert (s + rest)[1..] == s[1..] + rest;
      FirstWordShort(s[1..], rest);
    }
  }

  lemma {:induction false} FirstWordPlain(s: string)
    ensures NoSpace(FirstWord(s).0)
  {
    if s != [] && !IsSpace(s[0]) {
      FirstWordPlain(s[1..]);
    }
  }

  /** The first field is the whole of a text that a blank follows if and only if the text has
      no blank in it. */
  lemma FirstWordExactly(s: string, rest: string)
    requires rest != [] ==> IsSpace(rest[0])
    ensures FirstWord(s + rest).0 == s <==> NoSpace(s)
  {
    if NoSpace(s) {
      FirstWordOf(s, rest);
    } else {
      FirstWordShort(s, rest);
    }
  }

  lemma FieldsFirst(s: string)
    requires s != [] && !IsSpace(s[0])
    ensures Fields(s) == [FirstWord(s).0] + Fields(FirstWord(s).1)
  {
  }

  lemma FieldsWord(w: string, rest: string)
    requires w != [] && NoSpace(w)
    ensures Fields(w + " " + rest) == [w] + Fields(rest)
  {
    assert w[0] in w;
    FirstWordOf(w, " " + rest);
    assert w + " " + rest == w + (" " + rest);
    FieldsFirst(w + " " + rest);
    FieldsSkips(rest);
  }

  lemma FieldsSkips(rest: string)
    ensures Fields(" " + rest) == Fields(rest)
  {
    assert (" " + rest)[1..] == rest;
    assert TrimLeft(" " + rest) == TrimLeft(rest);
  }

  lemma {:induction false} TrimRightEnd(s: string, trail: string)
    requires AllSpace(trail)
    ensures TrimRight(s + trail) == TrimRight(s)
  {
    if trail == [] {
      assert s + trail == s;
    } else {
      assert trail[|trail| - 1] in trail;
      assert (s + trail)[..|s + trail| - 1] == s + trail[..|trail| - 1];
      TrimRightEnd(s, trail[..|trail| - 1]);
    }
  }

  /** Trimming the right takes off what it finds there, and stops at the first character that
      is no blank. */
  lemma {:induction false} TrimRightKeeps(head: string, s: string)
    requires head != [] && !EndsInSpace(head)
    ensures TrimRight(head + s) == head + TrimRight(s) && |TrimRight(s)| <= |s|
  {
    if EndsInSpace(s) {
      assert (head + s)[..|head + s| - 1] == head + s[..|s| - 1];
      TrimRightKeeps(head, s[..|s| - 1]);
    } else {
      assert s == [] ==> head + s == head;
      assert !EndsInSpace(head + s);
    }
  }

  function Magnitude(s: string): nat {
    match FromDecimal(s)
    case Some(n) => n
    case None => 0
  }

  /** A number, 0 if it cannot be read. */
  function Atoi(s: string): int {
    if s != [] && s[0] == '-' then
      var m: int := Magnitude(s[1..]); -m
    else if s != [] && s[0] == '+' then Magnitude(s[1..])
    else Magnitude(s)
  }

  lemma AtoiReads(n: nat)
    ensures Atoi(Decimal(n)) == n
  {
    DecimalReads(n);
    assert Decimal(n)[0] in Decimal(n);
  }

  /** Where `part` first occurs. */
  function IndexFrom(s: string, part: string, i: nat): Option<nat>
    decreases |s| - i
  {
    if OccursAt(s, part, i) then Some(i) else if i >= |s| then None else IndexFrom(s, part, i + 1)
  }

  lemma {:induction false} IndexIsFirst(s: string, part: string, i: nat, at: nat)
    requires i <= at && OccursAt(s, part, at) && forall k :: i <= k < at ==> !OccursAt(s, part, k)
    ensures IndexFrom(s, part, i) == Some(at)
    decreases at - i
  {
    if i < at {
      IndexIsFirst(s, part, i + 1, at);
    }
  }

  // ---------------------------------------------------------------------------------
  // One line at a time

  function CleanPath(path: string): string {
    var p := TrimSpace(path);
    if p != NO_FILE && (HasPrefix(p, "a/") || HasPrefix(p, "b/")) then p[2..] else p
  }

  function RangeStart(spec: string): int {
    Atoi(Split(spec, ',')[0])
  }

  /** The new and old starting lines of a hunk header, if it is one. */
  function HunkStarts(line: string): Option<(int, int)>
    requires |line| >= 3
  {
    match IndexFrom(line[3..], " @@", 0)
    case None => None
    case Some(end) =>
      if end > |line| - 3 then None
      else
        var parts := Split(TrimSpace(line[3..3 + end]), ' ');
        if |parts| < 2 then None
        else Some((RangeStart(TrimPrefix(parts[1], "+")), RangeStart(TrimPrefix(parts[0], "-"))))
  }

  /** The parser between two lines. */
  datatype Reader = Reader(diffs: seq<FileDiff>, current: Option<FileDiff>, newLine: int, oldLine: int)

  const START: Reader := Reader([], None, 0, 0)

  function Opened(line: string): FileDiff {
    var parts := Fields(line);
    if |parts| >= 4 then BLANK.(oldPath := CleanPath(parts[2]), newPath := CleanPath(parts[3])) else BLANK
  }

  /** A line inside a file's section. */
  function InFile(r: Reader, d: FileDiff, line: string): Reader {
    if HasPrefix(line, "new file mode ") then r.(current := Some(d.(isNew := true)))
    else if HasPrefix(line, "deleted file mode ") then r.(current := Some(d.(isDeleted := true)))
    else if HasPrefix(line, "--- ") then r.(current := Some(d.(oldPath := CleanPath(TrimPrefix(line, "--- ")))))
    else if HasPrefix(line, "+++ ") then r.(current := Some(d.(newPath := CleanPath(TrimPrefix(line, "+++ ")))))
    else if HasPrefix(line, "@@ ") then
      match HunkStarts(line)
      case Some(starts) => r.(newLine := starts.0, oldLine := starts.1)
      case None => r
    else if line == [] || line[0] == ' ' then r.(newLine := r.newLine + 1, oldLine := r.oldLine + 1)
    else if line[0] == '+' then r.(current := Some(d.(added := d.added + [r.newLine])), newLine := r.newLine + 1)
    else if line[0] == '-' then r.(current := Some(d.(deleted := d.deleted + [r.oldLine])), oldLine := r.oldLine + 1)
    else r
  }

  function ReadLine(r: Reader, line: string): Reader {
    if HasPrefix(line, "diff --git ") then Reader(Finished(r), Some(Opened(line)), r.newLine, r.oldLine)
    else if r.current.None? then r
    else InFile(r, r.current.value, line)
  }

  /** The sections read so far, the open one included. */
  function Finished(r: Reader): seq<FileDiff> {
    if r.current.Some? then r.diffs + [r.current.value] else r.diffs
  }

  function ReadAll(r: Reader, lines: seq<string>): Reader {
    if lines == [] then r else ReadLine(ReadAll(r, lines[..|lines| - 1]), lines[|lines| - 1])
  }

  lemma {:induction false} ReadAllConcat(r: Reader, a: seq<string>, b: seq<string>)
    ensures ReadAll(r, a + b) == ReadAll(ReadAll(r, a), b)
  {
    if b == [] {
      assert a + b == a;
    } else {
      ReadAllConcat(r, a, b[..|b| - 1]);
      assert (a + b)[..|a + b| - 1] == a + b[..|b| - 1];
    }
  }

  lemma ReadAllOne(r: Reader, line: string)
    ensures ReadAll(r, [line]) == ReadLine(r, line)
  {
    assert [line][..0] == [];
  }

  /** `e` is `d` with its added lines also given as maximal ranges. */
  ghost predicate Ranged(d: FileDiff, e: FileDiff) {
    e == d.(ranges := e.ranges) && Expand(e.ranges) == d.added && Maximal(e.ranges)
  }

  ghost predicate AllRanged(read: seq<FileDiff>, diffs: seq<FileDiff>) {
    |read| == |diffs| && forall i :: 0 <= i < |read| ==> Ranged(read[i], diffs[i])
  }

  method ParseUnifiedDiff(lines: seq<string>) returns (diffs: seq<FileDiff>)
    ensures AllRanged(Finished(ReadAll(START, lines)), diffs)
  {
    var current, newLine, oldLine := None, 0, 0;
    diffs := [];
    ghost var r := START;
    for i := 0 to |lines|
      invariant r == ReadAll(START, lines[..i])
      invariant r.current == current && r.newLine == newLine && r.oldLine == oldLine
      invariant AllRanged(r.diffs, diffs)
    {
      var line := lines[i];
      assert lines[..i + 1][..i] == lines[..i];
      r := ReadLine(r, line);
      if HasPrefix(line, "diff --git ") {
        if current.Some? {
          var ranges := CondenseLineRanges(current.value.added);
          diffs := diffs + [current.value.(ranges := ranges)];
        }
        current := Some(Opened(line));
      } else if current.Some? {
        var file;
        file, newLine, oldLine := FollowLine(current.value, newLine, oldLine, line);
        current := Some(file);
      }
    }
    assert lines[..|lines|] == lines;
    if current.Some? {
      var ranges := CondenseLineRanges(current.value.added);
      diffs := diffs + [current.value.(ranges := ranges)];
    }
  }

  /** The part of the loop for a line inside a file's section. */
  method FollowLine(file0: FileDiff, newLine0: int, oldLine0: int, line: string)
    returns (file: FileDiff, newLine: int, oldLine: int)
    ensures forall diffs :: Reader(diffs, Some(file), newLine, oldLine)
                              == InFile(Reader(diffs, Some(file0), newLine0, oldLine0), file0, line)
  {
    file, newLine, oldLine := file0, newLine0, oldLine0;
    if HasPrefix(line, "new file mode ") {
      file := file.(isNew := true);
    } else if HasPrefix(line, "deleted file mode ") {
      file := file.(isDeleted := true);
    } else if HasPrefix(line, "--- ") {
      file := file.(oldPath := CleanPath(TrimPrefix(line, "--- ")));
    } else if HasPrefix(line, "+++ ") {
      file := file.(newPath := CleanPath(TrimPrefix(line, "+++ ")));
    } else if HasPrefix(line, "@@ ") {
      var starts := HunkStarts(line);
      if starts.Some? {
        newLine, oldLine := starts.value.0, starts.value.1;
      }
    } else if |line| == 0 {
      newLine, oldLine := newLine + 1, oldLine + 1;
    } else {
      match line[0]
      case '+' =>
        file := file.(added := file.added + [newLine]);
        newLine := newLine + 1;
      case '-' =>
        file := file.(deleted := file.deleted + [oldLine]);
        oldLine := oldLine + 1;
      case ' ' =>
        newLine, oldLine := newLine + 1, oldLine + 1;
      case _ =>
    }
  }

  // ---------------------------------------------------------------------------------
  // Writing diffs

  /** A line of a hunk; a context line without text may be written without its leading blank. */
  datatype Line = Context(text: string) | Blank | Add(text: string) | Del(text: string) | NoNewline

  datatype Hunk = Hunk(oldStart: nat, newStart: nat, section: string, body: seq<Line>)

  datatype Change = Modified | Created | Removed

  datatype FilePatch = FilePatch(
    oldPath: string, newPath: string, change: Change, mode: string, notes: seq<string>, trail: string,
    hunks: seq<Hunk>)

  function RenderLine(l: Line): string {
    match l
    case Context(t) => " " + t
    case Blank => ""
    case Add(t) => "+" + t
    case Del(t) => "-" + t
    case NoNewline => "\\ No newline at end of file"
  }

  function RenderBody(body: seq<Line>): seq<string> {
    if body == [] then [] else RenderBody(body[..|body| - 1]) + [RenderLine(body[|body| - 1])]
  }

  /** The lines of the file before the change, and after it. */
  predicate IsOld(l: Line) {
    l.Context? || l.Blank? || l.Del?
  }

  predicate IsNew(l: Line) {
    l.Context? || l.Blank? || l.Add?
  }

  function OldCount(body: seq<Line>): nat {
    if body == [] then 0
    else OldCount(body[..|body| - 1]) + if IsOld(body[|body| - 1]) then 1 else 0
  }

  function NewCount(body: seq<Line>): nat {
    if body == [] then 0
    else NewCount(body[..|body| - 1]) + if IsNew(body[|body| - 1]) then 1 else 0
  }

  /** A count of one is left out. */
  function RenderRange(start: nat, count: nat): string {
    if count == 1 then Decimal(start) else Decimal(start) + "," + Decimal(count)
  }

  function RenderRanges(h: Hunk): string {
    "-" + RenderRange(h.oldStart, OldCount(h.body)) + " " + ("+" + RenderRange(h.newStart, NewCount(h.body)))
  }

  function RenderHunk(h: Hunk): seq<string> {
    ["@@ " + (RenderRanges(h) + " @@" + h.section)] + RenderBody(h.body)
  }

  function RenderHunks(hunks: seq<Hunk>): seq<string> {
    if hunks == [] then [] else RenderHunks(hunks[..|hunks| - 1]) + RenderHunk(hunks[|hunks| - 1])
  }

  function ModeLine(f: FilePatch): seq<string> {
    match f.change
    case Modified => []
    case Created => ["new file mode " + f.mode]
    case Removed => ["deleted file mode " + f.mode]
  }

  function PathLines(f: FilePatch): seq<string> {
    if f.hunks == [] then []
    else ["--- " + OldName(f)] + ["+++ " + NewName(f)]
  }

  /** A name, and the blanks that are written after one (a tab, if it has blanks in it). */
  function OldName(f: FilePatch): string {
    if f.change.Created? then "/dev/null" else "a/" + f.oldPath + f.trail
  }

  function NewName(f: FilePatch): string {
    if f.change.Removed? then "/dev/null" else "b/" + f.newPath + f.trail
  }

  function OpeningLine(f: FilePatch): string {
    "diff --git" + " " + ("a/" + f.oldPath + " " + ("b/" + f.newPath))
  }

  function RenderFile(f: FilePatch): seq<string> {
    [OpeningLine(f)] + ModeLine(f) + f.notes + PathLines(f) + RenderHunks(f.hunks)
  }

  function RenderFiles(files: seq<FilePatch>): seq<string> {
    if files == [] then [] else RenderFiles(files[..|files| - 1]) + RenderFile(files[|files| - 1])
  }

  // ---------------------------------------------------------------------------------
  // What a diff means

  /** The new-side numbers of the added lines, and the old-side numbers of the deleted ones. */
  function AddedIn(body: seq<Line>, start: int): seq<int> {
    if body == [] then []
    else
      var init := body[..|body| - 1];
      if body[|body| - 1].Add? then AddedIn(init, start) + [start + NewCount(init)] else AddedIn(init, start)
  }

  function DeletedIn(body: seq<Line>, start: int): seq<int> {
    if body == [] then []
    else
      var init := body[..|body| - 1];
      if body[|body| - 1].Del? then DeletedIn(init, start) + [start + OldCount(init)] else DeletedIn(init, start)
  }

  function AddedBy(hunks: seq<Hunk>): seq<int> {
    if hunks == [] then []
    else AddedBy(hunks[..|hunks| - 1]) + AddedIn(hunks[|hunks| - 1].body, hunks[|hunks| - 1].newStart)
  }

  function DeletedBy(hunks: seq<Hunk>): seq<int> {
    if hunks == [] then []
    else DeletedBy(hunks[..|hunks| - 1]) + DeletedIn(hunks[|hunks| - 1].body, hunks[|hunks| - 1].oldStart)
  }

  function Meant(f: FilePatch): FileDiff {
    FileDiff(if f.hunks != [] && f.change.Created? then NO_FILE else f.oldPath,
             if f.hunks != [] && f.change.Removed? then NO_FILE else f.newPath,
             f.change.Created?, f.change.Removed?, AddedBy(f.hunks), DeletedBy(f.hunks), [])
  }

  /** Rendered, these look like the lines that name a file. */
  predicate Misleads(l: Line) {
    (l.Add? && HasPrefix(l.text, "++ ")) || (l.Del? && HasPrefix(l.text, "-- "))
  }

  predicate ClearLines(f: FilePatch) {
    forall h :: h in f.hunks ==> forall l :: l in h.body ==> !Misleads(l)
  }

  /** The names can be read back.  A section with hunks names its file in two lines of their
      own, and only a blank at the end of a name is lost; one without has but the opening line,
      where a blank ends a name. */
  predicate ClearNames(f: FilePatch) {
    if f.hunks == [] then NoSpace(f.oldPath) && NoSpace(f.newPath)
    else (f.change.Created? || !EndsInSpace(f.oldPath)) && (f.change.Removed? || !EndsInSpace(f.newPath))
  }

  predicate Clear(f: FilePatch) {
    ClearLines(f) && ClearNames(f)
  }

  /** An extended header line that is not one of those the parser looks for. */
  predicate IsNote(line: string) {
    line != [] && line[0] !in " +-@"
    && !HasPrefix(line, "diff --git ") && !HasPrefix(line, "new file mode ") && !HasPrefix(line, "deleted file mode ")
  }

  predicate WellFormed(f: FilePatch) {
    AllSpace(f.trail) && forall n :: n in f.notes ==> IsNote(n)
  }

  // ---------------------------------------------------------------------------------
  // Reading inverts writing

  lemma PrefixHead(s: string, prefix: string)
    requires HasPrefix(s, prefix) && prefix != []
    ensures s != [] && s[0] == prefix[0]
  {
    assert s[..|prefix|][0] == s[0];
  }

  lemma PrefixDiffers(s: string, prefix: string, i: nat)
    requires i < |s| && i < |prefix| && s[i] != prefix[i]
    ensures !HasPrefix(s, prefix)
  {
    assert |prefix| <= |s| ==> s[..|prefix|][i] == s[i];
  }

  /** Which special line a line can be shows in its first character. */
  lemma Heads(line: string)
    ensures HasPrefix(line, "diff --git ") || HasPrefix(line, "deleted file mode ") ==> line != [] && line[0] == 'd'
    ensures HasPrefix(line, "new file mode ") ==> line != [] && line[0] == 'n'
    ensures HasPrefix(line, "--- ") ==> line != [] && line[0] == '-'
    ensures HasPrefix(line, "+++ ") ==> line != [] && line[0] == '+'
    ensures HasPrefix(line, "@@ ") ==> line != [] && line[0] == '@'
  {
    if HasPrefix(line, "diff --git ") { PrefixHead(line, "diff --git "); }
    if HasPrefix(line, "deleted file mode ") { PrefixHead(line, "deleted file mode "); }
    if HasPrefix(line, "new file mode ") { PrefixHead(line, "new file mode "); }
    if HasPrefix(line, "--- ") { PrefixHead(line, "--- "); }
    if HasPrefix(line, "+++ ") { PrefixHead(line, "+++ "); }
    if HasPrefix(line, "@@ ") { PrefixHead(line, "@@ "); }
  }

  lemma PrefixAfter(c: char, prefix: string, s: string)
    ensures HasPrefix([c] + s, [c] + prefix) <==> HasPrefix(s, prefix)
  {
    if |prefix| <= |s| {
      assert ([c] + s)[..|prefix| + 1] == [c] + s[..|prefix|];
      assert ([c] + s)[..|prefix| + 1][1..] == s[..|prefix|];
      assert ([c] + prefix)[1..] == prefix;
    }
  }

  lemma PrefixItself(prefix: string, rest: string)
    ensures HasPrefix(prefix + rest, prefix) && TrimPrefix(prefix + rest, prefix) == rest
  {
    assert (prefix + rest)[..|prefix|] == prefix;
  }

  /** What reading one body line does to the open section. */
  ghost predicate ReadsLine(r: Reader, l: Line, next: Reader) {
    && r.current.Some? && next.diffs == r.diffs && next.current.Some?
    && var d, e := r.current.value, next.current.value;
    && e.added == (if l.Add? && !Misleads(l) then d.added + [r.newLine] else d.added)
    && e.deleted == (if l.Del? && !Misleads(l) then d.deleted + [r.oldLine] else d.deleted)
    && (!Misleads(l) ==>
          && e == d.(added := e.added, deleted := e.deleted)
          && next.newLine == r.newLine + (if IsNew(l) then 1 else 0)
          && next.oldLine == r.oldLine + (if IsOld(l) then 1 else 0))
  }

  lemma BodyLineReads(r: Reader, l: Line)
    requires r.current.Some?
    ensures ReadsLine(r, l, ReadLine(r, RenderLine(l)))
  {
    var line := RenderLine(l);
    Heads(line);
    assert "+" == ['+'] && "-" == ['-'] && "+++ " == ['+'] + "++ " && "--- " == ['-'] + "-- ";
    match l
    case Context(t) => assert line[0] == ' ';
    case Blank => assert line == [];
    case Add(t) =>
      assert line[0] == '+';
      PrefixAfter('+', "++ ", t);
    case Del(t) =>
      assert line[0] == '-';
      PrefixAfter('-', "-- ", t);
    case NoNewline => assert line[0] == '\\';
  }

  function GoodAdds(body: seq<Line>): nat {
    if body == [] then 0
    else GoodAdds(body[..|body| - 1]) + if body[|body| - 1].Add? && !Misleads(body[|body| - 1]) then 1 else 0
  }

  function GoodDels(body: seq<Line>): nat {
    if body == [] then 0
    else GoodDels(body[..|body| - 1]) + if body[|body| - 1].Del? && !Misleads(body[|body| - 1]) then 1 else 0
  }

  predicate ClearBody(body: seq<Line>) {
    forall l :: l in body ==> !Misleads(l)
  }

  /** The section after a hunk's body: exact if no line misleads, and short of lines if one does. */
  ghost predicate ReadsBody(r: Reader, body: seq<Line>, next: Reader) {
    && r.current.Some? && next.current.Some? && next.diffs == r.diffs
    && |next.current.value.added| == |r.current.value.added| + GoodAdds(body)
    && |next.current.value.deleted| == |r.current.value.deleted| + GoodDels(body)
    && (ClearBody(body) ==>
          && next.current.value == r.current.value.(added := r.current.value.added + AddedIn(body, r.newLine),
                                                    deleted := r.current.value.deleted + DeletedIn(body, r.oldLine))
          && next.newLine == r.newLine + NewCount(body) && next.oldLine == r.oldLine + OldCount(body))
  }

  lemma ClearSnoc(init: seq<Line>, l: Line)
    ensures ClearBody(init + [l]) <==> ClearBody(init) && !Misleads(l)
  {
    assert forall x :: x in init + [l] <==> x in init || x == l;
  }

  lemma CountsSnoc(init: seq<Line>, l: Line)
    ensures NewCount(init + [l]) == NewCount(init) + (if IsNew(l) then 1 else 0)
    ensures OldCount(init + [l]) == OldCount(init) + (if IsOld(l) then 1 else 0)
    ensures GoodAdds(init + [l]) == GoodAdds(init) + (if l.Add? && !Misleads(l) then 1 else 0)
    ensures GoodDels(init + [l]) == GoodDels(init) + (if l.Del? && !Misleads(l) then 1 else 0)
  {
    assert (init + [l])[..|init|] == init;
  }

  lemma NumbersSnoc(init: seq<Line>, l: Line, n: int)
    ensures l.Add? ==> AddedIn(init + [l], n) == AddedIn(init, n) + [n + NewCount(init)]
    ensures !l.Add? ==> AddedIn(init + [l], n) == AddedIn(init, n)
    ensures l.Del? ==> DeletedIn(init + [l], n) == DeletedIn(init, n) + [n + OldCount(init)]
    ensures !l.Del? ==> DeletedIn(init + [l], n) == DeletedIn(init, n)
  {
    assert (init + [l])[..|init|] == init;
  }

  lemma BodyStep(r: Reader, init: seq<Line>, mid: Reader, l: Line, next: Reader)
    requires ReadsBody(r, init, mid) && ReadsLine(mid, l, next)
    ensures ReadsBody(r, init + [l], next)
  {
    ClearSnoc(init, l);
    CountsSnoc(init, l);
    NumbersSnoc(init, l, r.newLine);
    NumbersSnoc(init, l, r.oldLine);
    var d := r.current.value;
    Associates(d.added, AddedIn(init, r.newLine), [r.newLine + NewCount(init)]);
    Associates(d.deleted, DeletedIn(init, r.oldLine), [r.oldLine + OldCount(init)]);
  }

  lemma {:induction false} BodyReads(r: Reader, body: seq<Line>)
    requires r.current.Some?
    ensures ReadsBody(r, body, ReadAll(r, RenderBody(body)))
  {
    if body != [] {
      var init, last := body[..|body| - 1], body[|body| - 1];
      BodyReads(r, init);
      MoreBody(r, init, last);
      assert body == init + [last];
    }
  }

  lemma MoreBody(r: Reader, init: seq<Line>, l: Line)
    requires ReadsBody(r, init, ReadAll(r, RenderBody(init)))
    ensures ReadsBody(r, init + [l], ReadAll(r, RenderBody(init + [l])))
  {
    var mid := ReadAll(r, RenderBody(init));
    BodyLineReads(mid, l);
    LastLineRead(r, init, l);
    BodyStep(r, init, mid, l, ReadLine(mid, RenderLine(l)));
  }

  lemma LastLineRead(r: Reader, init: seq<Line>, l: Line)
    ensures ReadAll(r, RenderBody(init + [l])) == ReadLine(ReadAll(r, RenderBody(init)), RenderLine(l))
  {
    assert (init + [l])[..|init|] == init;
    var lines := RenderBody(init + [l]);
    assert lines[..|lines| - 1] == RenderBody(init);
  }

  lemma {:induction false} CountsShort(body: seq<Line>)
    ensures |AddedIn(body, 0)| >= GoodAdds(body) && |DeletedIn(body, 0)| >= GoodDels(body)
    ensures ClearBody(body) <==> |AddedIn(body, 0)| == GoodAdds(body) && |DeletedIn(body, 0)| == GoodDels(body)
    ensures forall n :: |AddedIn(body, n)| == |AddedIn(body, 0)| && |DeletedIn(body, n)| == |DeletedIn(body, 0)|
  {
    if body != [] {
      var init, last := body[..|body| - 1], body[|body| - 1];
      CountsShort(init);
      assert body == init + [last];
    }
  }

  // The hunk header

  lemma DecimalPlain(n: nat)
    ensures Decimal(n) != [] && forall c :: c in Decimal(n) ==> c !in ",@-+" && !IsSpace(c)
  {
    DecimalReads(n);
  }

  lemma RangePlain(start: nat, count: nat)
    ensures var s := RenderRange(start, count);
      && s != [] && (forall c :: c in s ==> c !in "@-+" && !IsSpace(c)) && RangeStart(s) == start
  {
    DecimalPlain(start);
    DecimalPlain(count);
    AtoiReads(start);
    var s := RenderRange(start, count);
    if count == 1 {
      CutJoins(s, ',');
    } else {
      CutAt(Decimal(start), ',', Decimal(count));
    }
  }

  lemma TrimNothing(s: string)
    requires s != [] && !IsSpace(s[0]) && !IsSpace(s[|s| - 1])
    ensures TrimSpace(s) == s
  {
  }

  lemma SplitTwo(a: string, c: char, b: string)
    requires c !in a && c !in b
    ensures Split(a + [c] + b, c) == [a, b]
  {
    CutAt(a, c, b);
    CutJoins(b, c);
    assert Split(b, c) == [b];
  }

  lemma RangesFirst(x: string, section: string)
    requires '@' !in x
    ensures IndexFrom(x + " @@" + section, " @@", 0) == Some(|x|)
  {
    var s := x + " @@" + section;
    assert OccursAt(s, " @@", |x|);
    forall k: nat | k < |x| ensures !OccursAt(s, " @@", k) {
      assert s[k + 1] == if k + 1 < |x| then x[k + 1] else ' ';
      assert k + 3 <= |s| ==> s[k..k + 3][1] == s[k + 1];
    }
    IndexIsFirst(s, " @@", 0, |x|);
  }

  lemma RangesShape(h: Hunk)
    ensures '@' !in RenderRanges(h) && TrimSpace(RenderRanges(h)) == RenderRanges(h)
  {
    var n := RenderRange(h.newStart, NewCount(h.body));
    RangePlain(h.oldStart, OldCount(h.body));
    RangePlain(h.newStart, NewCount(h.body));
    assert n[|n| - 1] in n;
    TrimNothing(RenderRanges(h));
  }

  lemma SpecsRead(h: Hunk)
    ensures var parts := Split(RenderRanges(h), ' ');
      && |parts| == 2
      && RangeStart(TrimPrefix(parts[1], "+")) == h.newStart && RangeStart(TrimPrefix(parts[0], "-")) == h.oldStart
  {
    var o, n := RenderRange(h.oldStart, OldCount(h.body)), RenderRange(h.newStart, NewCount(h.body));
    RangePlain(h.oldStart, OldCount(h.body));
    RangePlain(h.newStart, NewCount(h.body));
    assert RenderRanges(h) == ("-" + o) + [' '] + ("+" + n);
    SplitTwo("-" + o, ' ', "+" + n);
    PrefixItself("+", n);
    PrefixItself("-", o);
  }

  /** Finding the ranges of a header, whatever they are. */
  lemma StartsFound(line: string, x: string, rest: string)
    requires |line| >= 3 && line[3..] == x + rest
    requires IndexFrom(line[3..], " @@", 0) == Some(|x|) && TrimSpace(x) == x && |Split(x, ' ')| == 2
    ensures HunkStarts(line)
         == Some((RangeStart(TrimPrefix(Split(x, ' ')[1], "+")), RangeStart(TrimPrefix(Split(x, ' ')[0], "-"))))
  {
    assert line[3..3 + |x|] == line[3..][..|x|] == x;
  }

  lemma PastMarker(x: string, section: string)
    ensures ("@@ " + (x + " @@" + section))[3..] == x + " @@" + section
    ensures x + " @@" + section == x + (" @@" + section)
  {
  }

  lemma HeaderReads(h: Hunk)
    ensures var line := "@@ " + (RenderRanges(h) + " @@" + h.section);
      |line| >= 3 && HunkStarts(line) == Some((h.newStart, h.oldStart))
  {
    var x := RenderRanges(h);
    var line := "@@ " + (x + " @@" + h.section);
    RangesShape(h);
    SpecsRead(h);
    RangesFirst(x, h.section);
    PastMarker(x, h.section);
    StartsFound(line, x, " @@" + h.section);
  }

  /** Anything else that starts like a header moves nothing: it must have a second marker, and
      a blank in what stands between the two, at whose ends blanks do not matter. */
  lemma HeaderIgnoredExactly(r: Reader, rest: string)
    requires r.current.Some?
    ensures HunkStarts("@@ " + rest).None?
       <==> forall k: nat :: IsFirst(rest, " @@", k) ==> ' ' !in TrimSpace(rest[..k])
    ensures HunkStarts("@@ " + rest).None? ==> ReadLine(r, "@@ " + rest) == r
  {
    var line := "@@ " + rest;
    Heads(line);
    PrefixItself("@@ ", rest);
    assert line[3..] == rest;
    IndexFinds(rest, " @@", 0);
    match IndexFrom(rest, " @@", 0)
    case None =>
    case Some(end) =>
      assert IsFirst(rest, " @@", end);
      assert line[3..3 + end] == rest[..end];
      SplitOnce(TrimSpace(rest[..end]), ' ');
      assert forall k: nat :: IsFirst(rest, " @@", k) ==> k == end;
  }

  ghost predicate IsFirst(s: string, part: string, at: nat) {
    OccursAt(s, part, at) && forall k: nat :: k < at ==> !OccursAt(s, part, k)
  }

  lemma {:induction false} IndexFinds(s: string, part: string, i: nat)
    ensures match IndexFrom(s, part, i)
            case Some(at) => i <= at && OccursAt(s, part, at) && forall k: nat :: i <= k < at ==> !OccursAt(s, part, k)
            case None => forall k: nat :: i <= k ==> !OccursAt(s, part, k)
    decreases |s| - i
  {
    if !OccursAt(s, part, i) && i < |s| {
      IndexFinds(s, part, i + 1);
    }
  }

  lemma SplitOnce(s: string, c: char)
    ensures |Split(s, c)| < 2 <==> c !in s
  {
    CutJoins(s, c);
  }

  lemma HeaderLineReads(r: Reader, h: Hunk)
    requires r.current.Some?
    ensures ReadLine(r, "@@ " + (RenderRanges(h) + " @@" + h.section))
         == r.(newLine := h.newStart, oldLine := h.oldStart)
  {
    var line := "@@ " + (RenderRanges(h) + " @@" + h.section);
    Heads(line);
    PrefixItself("@@ ", RenderRanges(h) + " @@" + h.section);
    PrefixHead(line, "@@ ");
    HeaderReads(h);
  }

  function GoodAddsBy(hunks: seq<Hunk>): nat {
    if hunks == [] then 0 else GoodAddsBy(hunks[..|hunks| - 1]) + GoodAdds(hunks[|hunks| - 1].body)
  }

  function GoodDelsBy(hunks: seq<Hunk>): nat {
    if hunks == [] then 0 else GoodDelsBy(hunks[..|hunks| - 1]) + GoodDels(hunks[|hunks| - 1].body)
  }

  predicate ClearHunks(hunks: seq<Hunk>) {
    forall h :: h in hunks ==> ClearBody(h.body)
  }

  ghost predicate ReadsHunks(d: FileDiff, hunks: seq<Hunk>, e: FileDiff) {
    && |e.added| == |d.added| + GoodAddsBy(hunks) && |e.deleted| == |d.deleted| + GoodDelsBy(hunks)
    && (ClearHunks(hunks) ==> e == d.(added := d.added + AddedBy(hunks), deleted := d.deleted + DeletedBy(hunks)))
  }

  lemma HunkReads(r: Reader, h: Hunk)
    requires r.current.Some?
    ensures ReadsBody(r.(newLine := h.newStart, oldLine := h.oldStart), h.body, ReadAll(r, RenderHunk(h)))
  {
    var header := "@@ " + (RenderRanges(h) + " @@" + h.section);
    ReadAllConcat(r, [header], RenderBody(h.body));
    ReadAllOne(r, header);
    HeaderLineReads(r, h);
    BodyReads(r.(newLine := h.newStart, oldLine := h.oldStart), h.body);
  }

  lemma NoHunks(d: FileDiff)
    ensures ReadsHunks(d, [], d)
  {
    assert d.added + [] == d.added && d.deleted + [] == d.deleted;
  }

  ghost predicate HunksOk(r: Reader, hunks: seq<Hunk>, next: Reader) {
    && r.current.Some? && next.diffs == r.diffs && next.current.Some?
    && ReadsHunks(r.current.value, hunks, next.current.value)
  }

  lemma {:induction false} HunksRead(r: Reader, hunks: seq<Hunk>)
    requires r.current.Some?
    ensures HunksOk(r, hunks, ReadAll(r, RenderHunks(hunks)))
  {
    if hunks == [] {
      NoHunks(r.current.value);
      assert RenderHunks(hunks) == [];
    } else {
      var init, last := hunks[..|hunks| - 1], hunks[|hunks| - 1];
      HunksRead(r, init);
      MoreHunks(r, init, last);
      assert hunks == init + [last];
    }
  }

  lemma MoreHunks(r: Reader, init: seq<Hunk>, h: Hunk)
    requires HunksOk(r, init, ReadAll(r, RenderHunks(init)))
    ensures HunksOk(r, init + [h], ReadAll(r, RenderHunks(init + [h])))
  {
    var mid := ReadAll(r, RenderHunks(init));
    ReadAllConcat(r, RenderHunks(init), RenderHunk(h));
    assert (init + [h])[..|init|] == init;
    assert RenderHunks(init + [h]) == RenderHunks(init) + RenderHunk(h);
    HunkReads(mid, h);
    HunksStep(r.current.value, init, mid, h, ReadAll(mid, RenderHunk(h)));
  }

  lemma HunksStep(d: FileDiff, init: seq<Hunk>, mid: Reader, h: Hunk, next: Reader)
    requires mid.current.Some? && ReadsHunks(d, init, mid.current.value)
    requires ReadsBody(mid.(newLine := h.newStart, oldLine := h.oldStart), h.body, next)
    ensures ReadsHunks(d, init + [h], next.current.value)
  {
    assert (init + [h])[..|init|] == init;
    assert forall x :: x in init + [h] <==> x in init || x == h;
    if ClearHunks(init + [h]) {
      var e := mid.current.value;
      assert d.added + AddedBy(init) + AddedIn(h.body, h.newStart) == d.added + AddedBy(init + [h]);
      assert d.deleted + DeletedBy(init) + DeletedIn(h.body, h.oldStart) == d.deleted + DeletedBy(init + [h]);
    }
  }

  lemma {:induction false} HunksShort(hunks: seq<Hunk>)
    ensures |AddedBy(hunks)| >= GoodAddsBy(hunks) && |DeletedBy(hunks)| >= GoodDelsBy(hunks)
    ensures ClearHunks(hunks) <==> |AddedBy(hunks)| == GoodAddsBy(hunks) && |DeletedBy(hunks)| == GoodDelsBy(hunks)
  {
    if hunks != [] {
      var init, last := hunks[..|hunks| - 1], hunks[|hunks| - 1];
      HunksShort(init);
      CountsShort(last.body);
      assert |AddedIn(last.body, last.newStart)| == |AddedIn(last.body, 0)|;
      assert |DeletedIn(last.body, last.oldStart)| == |DeletedIn(last.body, 0)|;
      assert hunks == init + [last];
    }
  }

  // The section header

  predicate IsSide(prefix: string) {
    prefix == "a/" || prefix == "b/"
  }

  /** A name that stands at the end of a line is read back if and only if it does not end in a
      blank. */
  lemma CleanExactly(prefix: string, path: string, trail: string)
    requires IsSide(prefix) && AllSpace(trail)
    ensures CleanPath(prefix + path + trail) == TrimRight(path)
    ensures CleanPath(prefix + path + trail) == path <==> !EndsInSpace(path)
  {
    var p := prefix + path + trail;
    assert p[0] == prefix[0];
    assert TrimLeft(p) == p;
    TrimRightEnd(prefix + path, trail);
    TrimRightKeeps(prefix, path);
    PrefixItself(prefix, TrimRight(path));
    assert (prefix + TrimRight(path))[0] != NO_FILE[0];
    TrimRightShort(path);
  }

  lemma TrimRightShort(s: string)
    ensures TrimRight(s) == s <==> !EndsInSpace(s)
  {
    if EndsInSpace(s) {
      TrimRightKeeps("a", s[..|s| - 1]);
    }
  }

  lemma CleanNoFile()
    ensures CleanPath(NO_FILE) == NO_FILE
  {
    TrimRightShort(NO_FILE);
    assert TrimLeft(NO_FILE) == NO_FILE;
  }

  /** The first field of what begins with a name gives the name back if and only if there is no
      blank in it. */
  lemma FieldExactly(prefix: string, path: string, rest: string)
    requires IsSide(prefix) && (rest != [] ==> IsSpace(rest[0]))
    ensures CleanPath(FirstWord(prefix + path + rest).0) == path <==> NoSpace(path)
  {
    var word := FirstWord(path + rest).0;
    FirstAfter(prefix, path + rest);
    assert prefix + path + rest == prefix + (path + rest);
    FirstWordPlain(path + rest);
    NoSpaceAtEnd(word);
    CleanExactly(prefix, word, "");
    TrimRightShort(word);
    assert prefix + word + "" == prefix + word;
    FirstWordExactly(path, rest);
  }

  lemma NoSpaceAtEnd(s: string)
    requires NoSpace(s)
    ensures !EndsInSpace(s)
  {
    if s != [] {
      assert s[|s| - 1] in s;
    }
  }

  lemma FirstAfter(prefix: string, s: string)
    requires IsSide(prefix)
    ensures FirstWord(prefix + s) == (prefix + FirstWord(s).0, FirstWord(s).1)
  {
    var slash := [prefix[1]] + s;
    assert prefix + s == [prefix[0]] + slash && (prefix + s)[1..] == slash && slash[1..] == s;
    assert !IsSpace(prefix[0]) && !IsSpace(prefix[1]);
    assert FirstWord(slash) == ([prefix[1]] + FirstWord(s).0, FirstWord(s).1);
    assert [prefix[0]] + ([prefix[1]] + FirstWord(s).0) == prefix + FirstWord(s).0;
  }

  lemma TwoWords(rest: string)
    ensures Fields("diff --git" + " " + rest) == ["diff", "--git"] + Fields(rest)
  {
    assert "diff --git" + " " + rest == "diff" + " " + ("--git" + " " + rest) by {
      assert "diff --git" == "diff" + " " + "--git";
    }
    FieldsWord("diff", "--git" + " " + rest);
    FieldsWord("--git", rest);
  }

  /** The names of an opening line. */
  lemma OpeningFields(a: string, b: string)
    requires a != [] && b != [] && !IsSpace(a[0]) && !IsSpace(b[0])
    ensures var fields := Fields("diff --git" + " " + (a + " " + b));
      && |fields| >= 3 && fields[2] == FirstWord(a + " " + b).0
      && (NoSpace(a) ==> |fields| >= 4 && fields[3] == FirstWord(b).0)
  {
    TwoWords(a + " " + b);
    FieldsFirst(a + " " + b);
    if NoSpace(a) {
      FieldsWord(a, b);
      FieldsFirst(b);
    }
  }

  /** An opening line gives both names back if and only if neither has a blank in it. */
  lemma OpeningReads(r: Reader, f: FilePatch)
    ensures var next := ReadLine(r, OpeningLine(f));
      && next.diffs == Finished(r) && next.current.Some?
      && next.current == Some(BLANK.(oldPath := next.current.value.oldPath, newPath := next.current.value.newPath))
      && (next.current.value.oldPath == f.oldPath && next.current.value.newPath == f.newPath <==>
            NoSpace(f.oldPath) && NoSpace(f.newPath))
  {
    var a, b := "a/" + f.oldPath, "b/" + f.newPath;
    assert "diff --git" + " " == "diff --git ";
    PrefixItself("diff --git ", a + " " + b);
    OpeningFields(a, b);
    assert a + " " + b == "a/" + f.oldPath + (" " + b);
    FieldExactly("a/", f.oldPath, " " + b);
    FieldExactly("b/", f.newPath, "");
    assert b + "" == b;
    assert NoSpace(f.oldPath) ==> NoSpace(a);
  }

  /** An opening line that names nothing, or one name without a blank in it, gives no names. */
  lemma OpeningShort(r: Reader, w: string)
    requires NoSpace(w)
    ensures ReadLine(r, "diff --git" + " " + w) == Reader(Finished(r), Some(BLANK), r.newLine, r.oldLine)
  {
    assert "diff --git" + " " == "diff --git ";
    PrefixItself("diff --git ", w);
    TwoWords(w);
    if w != [] {
      assert w[0] in w && w + "" == w;
      FieldsFirst(w);
      FirstWordOf(w, "");
    }
  }

  lemma {:induction false} NotesIgnored(r: Reader, notes: seq<string>)
    requires r.current.Some? && forall n :: n in notes ==> IsNote(n)
    ensures ReadAll(r, notes) == r
  {
    if notes != [] {
      var last := notes[|notes| - 1];
      NotesIgnored(r, notes[..|notes| - 1]);
      assert IsNote(last);
      Heads(last);
    }
  }

  lemma ModeReads(r: Reader, f: FilePatch)
    requires r.current.Some? && !r.current.value.isNew && !r.current.value.isDeleted
    ensures ReadAll(r, ModeLine(f))
         == r.(current := Some(r.current.value.(isNew := f.change.Created?, isDeleted := f.change.Removed?)))
  {
    if f.change.Created? {
      var line := "new file mode " + f.mode;
      PrefixItself("new file mode ", f.mode);
      Heads(line);
      ReadAllOne(r, line);
    } else if f.change.Removed? {
      var line := "deleted file mode " + f.mode;
      PrefixItself("deleted file mode ", f.mode);
      PrefixDiffers(line, "diff --git ", 1);
      Heads(line);
      ReadAllOne(r, line);
    }
  }

  lemma NameLineReads(r: Reader, marker: string, name: string)
    requires r.current.Some? && (marker == "--- " || marker == "+++ ")
    ensures ReadAll(r, [marker + name])
         == r.(current := Some(if marker == "--- " then r.current.value.(oldPath := CleanPath(name))
                               else r.current.value.(newPath := CleanPath(name))))
  {
    Heads(marker + name);
    PrefixItself(marker, name);
    ReadAllOne(r, marker + name);
  }

  /** The names a section is read with: those of its own two lines if it has them. */
  lemma PathLinesRead(r: Reader, f: FilePatch)
    requires WellFormed(f) && r.current.Some?
    requires r.current.value.oldPath == f.oldPath && r.current.value.newPath == f.newPath <==>
               NoSpace(f.oldPath) && NoSpace(f.newPath)
    ensures var next := ReadAll(r, PathLines(f));
      && next.current.Some?
      && var d := next.current.value;
      && next == r.(current := Some(r.current.value.(oldPath := d.oldPath, newPath := d.newPath)))
      && (d.oldPath == Meant(f).oldPath && d.newPath == Meant(f).newPath <==> ClearNames(f))
  {
    if f.hunks != [] {
      CleanNoFile();
      CleanExactly("a/", f.oldPath, f.trail);
      CleanExactly("b/", f.newPath, f.trail);
      ReadAllConcat(r, ["--- " + OldName(f)], ["+++ " + NewName(f)]);
      NameLineReads(r, "--- ", OldName(f));
      NameLineReads(ReadAll(r, ["--- " + OldName(f)]), "+++ ", NewName(f));
    }
  }

  // Whole files

  /** A section is read for what it means exactly if none of its lines misleads and its names
      can be read back. */
  ghost predicate ReadExactly(f: FilePatch, d: FileDiff) {
    d == Meant(f) <==> Clear(f)
  }

  lemma FileReads(r: Reader, f: FilePatch)
    requires WellFormed(f)
    ensures var next := ReadAll(r, RenderFile(f));
      next.diffs == Finished(r) && next.current.Some? && ReadExactly(f, next.current.value)
  {
    var r1 := ReadLine(r, OpeningLine(f));
    OpeningReads(r, f);
    ReadAllOne(r, OpeningLine(f));
    ReadAllConcat(r, [OpeningLine(f)], ModeLine(f));
    var r2 := ReadAll(r1, ModeLine(f));
    ModeReads(r1, f);
    ReadAllConcat(r, [OpeningLine(f)] + ModeLine(f), f.notes);
    NotesIgnored(r2, f.notes);
    ReadAllConcat(r, [OpeningLine(f)] + ModeLine(f) + f.notes, PathLines(f));
    var r3 := ReadAll(r2, PathLines(f));
    PathLinesRead(r2, f);
    ReadAllConcat(r, [OpeningLine(f)] + ModeLine(f) + f.notes + PathLines(f), RenderHunks(f.hunks));
    HunksRead(r3, f.hunks);
    SectionExact(f, r3.current.value, ReadAll(r3, RenderHunks(f.hunks)).current.value);
  }

  lemma SectionExact(f: FilePatch, d: FileDiff, e: FileDiff)
    requires d == Meant(f).(added := [], deleted := [], oldPath := d.oldPath, newPath := d.newPath)
    requires d.oldPath == Meant(f).oldPath && d.newPath == Meant(f).newPath <==> ClearNames(f)
    requires ReadsHunks(d, f.hunks, e)
    ensures ReadExactly(f, e)
  {
    HunksShort(f.hunks);
    assert [] + AddedBy(f.hunks) == AddedBy(f.hunks) && [] + DeletedBy(f.hunks) == DeletedBy(f.hunks);
    assert ClearLines(f) <==> ClearHunks(f.hunks);
  }

  /** Before the first section anything may stand. */
  lemma {:induction false} PreambleIgnored(r: Reader, preamble: seq<string>)
    requires r.current.None? && forall l :: l in preamble ==> !HasPrefix(l, "diff --git ")
    ensures ReadAll(r, preamble) == r
  {
    if preamble != [] {
      assert preamble[|preamble| - 1] in preamble;
      PreambleIgnored(r, preamble[..|preamble| - 1]);
    }
  }

  ghost predicate AllReadExactly(files: seq<FilePatch>, read: seq<FileDiff>) {
    |read| == |files| && forall i :: 0 <= i < |files| ==> ReadExactly(files[i], read[i])
  }

  lemma OneMoreSection(lines: seq<string>, init: seq<FilePatch>, f: FilePatch)
    requires AllReadExactly(init, Finished(ReadAll(START, lines))) && WellFormed(f)
    ensures AllReadExactly(init + [f], Finished(ReadAll(START, lines + RenderFile(f))))
  {
    var r := ReadAll(START, lines);
    ReadAllConcat(START, lines, RenderFile(f));
    FileReads(r, f);
    assert Finished(ReadAll(r, RenderFile(f))) == Finished(r) + [ReadAll(r, RenderFile(f)).current.value];
  }

  /** Reading what was written gives back every section, each exactly as meant if and only if
      no deleted text of it starts with "-- ", no added text with "++ ", and its names are clear. */
  lemma {:induction false} ReadingInvertsWriting(preamble: seq<string>, files: seq<FilePatch>)
    requires forall l :: l in preamble ==> !HasPrefix(l, "diff --git ")
    requires forall f :: f in files ==> WellFormed(f)
    ensures AllReadExactly(files, Finished(ReadAll(START, preamble + RenderFiles(files))))
  {
    if files == [] {
      PreambleIgnored(START, preamble);
      assert preamble + [] == preamble;
    } else {
      var init, last := files[..|files| - 1], files[|files| - 1];
      assert files == init + [last];
      assert last in files;
      ReadingInvertsWriting(preamble, init);
      RenderedLast(preamble, files);
      OneMoreSection(preamble + RenderFiles(init), init, last);
    }
  }

  lemma RenderedLast(preamble: seq<string>, files: seq<FilePatch>)
    requires files != []
    ensures var init, last := files[..|files| - 1], files[|files| - 1];
      preamble + RenderFiles(files) == preamble + RenderFiles(init) + RenderFile(last)
  {
    Associates(preamble, RenderFiles(files[..|files| - 1]), RenderFile(files[|files| - 1]));
  }

  lemma Associates<T>(a: seq<T>, b: seq<T>, c: seq<T>)
    ensures a + (b + c) == a + b + c
  {
  }

  /** The parser's answer: the lines each clear section adds and deletes, and the added ones
      again as maximal runs. */
  ghost predicate Answers(f: FilePatch, d: FileDiff) {
    && Expand(d.ranges) == d.added && Maximal(d.ranges)
    && (d.(ranges := []) == Meant(f) <==> Clear(f))
  }

  lemma {:induction false} ParsingInvertsWriting(preamble: seq<string>, files: seq<FilePatch>, diffs: seq<FileDiff>)
    requires forall l :: l in preamble ==> !HasPrefix(l, "diff --git ")
    requires forall f :: f in files ==> WellFormed(f)
    requires AllRanged(Finished(ReadAll(START, preamble + RenderFiles(files))), diffs)
    ensures |diffs| == |files| && forall i :: 0 <= i < |files| ==> Answers(files[i], diffs[i])
  {
    ReadingInvertsWriting(preamble, files);
    RangesLater(START, preamble + RenderFiles(files));
    AnswersFrom(files, Finished(ReadAll(START, preamble + RenderFiles(files))), diffs);
  }

  lemma {:induction false} AnswersFrom(files: seq<FilePatch>, read: seq<FileDiff>, diffs: seq<FileDiff>)
    requires AllReadExactly(files, read) && AllRanged(read, diffs)
    requires forall d :: d in read ==> d.ranges == []
    ensures forall i :: 0 <= i < |files| ==> Answers(files[i], diffs[i])
  {
    forall i | 0 <= i < |files| ensures Answers(files[i], diffs[i]) {
      assert ReadExactly(files[i], read[i]) && Ranged(read[i], diffs[i]);
      assert read[i] in read;
      assert diffs[i].(ranges := []) == read[i];
    }
  }

  /** Reading alone leaves the ranges to be filled in. */
  lemma {:induction false} RangesLater(r: Reader, lines: seq<string>)
    requires forall d :: d in Finished(r) ==> d.ranges == []
    ensures forall d :: d in Finished(ReadAll(r, lines)) ==> d.ranges == []
  {
    if lines != [] {
      RangesLater(r, lines[..|lines| - 1]);
      RangesLaterLine(ReadAll(r, lines[..|lines| - 1]), lines[|lines| - 1]);
    }
  }

  lemma RangesLaterLine(r: Reader, line: string)
    requires forall d :: d in Finished(r) ==> d.ranges == []
    ensures forall d :: d in Finished(ReadLine(r, line)) ==> d.ranges == []
  {
    assert forall d :: d in r.diffs ==> d in Finished(r);
    assert r.current.Some? ==> r.current.value in Finished(r);
  }

  /** The path a caller sees in what the parser returns for a clear section is that of the file
      after the change, or before it if the section names no file after it. */
  lemma PathReported(f: FilePatch, d: FileDiff)
    requires Answers(f, d) && Clear(f)
    ensures PathOf(d) ==
            if (f.change.Removed? && f.hunks != []) || f.newPath == "" || f.newPath == NO_FILE
            then (if f.change.Created? && f.hunks != [] then NO_FILE else f.oldPath)
            else f.newPath
  {
    assert PathOf(d) == PathOf(d.(ranges := []));
  }

  lemma BlankSplits(x: string, y: string, b: string)
    requires NoSpace(x) && NoSpace(y) && y != [] && !HasPrefix(y, "a/") && !HasPrefix(y, "b/")
    ensures Opened("diff --git" + " " + ("a/" + x + " " + (y + " " + b))) == BLANK.(oldPath := x, newPath := y)
  {
    var a := "a/" + x;
    TwoWords(a + " " + (y + " " + b));
    assert NoSpace(a) by { assert forall c :: c in a ==> c in "a/" || c in x; }
    FieldsWord(a, y + " " + b);
    FieldsWord(y, b);
    CleanExactly("a/", x, "");
    NoSpaceAtEnd(x);
    NoSpaceAtEnd(y);
    assert "a/" + x + "" == a;
    assert y[0] in y;
    TrimNothing(y);
  }

  /** A blank in a name is harmless in a section with hunks and fatal in one without: an
      opening line for the file "x y" alone is read as a change from "x" to "y". */
  lemma BlankMisleads(r: Reader, x: string, y: string, h: Hunk)
    requires NoSpace(x) && NoSpace(y) && y != [] && !HasPrefix(y, "a/") && !HasPrefix(y, "b/")
    ensures var f := FilePatch(x + " " + y, x + " " + y, Modified, "", [], "", []);
      && WellFormed(f) && !Clear(f)
      && ReadLine(r, OpeningLine(f)).current == Some(BLANK.(oldPath := x, newPath := y))
    ensures ClearBody(h.body) ==> Clear(FilePatch(x + " " + y, x + " " + y, Modified, "", [], "", [h]))
  {
    var name := x + " " + y;
    var b := "b/" + name;
    assert name[|x|] == ' ' && ' ' in name;
    assert "diff --git" + " " == "diff --git ";
    PrefixItself("diff --git ", "a/" + name + " " + b);
    assert "a/" + name + " " + b == "a/" + x + " " + (y + " " + b);
    BlankSplits(x, y, b);
    NoSpaceAtEnd(y);
    assert name[|name| - 1] == y[|y| - 1];
  }
}
