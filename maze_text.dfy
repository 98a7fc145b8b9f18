/**
 * Reading a maze from its text: the part of `Maze.__init__` in test.py that
 * works on the file's contents once they have been read. Lines are split as
 * Python's `str.splitlines` splits them, the start and goal markers are
 * counted over the whole text, and the wall matrix is filled row by row.
 */
module MazeText {
  import opened Wrappers
  import opened Cells
  import opened Grids

  /** The line boundaries recognised by `str.splitlines`. */
  predicate IsLineBreak(c: char) {
    c in {'\n', '\r', '\U{0B}', '\U{0C}', '\U{1C}', '\U{1D}', '\U{1E}', '\U{85}', '\U{2028}', '\U{2029}'}
  }

  /** The index of the first line boundary at or after `i`, or `|s|` if there is none. */
  function LineEnd(s: string, i: nat): (k: nat)
    requires i <= |s|
    ensures i <= k <= |s|
    ensures k < |s| ==> IsLineBreak(s[k])
    ensures forall j :: i <= j < k ==> !IsLineBreak(s[j])
    decreases |s| - i
  {
    if i == |s| || IsLineBreak(s[i]) then i else LineEnd(s, i + 1)
  }

  /** The index just after the boundary at `k`; a "\r\n" pair is a single boundary. */
  function BreakEnd(s: string, k: nat): (e: nat)
    requires k < |s|
    ensures k < e <= |s|
  {
    if s[k] == '\r' && k + 1 < |s| && s[k + 1] == '\n' then k + 2 else k + 1
  }

  /** `str.splitlines`: the lines of `s`, without their boundaries; a final boundary opens no new line. */
  function SplitLines(s: string): (lines: seq<string>)
    ensures forall i, j :: 0 <= i < |lines| && 0 <= j < |lines[i]| ==> !IsLineBreak(lines[i][j])
    decreases |s|
  {
    if s == [] then []
    else
      var k := LineEnd(s, 0);
      if k == |s| then [s] else [s[..k]] + SplitLines(s[BreakEnd(s, k)..])
  }

  /** The text of `lines`, each ended by "\n", as a file written line by line reads back. */
  function JoinLines(lines: seq<string>): string {
    if lines == [] then [] else lines[0] + "\n" + JoinLines(lines[1..])
  }

  /** Splitting undoes joining, for lines that hold no boundary character. */
  lemma {:induction false} SplitJoin(lines: seq<string>)
    requires forall i, j :: 0 <= i < |lines| && 0 <= j < |lines[i]| ==> !IsLineBreak(lines[i][j])
    ensures SplitLines(JoinLines(lines)) == lines
  {
    if lines != [] {
      var s := JoinLines(lines);
      var n := |lines[0]|;
      assert s[n] == '\n';
      assert forall j :: 0 <= j < n ==> s[j] == lines[0][j];
      assert LineEnd(s, 0) == n;
      assert s[..n] == lines[0];
      assert s[BreakEnd(s, n)..] == JoinLines(lines[1..]);
      SplitJoin(lines[1..]);
    }
  }

  /** `str.count` for a single character. */
  function Count(s: string, c: char): (n: nat)
    ensures n <= |s|
  {
    if s == [] then 0 else (if s[0] == c then 1 else 0) + Count(s[1..], c)
  }

  /** `count` is the multiplicity of `c` in the string taken as a multiset. */
  lemma {:induction false} CountMultiset(s: string, c: char)
    ensures Count(s, c) == multiset(s)[c]
  {
    if s != [] {
      assert s == [s[0]] + s[1..];
      CountMultiset(s[1..], c);
    }
  }

  /** The number of occurrences of `c` over all the lines. */
  function CountAll(lines: seq<string>, c: char): nat {
    if lines == [] then 0 else Count(lines[0], c) + CountAll(lines[1..], c)
  }

  lemma {:induction false} CountConcat(a: string, b: string, c: char)
    ensures Count(a + b, c) == Count(a, c) + Count(b, c)
  {
    if a == [] {
      assert a + b == b;
    } else {
      assert (a + b)[1..] == a[1..] + b;
      CountConcat(a[1..], b, c);
    }
  }

  lemma {:induction false} CountAbsent(s: string, c: char)
    requires forall j :: 0 <= j < |s| ==> s[j] != c
    ensures Count(s, c) == 0
  {
    if s != [] {
      CountAbsent(s[1..], c);
    }
  }

  lemma {:induction false} CountZeroAbsent(s: string, c: char)
    requires Count(s, c) == 0
    ensures forall j :: 0 <= j < |s| ==> s[j] != c
  {
    if s != [] {
      CountZeroAbsent(s[1..], c);
    }
  }

  /** Counting a character that is not a boundary gives the same answer before and after splitting. */
  lemma {:induction false} CountSplit(s: string, c: char)
    requires !IsLineBreak(c)
    ensures Count(s, c) == CountAll(SplitLines(s), c)
    decreases |s|
  {
    if s != [] {
      var k := LineEnd(s, 0);
      if k < |s| {
        var e := BreakEnd(s, k);
        assert s == s[..k] + s[k..e] + s[e..];
        CountConcat(s[..k] + s[k..e], s[e..], c);
        CountConcat(s[..k], s[k..e], c);
        CountAbsent(s[k..e], c);
        CountSplit(s[e..], c);
        assert SplitLines(s) == [s[..k]] + SplitLines(s[e..]);
        assert SplitLines(s)[1..] == SplitLines(s[e..]);
      } else {
        assert SplitLines(s) == [s];
      }
    }
  }

  /** A character counted once in a string sits at exactly one index. */
  lemma {:induction false} CountOnce(s: string, c: char) returns (j: nat)
    requires Count(s, c) == 1
    ensures j < |s| && s[j] == c
    ensures forall j' :: 0 <= j' < |s| && s[j'] == c ==> j' == j
  {
    if s[0] == c {
      j := 0;
      CountZeroAbsent(s[1..], c);
    } else {
      var j0 := CountOnce(s[1..], c);
      j := j0 + 1;
    }
  }

  lemma {:induction false} CountAllZeroAbsent(lines: seq<string>, c: char)
    requires CountAll(lines, c) == 0
    ensures forall i, j :: 0 <= i < |lines| && 0 <= j < |lines[i]| ==> lines[i][j] != c
  {
    if lines != [] {
      CountZeroAbsent(lines[0], c);
      CountAllZeroAbsent(lines[1..], c);
    }
  }

  /** A character counted once over the lines sits at exactly one (line, column). */
  lemma {:induction false} CountAllOnce(lines: seq<string>, c: char) returns (at: Cell)
    requires CountAll(lines, c) == 1
    ensures 0 <= at.0 < |lines| && 0 <= at.1 < |lines[at.0]| && lines[at.0][at.1] == c
    ensures forall i, j :: 0 <= i < |lines| && 0 <= j < |lines[i]| && lines[i][j] == c ==> (i, j) == at
  {
    if Count(lines[0], c) == 1 {
      var j := CountOnce(lines[0], c);
      at := (0, j);
      CountAllZeroAbsent(lines[1..], c);
    } else {
      CountZeroAbsent(lines[0], c);
      var at0 := CountAllOnce(lines[1..], c);
      at := (at0.0 + 1, at0.1);
    }
  }

  /** `max(len(line) for line in lines)`; Python raises on no lines, so none is required. */
  function MaxLen(lines: seq<string>): (w: nat)
    requires lines != []
    ensures forall i :: 0 <= i < |lines| ==> |lines[i]| <= w
    ensures exists i :: 0 <= i < |lines| && |lines[i]| == w
  {
    if |lines| == 1 then |lines[0]|
    else
      var rest := MaxLen(lines[1..]);
      if |lines[0]| >= rest then |lines[0]| else rest
  }

  datatype ParseError = StartCount | GoalCount

  /** The wall flag recorded for column `j` of `line`: the row is padded OPEN past its end. */
  predicate WallAt(line: string, j: nat) {
    j < |line| && line[j] != 'A' && line[j] != 'B' && line[j] != ' '
  }

  /** `c` is the one and only position of marker `m` in `lines`. */
  ghost predicate SoleMarker(lines: seq<string>, c: Cell, m: char) {
    && 0 <= c.0 < |lines| && 0 <= c.1 < |lines[c.0]| && lines[c.0][c.1] == m
    && forall i, j :: 0 <= i < |lines| && 0 <= j < |lines[i]| && lines[i][j] == m ==> (i, j) == c
  }

  /** `g` is the grid the constructor builds from `lines`. */
  ghost predicate Describes(lines: seq<string>, g: Grid) {
    && lines != []
    && g.height == |lines|
    && g.width == MaxLen(lines)
    && Shaped(g)
    && (forall i, j :: 0 <= i < g.height && 0 <= j < g.width ==> g.walls[i][j] == WallAt(lines[i], j))
    && SoleMarker(lines, g.start, 'A')
    && SoleMarker(lines, g.goal, 'B')
  }

  /** The grid read from the text has its start and goal on distinct open cells. */
  lemma DescribedIsWellFormed(lines: seq<string>, g: Grid)
    requires Describes(lines, g)
    ensures WellFormed(g) && g.start != g.goal
  {
    assert |lines[g.start.0]| <= g.width && |lines[g.goal.0]| <= g.width;
    assert !WallAt(lines[g.start.0], g.start.1) && !WallAt(lines[g.goal.0], g.goal.1);
  }

  /** Where a marker counted once over the lines sits. */
  lemma MarkerAt(lines: seq<string>, m: char) returns (at: Cell)
    requires CountAll(lines, m) == 1
    ensures 0 <= at.0 < |lines| && 0 <= at.1 < |lines[at.0]| && lines[at.0][at.1] == m
  {
    at := CountAllOnce(lines, m);
  }

  /** A marker counted once over the lines is the sole marker wherever it is found. */
  lemma MarkerSole(lines: seq<string>, m: char, at: Cell)
    requires CountAll(lines, m) == 1
    requires 0 <= at.0 < |lines| && 0 <= at.1 < |lines[at.0]| && lines[at.0][at.1] == m
    ensures SoleMarker(lines, at, m)
  {
    var at' := CountAllOnce(lines, m);
  }

  /**
   * After line `i` is read, the recorded marker position is the sole one
   * whenever that lies on a line read so far.
   */
  lemma PassRow(lines: seq<string>, m: char, at: Cell, i: nat, before: Cell, after: Cell)
    requires CountAll(lines, m) == 1 && i < |lines|
    requires 0 <= at.0 < |lines| && 0 <= at.1 < |lines[at.0]| && lines[at.0][at.1] == m
    requires at.0 < i ==> before == at
    requires after == before || (after.0 == i && 0 <= after.1 < |lines[i]| && lines[i][after.1] == m)
    requires (exists j :: 0 <= j < |lines[i]| && lines[i][j] == m)
             ==> after.0 == i && 0 <= after.1 < |lines[i]| && lines[i][after.1] == m
    ensures at.0 < i + 1 ==> after == at
  {
    MarkerSole(lines, m, at);
    if at.0 == i {
      assert lines[i][at.1] == m;
    }
  }

  /** `walls` holds the wall flags of the first `|walls|` lines, `width` columns each. */
  ghost predicate RowsRead(lines: seq<string>, walls: seq<seq<bool>>, width: nat) {
    && |walls| <= |lines|
    && (forall i :: 0 <= i < |walls| ==> |walls[i]| == width)
    && (forall i, j :: 0 <= i < |walls| && 0 <= j < width ==> walls[i][j] == WallAt(lines[i], j))
  }

  lemma RowsReadAppend(lines: seq<string>, walls: seq<seq<bool>>, row: seq<bool>, width: nat)
    requires RowsRead(lines, walls, width) && |walls| < |lines|
    requires |row| == width && forall j :: 0 <= j < width ==> row[j] == WallAt(lines[|walls|], j)
    ensures RowsRead(lines, walls + [row], width)
  {
    var w := walls + [row];
    assert forall i :: 0 <= i < |walls| ==> w[i] == walls[i];
    assert w[|walls|] == row;
  }

  /**
   * One pass of the inner loop of `Maze.__init__` over line `i`, `width`
   * columns wide: the row of wall flags, and the start and goal moved to any
   * "A" or "B" met on the way.
   */
  method ReadRow(line: string, i: nat, width: nat, start: Cell, goal: Cell)
    returns (row: seq<bool>, start': Cell, goal': Cell)
    requires |line| <= width
    ensures |row| == width && forall j :: 0 <= j < width ==> row[j] == WallAt(line, j)
    ensures start' == start || (start'.0 == i && 0 <= start'.1 < |line| && line[start'.1] == 'A')
    ensures goal' == goal || (goal'.0 == i && 0 <= goal'.1 < |line| && line[goal'.1] == 'B')
    ensures (exists j :: 0 <= j < |line| && line[j] == 'A')
            ==> start'.0 == i && 0 <= start'.1 < |line| && line[start'.1] == 'A'
    ensures (exists j :: 0 <= j < |line| && line[j] == 'B')
            ==> goal'.0 == i && 0 <= goal'.1 < |line| && line[goal'.1] == 'B'
  {
    row, start', goal' := [], start, goal;
    var j := 0;
    while j < width
      invariant 0 <= j <= width && |row| == j
      invariant forall j' :: 0 <= j' < j ==> row[j'] == WallAt(line, j')
      invariant start' == start || (start'.0 == i && 0 <= start'.1 < |line| && line[start'.1] == 'A')
      invariant goal' == goal || (goal'.0 == i && 0 <= goal'.1 < |line| && line[goal'.1] == 'B')
      invariant (exists j' :: 0 <= j' < j && j' < |line| && line[j'] == 'A')
                ==> start'.0 == i && 0 <= start'.1 < |line| && line[start'.1] == 'A'
      invariant (exists j' :: 0 <= j' < j && j' < |line| && line[j'] == 'B')
                ==> goal'.0 == i && 0 <= goal'.1 < |line| && line[goal'.1] == 'B'
    {
      if j < |line| {
        var ch := line[j];
        if ch == 'A' {
          start' := (i, j);
          row := row + [false];
        } else if ch == 'B' {
          goal' := (i, j);
          row := row + [false];
        } else if ch == ' ' {
          row := row + [false];
        } else {
          row := row + [true];
        }
      } else {
        row := row + [false];
      }
      j := j + 1;
    }
  }

  /**
   * `Maze.__init__` on the text `contents`: fail unless "A" and "B" each occur
   * exactly once, otherwise build the `height x width` wall matrix and record
   * the start and goal cells.
   */
  method ParseMaze(contents: string) returns (r: Result<Grid, ParseError>)
    ensures r == Failure(StartCount) <==> Count(contents, 'A') != 1
    ensures r == Failure(GoalCount) <==> Count(contents, 'A') == 1 && Count(contents, 'B') != 1
    ensures r.Success? <==> Count(contents, 'A') == 1 && Count(contents, 'B') == 1
    ensures r.Success? ==> Describes(SplitLines(contents), r.value)
    ensures r.Success? ==> WellFormed(r.value) && r.value.start != r.value.goal
  {
    if Count(contents, 'A') != 1 {
      return Failure(StartCount);
    }
    if Count(contents, 'B') != 1 {
      return Failure(GoalCount);
    }
    var lines := SplitLines(contents);
    CountSplit(contents, 'A');
    CountSplit(contents, 'B');
    ghost var a := MarkerAt(lines, 'A');
    ghost var b := MarkerAt(lines, 'B');
    var height := |lines|;
    var width := MaxLen(lines);
    var walls: seq<seq<bool>> := [];
    var start: Cell := (0, 0);
    var goal: Cell := (0, 0);
    var i := 0;
    while i < height
      invariant 0 <= i <= height && |walls| == i
      invariant RowsRead(lines, walls, width)
      invariant a.0 < i ==> start == a
      invariant b.0 < i ==> goal == b
    {
      var row;
      ghost var start0, goal0 := start, goal;
      row, start, goal := ReadRow(lines[i], i, width, start, goal);
      PassRow(lines, 'A', a, i, start0, start);
      PassRow(lines, 'B', b, i, goal0, goal);
      RowsReadAppend(lines, walls, row, width);
      walls := walls + [row];
      i := i + 1;
    }
    var g := Grid(height, width, walls, start, goal);
    MarkerSole(lines, 'A', a);
    MarkerSole(lines, 'B', b);
    assert Describes(lines, g);
    DescribedIsWellFormed(lines, g);
    r := Success(g);
  }
}
