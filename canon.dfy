/** The second clean-up stage of `extract_board` (main.py lines 89-102): the
    parsed grid becomes the board string the solver reads. Every cell is
    stripped and lower-cased, the two-letter tile `qu` becomes `q`, the cells
    of a row are concatenated, and the rows are joined with single spaces, as
    in "abcd eqgh ijkl mnop". No shape is checked: an empty grid gives the
    empty board and ragged rows give segments of different lengths. */
module Canon {
  import opened Text

  /** The parsed JSON value: rows of cell strings. */
  type Grid = seq<seq<string>>

  /** The cleaned form of one cell (lines 94-96): stripped and lower-cased,
      with the digraph `qu` collapsed to `q`. */
  function CleanCell(cell: string): string {
    var t := LowerStr(Strip(cell));
    if t == "qu" then "q" else t
  }

  /** A cleaned cell is trimmed and has no capitals; it is `q` exactly when
      the stripped, lower-cased cell is `q` or the digraph `qu`, and otherwise
      it is the stripped, lower-cased cell. */
  lemma CleanCellSpec(cell: string)
    ensures Trimmed(CleanCell(cell)) && NoUpper(CleanCell(cell))
    ensures CleanCell(cell) == "q" <==> (LowerStr(Strip(cell)) == "q" || LowerStr(Strip(cell)) == "qu")
    ensures CleanCell(cell) != "q" ==> CleanCell(cell) == LowerStr(Strip(cell))
  {
    LowerStrTrimmed(Strip(cell));
  }

  /** However the digraph tile is written and padded (`Qu`, `qu`, ` QU `),
      it becomes the single letter `q`. */
  lemma {:induction false} DigraphTile(w1: string, q: char, u: char, w2: string)
    requires AllSpace(w1) && AllSpace(w2)
    requires Lower(q) == 'q' && Lower(u) == 'u'
    ensures CleanCell(w1 + [q, u] + w2) == "q"
  {
    StripOfPadded(w1, [q, u], w2);
    assert LowerStr([q, u]) == "qu";
  }

  /** A cell that is one letter, neither whitespace nor a capital, is already clean. */
  lemma CleanSingle(c: char)
    requires !IsSpace(c) && !IsUpper(c)
    ensures CleanCell([c]) == [c]
  {
    StripOfPadded([], [c], []);
    assert [] + [c] + [] == [c];
  }

  /** A one-character cell with any whitespace around it cleans to that
      character lower-cased. */
  lemma CleanPaddedSingle(w1: string, c: char, w2: string)
    requires AllSpace(w1) && AllSpace(w2) && !IsSpace(c)
    ensures CleanCell(w1 + [c] + w2) == [Lower(c)]
  {
    StripOfPadded(w1, [c], w2);
    assert LowerStr([c]) == [Lower(c)];
  }

  /** The total length of a list of strings. */
  function TotalLength(ss: seq<string>): nat {
    if ss == [] then 0 else |ss[0]| + TotalLength(ss[1..])
  }

  /** `"".join(ss)`. */
  function Concat(ss: seq<string>): (r: string)
    ensures |r| == TotalLength(ss)
  {
    if ss == [] then [] else ss[0] + Concat(ss[1..])
  }

  /** The `clean_row` list built for one row (lines 92-97). */
  function CleanRow(row: seq<string>): seq<string> {
    seq(|row|, k requires 0 <= k < |row| => CleanCell(row[k]))
  }

  /** One segment of the board: a row's cleaned cells run together (line 99). */
  function RowString(row: seq<string>): string {
    Concat(CleanRow(row))
  }

  /** The `rows` list, one segment per grid row, in row order. */
  function Rows(grid: Grid): seq<string> {
    seq(|grid|, k requires 0 <= k < |grid| => RowString(grid[k]))
  }

  /** `" ".join(rows)`: empty for no rows; otherwise the rows' lengths plus
      one separator between each two neighbours. */
  function JoinRows(rows: seq<string>): (r: string)
    ensures |rows| == 0 ==> r == []
    ensures |rows| >= 1 ==> |r| == TotalLength(rows) + |rows| - 1
  {
    if |rows| == 0 then []
    else if |rows| == 1 then rows[0]
    else rows[0] + " " + JoinRows(rows[1..])
  }

  /** The board string for a grid (lines 90-102): empty for an empty grid,
      otherwise its length is the total length of the segments plus one space
      between each two of them. */
  function Board(grid: Grid): (b: string)
    ensures |grid| == 0 ==> b == ""
    ensures |grid| >= 1 ==> |b| == TotalLength(Rows(grid)) + |grid| - 1
  {
    JoinRows(Rows(grid))
  }

  lemma CleanRowSnoc(row: seq<string>, j: nat)
    requires j < |row|
    ensures CleanRow(row[..j + 1]) == CleanRow(row[..j]) + [CleanCell(row[j])]
  {
    var longer, shorter := CleanRow(row[..j + 1]), CleanRow(row[..j]) + [CleanCell(row[j])];
    assert |longer| == |shorter|;
    forall k | 0 <= k < j + 1 ensures longer[k] == shorter[k] {
      assert longer[k] == CleanCell(row[k]) by {
        assert row[..j + 1][k] == row[k];
      }
      if k < j {
        assert shorter[k] == CleanCell(row[k]) by {
          assert row[..j][k] == row[k];
        }
      }
    }
  }

  lemma RowsSnoc(grid: Grid, i: nat)
    requires i < |grid|
    ensures Rows(grid[..i + 1]) == Rows(grid[..i]) + [RowString(grid[i])]
  {
    var longer, shorter := Rows(grid[..i + 1]), Rows(grid[..i]) + [RowString(grid[i])];
    assert |longer| == |shorter|;
    forall k | 0 <= k < i + 1 ensures longer[k] == shorter[k] {
      assert longer[k] == RowString(grid[k]) by {
        assert grid[..i + 1][k] == grid[k];
      }
      if k < i {
        assert shorter[k] == RowString(grid[k]) by {
          assert grid[..i][k] == grid[k];
        }
      }
    }
  }

  /** The loops of lines 90-102, proved to build `Board(grid)`. */
  method Canonicalise(grid: Grid) returns (board: string)
    ensures board == Board(grid)
  {
    var rows: seq<string> := [];
    for i := 0 to |grid|
      invariant rows == Rows(grid[..i])
    {
      var row := grid[i];
      var cleanRow: seq<string> := [];
      for j := 0 to |row|
        invariant cleanRow == CleanRow(row[..j])
      {
        var c := LowerStr(Strip(row[j]));
        if c == "qu" {
          c := "q";
        }
        CleanRowSnoc(row, j);
        cleanRow := cleanRow + [c];
      }
      assert row[..|row|] == row;
      RowsSnoc(grid, i);
      rows := rows + [Concat(cleanRow)];
    }
    assert grid[..|grid|] == grid;
    board := JoinRows(rows);
  }

  /** A string holds no space character. */
  predicate NoSpaceChar(s: string) {
    forall i :: 0 <= i < |s| ==> s[i] != ' '
  }

  /** Python's `s.split(" ")`: the pieces between single spaces, at least one. */
  function SplitSpaces(s: string): (parts: seq<string>)
    ensures |parts| >= 1
  {
    if s == [] then [[]]
    else
      var rest := SplitSpaces(s[1..]);
      if s[0] == ' ' then [[]] + rest else [[s[0]] + rest[0]] + rest[1..]
  }

  /** Joining a first row in front of at least one other row puts a single
      space between them. */
  lemma JoinCons(first: string, others: seq<string>)
    requires |others| >= 1
    ensures JoinRows([first] + others) == first + " " + JoinRows(others)
  {
    assert ([first] + others)[1..] == others;
  }

  /** Splitting undoes joining: joining the pieces back with single spaces
      gives the string that was split. */
  lemma {:induction false} SplitSpacesJoin(s: string)
    ensures JoinRows(SplitSpaces(s)) == s
  {
    if s != [] {
      var u := s[1..];
      var rest := SplitSpaces(u);
      assert JoinRows(rest) == u by {
        SplitSpacesJoin(u);
      }
      if s[0] == ' ' {
        assert SplitSpaces(s) == [[]] + rest by {
          assert s == [' '] + u;
          SplitSpaceCons(u);
        }
        JoinCons([], rest);
        assert s == [] + " " + u;
      } else {
        SplitLetterCons(s);
        if |rest| >= 2 {
          assert JoinRows(SplitSpaces(s)) == [s[0]] + rest[0] + " " + JoinRows(rest[1..]) by {
            JoinCons([s[0]] + rest[0], rest[1..]);
          }
          assert u == rest[0] + " " + JoinRows(rest[1..]) by {
            assert rest == [rest[0]] + rest[1..];
            JoinCons(rest[0], rest[1..]);
          }
        }
        assert s == [s[0]] + u;
      }
    }
  }

  /** No piece of a split holds a space. */
  lemma {:induction false} SplitSpacesNoSpaceChar(s: string)
    ensures forall k :: 0 <= k < |SplitSpaces(s)| ==> NoSpaceChar(SplitSpaces(s)[k])
  {
    if s != [] {
      var u := s[1..];
      var rest := SplitSpaces(u);
      var parts := SplitSpaces(s);
      SplitSpacesNoSpaceChar(u);
      forall k | 0 <= k < |parts| ensures NoSpaceChar(parts[k]) {
        if s[0] == ' ' {
          if k > 0 { assert parts[k] == rest[k - 1]; }
        } else if k > 0 {
          assert parts[k] == rest[k];
        }
      }
    }
  }

  /** A leading space starts a new, empty first piece. */
  lemma SplitSpaceCons(t: string)
    ensures SplitSpaces([' '] + t) == [[]] + SplitSpaces(t)
  {
    var s := [' '] + t;
    assert s[0] == ' ' && s[1..] == t;
  }

  /** A leading character other than a space joins the first piece. */
  lemma SplitLetterCons(s: string)
    requires s != [] && s[0] != ' '
    ensures SplitSpaces(s) == [[s[0]] + SplitSpaces(s[1..])[0]] + SplitSpaces(s[1..])[1..]
  {
  }

  /** A character other than a space in front of some text joins the first
      piece of that text's split. */
  lemma SplitLetterFront(c: char, u: string, first: string, others: seq<string>)
    requires c != ' '
    requires SplitSpaces(u) == [first] + others
    ensures SplitSpaces([c] + u) == [[c] + first] + others
  {
    var s := [c] + u;
    assert s[0] == c && s[1..] == u;
    SplitLetterCons(s);
    assert ([first] + others)[1..] == others;
  }

  /** Putting the first element of `a` back in front. */
  lemma ConsBack<T>(a: seq<T>, x: seq<T>)
    requires a != []
    ensures [a[0]] + (a[1..] + x) == a + x
  {
    assert a == [a[0]] + a[1..];
  }

  /** Splitting text that starts with a space-free string `a` extends the first
      piece of the rest by `a`. */
  lemma {:induction false} SplitAppend(a: string, t: string)
    requires NoSpaceChar(a)
    ensures SplitSpaces(a + t) == [a + SplitSpaces(t)[0]] + SplitSpaces(t)[1..]
  {
    var st := SplitSpaces(t);
    if a != [] {
      SplitAppend(a[1..], t);
      SplitLetterFront(a[0], a[1..] + t, a[1..] + st[0], st[1..]);
      ConsBack(a, t);
      ConsBack(a, st[0]);
    } else {
      assert [] + t == t;
      assert [] + st[0] == st[0];
    }
  }

  /** Joining space-free rows and splitting again gives the rows back. */
  lemma {:induction false} SplitJoin(rows: seq<string>)
    requires |rows| >= 1
    requires forall k :: 0 <= k < |rows| ==> NoSpaceChar(rows[k])
    ensures SplitSpaces(JoinRows(rows)) == rows
  {
    if |rows| == 1 {
      assert SplitSpaces(rows[0] + []) == [rows[0] + []] by {
        SplitAppend(rows[0], []);
      }
      assert rows[0] + [] == rows[0];
    } else {
      var tail := JoinRows(rows[1..]);
      assert SplitSpaces(" " + tail) == [[]] + rows[1..] by {
        SplitJoin(rows[1..]);
        SplitSpaceCons(tail);
      }
      assert SplitSpaces(rows[0] + (" " + tail)) == [rows[0] + []] + rows[1..] by {
        SplitAppend(rows[0], " " + tail);
      }
      assert JoinRows(rows) == rows[0] + (" " + tail);
      assert rows[0] + [] == rows[0];
    }
  }

  /** Row order is kept: when no segment holds a space, splitting the
      board at its spaces gives segment `k` as row `k`'s cleaned cells run
      together. */
  lemma SegmentsAreRows(grid: Grid)
    requires |grid| >= 1
    requires forall k :: 0 <= k < |grid| ==> NoSpaceChar(RowString(grid[k]))
    ensures |SplitSpaces(Board(grid))| == |grid|
    ensures forall k :: 0 <= k < |grid| ==> SplitSpaces(Board(grid))[k] == Concat(CleanRow(grid[k]))
  {
    SplitJoin(Rows(grid));
  }

  /** A string as one-character cells, the way a board segment is read back
      as a grid row. */
  function Explode(s: string): seq<string> {
    seq(|s|, i requires 0 <= i < |s| => [s[i]])
  }

  /** A board read back as a grid: its segments, each as one-character cells. */
  function Regrid(board: string): Grid {
    var segments := SplitSpaces(board);
    seq(|segments|, k requires 0 <= k < |segments| => Explode(segments[k]))
  }

  lemma {:induction false} ConcatExplode(s: string)
    ensures Concat(Explode(s)) == s
  {
    if s != [] {
      ConcatExplode(s[1..]);
      assert Explode(s)[1..] == Explode(s[1..]);
    }
  }

  /** A segment without whitespace, read back as one-character cells and
      cleaned again, is the same segment. */
  lemma RowStringOfExplode(s: string)
    requires NoWhitespace(s) && NoUpper(s)
    ensures RowString(Explode(s)) == s
  {
    forall i | 0 <= i < |s| ensures CleanCell([s[i]]) == [s[i]] {
      CleanSingle(s[i]);
    }
    assert CleanRow(Explode(s)) == Explode(s);
    ConcatExplode(s);
  }

  lemma {:induction false} ConcatNoUpper(ss: seq<string>)
    requires forall k :: 0 <= k < |ss| ==> NoUpper(ss[k])
    ensures NoUpper(Concat(ss))
  {
    if ss != [] {
      ConcatNoUpper(ss[1..]);
      var r := Concat(ss);
      forall i | 0 <= i < |r| ensures !IsUpper(r[i]) {
        if i >= |ss[0]| {
          assert r[i] == Concat(ss[1..])[i - |ss[0]|];
        }
      }
    }
  }

  /** A segment the board can be re-read from: no capitals, and no
      whitespace other than the plain space. */
  predicate Rereadable(s: string) {
    NoUpper(s) && OnlyPlainSpaces(s)
  }

  /** Joining rereadable rows with spaces gives a rereadable string. */
  lemma {:induction false} JoinRowsRereadable(rows: seq<string>)
    requires forall k :: 0 <= k < |rows| ==> Rereadable(rows[k])
    ensures Rereadable(JoinRows(rows))
  {
    if |rows| >= 2 {
      JoinRowsRereadable(rows[1..]);
      var head, tail := rows[0] + " ", JoinRows(rows[1..]);
      var r := JoinRows(rows);
      assert r == head + tail;
      forall i | 0 <= i < |r| ensures !IsUpper(r[i]) && (IsSpace(r[i]) ==> r[i] == ' ') {
        if i < |rows[0]| {
          assert r[i] == rows[0][i];
        } else if i >= |head| {
          assert r[i] == tail[i - |head|];
        }
      }
    }
  }

  /** Every piece of a split of a rereadable string is rereadable. */
  lemma {:induction false} SplitSpacesRereadable(s: string)
    requires Rereadable(s)
    ensures forall k :: 0 <= k < |SplitSpaces(s)| ==> Rereadable(SplitSpaces(s)[k])
  {
    if s != [] {
      var u := s[1..];
      var rest := SplitSpaces(u);
      var parts := SplitSpaces(s);
      SplitSpacesRereadable(u);
      forall k | 0 <= k < |parts| ensures Rereadable(parts[k]) {
        if s[0] == ' ' {
          if k > 0 { assert parts[k] == rest[k - 1]; }
        } else if k > 0 {
          assert parts[k] == rest[k];
        } else {
          var p := parts[0];
          assert p == [s[0]] + rest[0];
          forall i | 0 <= i < |p| ensures !IsUpper(p[i]) && (IsSpace(p[i]) ==> p[i] == ' ') {
            if i > 0 { assert p[i] == rest[0][i - 1]; }
          }
        }
      }
    }
  }

  /** A cleaned row has no capitals. */
  lemma RowStringNoUpper(row: seq<string>)
    ensures NoUpper(RowString(row))
  {
    forall m | 0 <= m < |row| ensures NoUpper(CleanRow(row)[m]) {
      CleanCellSpec(row[m]);
    }
    ConcatNoUpper(CleanRow(row));
  }

  /** Canonicalising is idempotent: when no cleaned row holds whitespace
      other than the plain space, reading the board back as one-character
      cells (a new row at each space) and canonicalising again gives the
      same board. */
  lemma Recanonicalise(grid: Grid)
    requires forall k :: 0 <= k < |grid| ==> OnlyPlainSpaces(RowString(grid[k]))
    ensures Board(Regrid(Board(grid))) == Board(grid)
  {
    var rows := Rows(grid);
    var b := Board(grid);
    assert Rereadable(b) by {
      forall k | 0 <= k < |rows| ensures Rereadable(rows[k]) {
        RowStringNoUpper(grid[k]);
      }
      JoinRowsRereadable(rows);
    }
    var segments := SplitSpaces(b);
    SplitSpacesRereadable(b);
    SplitSpacesNoSpaceChar(b);
    forall k | 0 <= k < |segments| ensures RowString(Explode(segments[k])) == segments[k] {
      RowStringOfExplode(segments[k]);
    }
    assert Rows(Regrid(b)) == segments;
    SplitSpacesJoin(b);
  }

  /** A cell that is already canonical: one letter, neither whitespace nor a capital. */
  predicate CanonicalCell(cell: string) {
    |cell| == 1 && !IsSpace(cell[0]) && !IsUpper(cell[0])
  }

  /** A row of canonical cells is its own segment, one character per cell. */
  lemma CanonicalRow(row: seq<string>)
    requires forall j :: 0 <= j < |row| ==> CanonicalCell(row[j])
    ensures |RowString(row)| == |row|
    ensures Explode(RowString(row)) == row
  {
    forall j | 0 <= j < |row| ensures CleanCell(row[j]) == row[j] {
      assert row[j] == [row[j][0]];
      CleanSingle(row[j][0]);
    }
    assert CleanRow(row) == row;
    CanonicalExplode(row);
  }

  lemma {:induction false} CanonicalExplode(row: seq<string>)
    requires forall j :: 0 <= j < |row| ==> CanonicalCell(row[j])
    ensures Explode(Concat(row)) == row
  {
    if row != [] {
      CanonicalExplode(row[1..]);
      var r := Concat(row);
      assert r == [row[0][0]] + Concat(row[1..]);
      assert Explode(r) == [[r[0]]] + Explode(Concat(row[1..]));
      assert row[0] == [row[0][0]];
    }
  }

  /** A non-empty grid of canonical cells survives the round trip through
      its board: reading the board back gives the grid itself. */
  lemma CanonicalRoundTrip(grid: Grid)
    requires |grid| >= 1
    requires forall r :: 0 <= r < |grid| ==> forall j :: 0 <= j < |grid[r]| ==> CanonicalCell(grid[r][j])
    ensures Regrid(Board(grid)) == grid
  {
    var rows := Rows(grid);
    forall k | 0 <= k < |grid| ensures Explode(rows[k]) == grid[k] && NoSpaceChar(rows[k]) {
      CanonicalRow(grid[k]);
      forall i | 0 <= i < |rows[k]| ensures rows[k][i] != ' ' {
        assert Explode(rows[k])[i] == [rows[k][i]] == grid[k][i];
      }
    }
    SplitJoin(rows);
  }

  /** Canonicalising a grid of canonical cells, reading the board back as
      one-character cells and canonicalising again gives the same board,
      for the empty grid too. */
  lemma CanonicalIdempotent(grid: Grid)
    requires forall r :: 0 <= r < |grid| ==> forall j :: 0 <= j < |grid[r]| ==> CanonicalCell(grid[r][j])
    ensures Board(Regrid(Board(grid))) == Board(grid)
  {
    if |grid| >= 1 {
      CanonicalRoundTrip(grid);
    } else {
      Recanonicalise(grid);
    }
  }
}
