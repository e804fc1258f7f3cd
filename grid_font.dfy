/** Text rendered as 0/1 cell matrices for the menu grids.  Every glyph is
    12 rows tall; characters of a word are separated by one blank column,
    words on a line by three blank columns, and lines by a chosen number of
    blank rows.  The glyph table is a parameter: a map from each known
    character to its 12-row matrix. */
module GridFont {

  /** A numeric matrix given by its rows and its column count, so that a
      matrix with no rows still has a width, as an array shape does. */
  datatype Matrix = Matrix(rows: seq<seq<int>>, width: nat)

  predicate Shaped(m: Matrix) {
    forall i :: 0 <= i < |m.rows| ==> |m.rows[i]| == m.width
  }

  function Height(m: Matrix): nat {
    |m.rows|
  }

  const GlyphHeight: nat := 12
  /** Blank columns between two words on a line. */
  const WordGap: nat := 3

  type Font = map<char, Matrix>

  predicate FontOk(font: Font) {
    forall ch :: ch in font ==> Shaped(font[ch]) && Height(font[ch]) == GlyphHeight
  }

  function Zeros(h: nat, w: nat): (m: Matrix)
    ensures Shaped(m) && Height(m) == h && m.width == w
    ensures forall i, j :: 0 <= i < h && 0 <= j < w ==> m.rows[i][j] == 0
  {
    Matrix(seq(h, _ => seq(w, _ => 0)), w)
  }

  /** Two matrices side by side (appending along the column axis). */
  function Beside(a: Matrix, b: Matrix): (m: Matrix)
    requires Height(a) == Height(b)
    ensures Height(m) == Height(a) && m.width == a.width + b.width
    ensures forall i :: 0 <= i < Height(a) ==> m.rows[i] == a.rows[i] + b.rows[i]
    ensures Shaped(a) && Shaped(b) ==> Shaped(m)
  {
    Matrix(seq(|a.rows|, i requires 0 <= i < |a.rows| => a.rows[i] + b.rows[i]), a.width + b.width)
  }

  /** One matrix above the other (appending along the row axis). */
  function Above(a: Matrix, b: Matrix): (m: Matrix)
    requires a.width == b.width
    ensures Height(m) == Height(a) + Height(b) && m.width == a.width
    ensures Shaped(a) && Shaped(b) ==> Shaped(m)
  {
    Matrix(a.rows + b.rows, a.width)
  }

  // ---------------------------------------------------------------------
  // One word

  /** The matrix that starts a word: the first character's glyph, or one
      blank column for a character without a glyph. */
  function Lead(font: Font, ch: char): Matrix {
    if ch in font then font[ch] else Zeros(GlyphHeight, 1)
  }

  /** A further character: a blank column, then its glyph if it has one. */
  function AppendChar(font: Font, m: Matrix, ch: char): Matrix
    requires FontOk(font) && Height(m) == GlyphHeight
  {
    if ch in font then Beside(Beside(m, Zeros(GlyphHeight, 1)), font[ch])
    else Beside(m, Zeros(GlyphHeight, 1))
  }

  /** The matrix of a non-empty string. */
  function Render(font: Font, s: string): (m: Matrix)
    requires FontOk(font) && |s| > 0
    ensures Shaped(m) && Height(m) == GlyphHeight
    decreases |s|
  {
    if |s| == 1 then Lead(font, s[0])
    else AppendChar(font, Render(font, s[..|s| - 1]), s[|s| - 1])
  }

  /** Renders a string character by character. */
  method AsGrid(font: Font, s: string) returns (m: Matrix)
    requires FontOk(font) && |s| > 0
    ensures m == Render(font, s)
  {
    m := Lead(font, s[0]);
    for k := 1 to |s|
      invariant m == Render(font, s[..k])
    {
      assert s[..k + 1][..k] == s[..k];
      if s[k] in font {
        m := Beside(m, Zeros(GlyphHeight, 1));
        m := Beside(m, font[s[k]]);
      } else {
        m := Beside(m, Zeros(GlyphHeight, 1));
      }
    }
    assert s[..|s|] == s;
  }

  /** Columns taken by the first character. */
  function LeadWidth(font: Font, ch: char): nat {
    if ch in font then font[ch].width else 1
  }

  /** Columns added by a later character: its separating column and its glyph. */
  function Advance(font: Font, ch: char): nat {
    if ch in font then 1 + font[ch].width else 1
  }

  function AdvanceSum(font: Font, t: string): nat
    decreases |t|
  {
    if t == [] then 0 else AdvanceSum(font, t[..|t| - 1]) + Advance(font, t[|t| - 1])
  }

  /** Column at which the k-th character begins. */
  function CharStart(font: Font, s: string, k: nat): nat
    requires k < |s|
  {
    if k == 0 then 0 else LeadWidth(font, s[0]) + AdvanceSum(font, s[1..k]) + 1
  }

  /** A rendered string is 12 rows tall and as wide as its first glyph (one
      column if it has none) plus, per later character, one column and its
      glyph's width. */
  lemma {:induction false} RenderWidth(font: Font, s: string)
    requires FontOk(font) && |s| > 0
    ensures Render(font, s).width == LeadWidth(font, s[0]) + AdvanceSum(font, s[1..])
    decreases |s|
  {
    if |s| > 1 {
      var init := s[..|s| - 1];
      RenderWidth(font, init);
      assert init[1..] == s[1..][..|s| - 2];
      assert s[1..][|s| - 2] == s[|s| - 1];
    }
  }

  /** Each row of the rendering of a prefix is a prefix of the row of the
      rendering of the whole string. */
  lemma {:induction false} RenderPrefix(font: Font, s: string, j: nat)
    requires FontOk(font) && 1 <= j <= |s|
    ensures forall i :: 0 <= i < GlyphHeight ==> Render(font, s[..j]).rows[i] <= Render(font, s).rows[i]
    decreases |s|
  {
    if j < |s| {
      var init := s[..|s| - 1];
      RenderPrefix(font, init, j);
      assert init[..j] == s[..j];
      var r := Render(font, s);
      var ri := Render(font, init);
      forall i | 0 <= i < GlyphHeight
        ensures ri.rows[i] <= r.rows[i]
      {
      }
    } else {
      assert s[..j] == s;
    }
  }

  /** One more character: the old rows, one zero column, then the new
      character's glyph rows if it has a glyph. */
  lemma RenderStep(font: Font, s: string, k: nat)
    requires FontOk(font) && 0 < k < |s|
    ensures forall i :: 0 <= i < GlyphHeight ==>
      Render(font, s[..k + 1]).rows[i] ==
        Render(font, s[..k]).rows[i] + [0] + (if s[k] in font then font[s[k]].rows[i] else [])
  {
    assert s[..k + 1][..k] == s[..k];
    assert s[..k + 1][k] == s[k];
  }

  /** A row that extends q by a zero and then t, read inside any longer row. */
  lemma GapThenTail(q: seq<int>, t: seq<int>, m: seq<int>)
    requires q + [0] + t <= m
    ensures |q| + 1 + |t| <= |m| && m[|q|] == 0 && m[|q| + 1 .. |q| + 1 + |t|] == t
  {
    var p := q + [0] + t;
    assert m[..|p|] == p;
    assert p[|q|] == 0;
    assert p[|q| + 1 ..] == t;
  }

  /** A character after the first starts one column after the rendering
      of the characters before it. */
  lemma LaterStart(font: Font, s: string, k: nat)
    requires FontOk(font) && 0 < k < |s|
    ensures CharStart(font, s, k) == Render(font, s[..k]).width + 1
  {
    RenderWidth(font, s[..k]);
    assert s[..k][1..] == s[1..k];
    assert s[..k][0] == s[0];
  }

  /** Row i around a character after the first: a zero column right
      before CharStart, and the glyph (if any) unchanged from there. */
  lemma PlacementOfLaterRow(font: Font, s: string, k: nat, i: nat)
    requires FontOk(font) && 0 < k < |s| && i < GlyphHeight
    ensures var row := Render(font, s).rows[i]; var o := CharStart(font, s, k);
      1 <= o <= |row| && row[o - 1] == 0 &&
      (s[k] in font ==> o + font[s[k]].width <= |row| && row[o .. o + font[s[k]].width] == font[s[k]].rows[i])
  {
    var q := Render(font, s[..k]);
    LaterStart(font, s, k);
    RenderStep(font, s, k);
    RenderPrefix(font, s, k + 1);
    var tail := if s[k] in font then font[s[k]].rows[i] else [];
    GapThenTail(q.rows[i], tail, Render(font, s).rows[i]);
  }

  /** A character after the first starts at CharStart, right after a
      zero column, and its glyph (if any) sits there unchanged. */
  lemma PlacementOfLater(font: Font, s: string, k: nat)
    requires FontOk(font) && 0 < k < |s|
    ensures var m := Render(font, s); var o := CharStart(font, s, k);
      1 <= o <= m.width &&
      (forall i :: 0 <= i < GlyphHeight ==> m.rows[i][o - 1] == 0) &&
      (s[k] in font ==>
        o + font[s[k]].width <= m.width &&
        forall i :: 0 <= i < GlyphHeight ==> m.rows[i][o .. o + font[s[k]].width] == font[s[k]].rows[i])
  {
    forall i: nat | i < GlyphHeight {
      PlacementOfLaterRow(font, s, k, i);
    }
    PlacementOfLaterRow(font, s, k, 0);
  }

  /** Where each character lands: a known character's glyph sits unchanged
      at CharStart, every character after the first is preceded by one
      all-zero column, and an unknown first character is a zero column. */
  lemma RenderPlacement(font: Font, s: string, k: nat)
    requires FontOk(font) && k < |s|
    ensures var m := Render(font, s); var o := CharStart(font, s, k);
      (s[k] in font ==>
        o + font[s[k]].width <= m.width &&
        forall i :: 0 <= i < GlyphHeight ==> m.rows[i][o .. o + font[s[k]].width] == font[s[k]].rows[i]) &&
      (k > 0 ==> 1 <= o <= m.width && forall i :: 0 <= i < GlyphHeight ==> m.rows[i][o - 1] == 0) &&
      (k == 0 && s[0] !in font ==> forall i :: 0 <= i < GlyphHeight ==> m.rows[i][0] == 0)
  {
    if k > 0 {
      PlacementOfLater(font, s, k);
    } else {
      var m := Render(font, s);
      var p := Render(font, s[..1]);
      RenderPrefix(font, s, 1);
      assert p == Lead(font, s[0]);
      forall i | 0 <= i < GlyphHeight
        ensures s[0] in font ==> font[s[0]].width <= m.width
        ensures s[0] in font ==> m.rows[i][..font[s[0]].width] == font[s[0]].rows[i]
        ensures s[0] !in font ==> m.rows[i][0] == 0
      {
        assert p.rows[i] <= m.rows[i];
        assert |p.rows[i]| == p.width;
      }
    }
  }

  // ---------------------------------------------------------------------
  // Padding to a minimum size

  function Max(a: int, b: int): int { if a >= b then a else b }

  /** e zero columns on each side of m. */
  function Sides(m: Matrix, e: nat): (x: Matrix)
    requires Shaped(m)
    ensures Shaped(x) && Height(x) == Height(m) && x.width == m.width + 2 * e
  {
    if e != 0 then Beside(Beside(Zeros(Height(m), e), m), Zeros(Height(m), e)) else m
  }

  /** e + 1 zero rows above x and e - 1 below it (none when e is 0). */
  function Ends(x: Matrix, e: nat): (y: Matrix)
    requires Shaped(x)
    ensures Shaped(y) && y.width == x.width && Height(y) == Height(x) + 2 * e
  {
    if e != 0 then Above(Above(Zeros(e + 1, x.width), x), Zeros(e - 1, x.width)) else x
  }

  /** Pads m with zero columns up to at least sx: equally many on both
      sides, and an odd one on the left. */
  function PadColumns(m: Matrix, sx: int): (x: Matrix)
    requires Shaped(m)
    ensures Shaped(x) && Height(x) == Height(m) && x.width == Max(m.width, sx)
  {
    if sx > m.width then
      var xe := (sx - m.width) / 2;
      if xe * 2 != sx - m.width then Beside(Zeros(Height(m), 1), Sides(m, xe)) else Sides(m, xe)
    else m
  }

  /** Pads x with zero rows up to at least sy: one more on top than at the
      bottom, and an odd one at the bottom. */
  function PadRows(x: Matrix, sy: int): (y: Matrix)
    requires Shaped(x)
    ensures Shaped(y) && y.width == x.width && Height(y) == Max(Height(x), sy)
  {
    if sy > Height(x) then
      var ye := (sy - Height(x)) / 2;
      if ye * 2 != sy - Height(x) then Above(Ends(x, ye), Zeros(1, x.width)) else Ends(x, ye)
    else x
  }

  /** Pads m with zero columns and rows up to at least sx columns and sy
      rows, leaving it at least as large as it was. */
  function ExpandGrid(m: Matrix, sx: int, sy: int): (e: Matrix)
    requires Shaped(m)
    ensures Shaped(e)
    ensures e.width == Max(m.width, sx) && Height(e) == Max(Height(m), sy)
  {
    PadRows(PadColumns(m, sx), sy)
  }

  /** Zero columns added on the left: the right side gets half the missing
      columns rounded down, the left side the rest. */
  function LeftPad(w: nat, sx: int): nat {
    if sx > w then (sx - w) - (sx - w) / 2 else 0
  }

  /** Zero rows added on top. */
  function TopPad(h: nat, sy: int): nat {
    if sy > h && (sy - h) / 2 >= 1 then (sy - h) / 2 + 1 else 0
  }

  lemma SidesAt(m: Matrix, e: nat, i: nat, j: nat)
    requires Shaped(m) && i < Height(m) && j < m.width + 2 * e
    ensures Sides(m, e).rows[i][j] == if e <= j < e + m.width then m.rows[i][j - e] else 0
  {
    if e != 0 {
      var z := Zeros(Height(m), e);
      assert Sides(m, e).rows[i] == z.rows[i] + m.rows[i] + z.rows[i];
    }
  }

  lemma EndsAt(x: Matrix, e: nat, i: nat, j: nat)
    requires Shaped(x) && i < Height(x) + 2 * e && j < x.width
    ensures Ends(x, e).rows[i][j] == if (if e != 0 then e + 1 else 0) <= i < (if e != 0 then e + 1 else 0) + Height(x)
                                     then x.rows[i - (if e != 0 then e + 1 else 0)][j] else 0
  {
    if e != 0 {
      var top, bottom := Zeros(e + 1, x.width), Zeros(e - 1, x.width);
      assert Ends(x, e).rows == top.rows + x.rows + bottom.rows;
    }
  }

  /** Column padding keeps m as one block LeftPad columns from the left
      and puts zeros everywhere else. */
  lemma PadColumnsAt(m: Matrix, sx: int, i: nat, j: nat)
    requires Shaped(m) && i < Height(m) && j < Max(m.width, sx)
    ensures var l := LeftPad(m.width, sx);
      PadColumns(m, sx).rows[i][j] == if l <= j < l + m.width then m.rows[i][j - l] else 0
  {
    if sx > m.width {
      var xe := (sx - m.width) / 2;
      if xe * 2 != sx - m.width {
        assert LeftPad(m.width, sx) == xe + 1;
        OddColumnsAt(m, sx, xe, i, j);
      } else {
        assert PadColumns(m, sx) == Sides(m, xe);
        assert LeftPad(m.width, sx) == xe;
        SidesAt(m, xe, i, j);
      }
    }
  }

  /** An odd number 2xe + 1 of missing columns: xe + 1 go on the left. */
  lemma OddColumnsAt(m: Matrix, sx: int, xe: nat, i: nat, j: nat)
    requires Shaped(m) && i < Height(m) && sx - m.width == 2 * xe + 1 && j < sx
    ensures PadColumns(m, sx).rows[i][j] == if xe + 1 <= j < xe + 1 + m.width then m.rows[i][j - (xe + 1)] else 0
  {
    var s := Sides(m, xe);
    assert PadColumns(m, sx) == Beside(Zeros(Height(m), 1), s);
    OneZeroColumnAt(s, i, j);
    if j > 0 {
      SidesAt(m, xe, i, j - 1);
    }
  }

  /** A zero column in front shifts every cell one to the right. */
  lemma OneZeroColumnAt(s: Matrix, i: nat, j: nat)
    requires Shaped(s) && i < Height(s) && j < s.width + 1
    ensures Beside(Zeros(Height(s), 1), s).rows[i][j] == if j == 0 then 0 else s.rows[i][j - 1]
  {
    assert Beside(Zeros(Height(s), 1), s).rows[i] == [0] + s.rows[i];
  }

  /** Row padding keeps x as one block TopPad rows from the top and puts
      zeros everywhere else. */
  lemma PadRowsAt(x: Matrix, sy: int, i: nat, j: nat)
    requires Shaped(x) && i < Max(Height(x), sy) && j < x.width
    ensures var t := TopPad(Height(x), sy);
      PadRows(x, sy).rows[i][j] == if t <= i < t + Height(x) then x.rows[i - t][j] else 0
  {
    if sy > Height(x) {
      var ye := (sy - Height(x)) / 2;
      assert TopPad(Height(x), sy) == if ye != 0 then ye + 1 else 0;
      if ye * 2 != sy - Height(x) {
        OddRowsAt(x, sy, ye, i, j);
      } else {
        assert PadRows(x, sy) == Ends(x, ye);
        EndsAt(x, ye, i, j);
      }
    }
  }

  /** An odd number 2ye + 1 of missing rows: the odd one goes at the bottom. */
  lemma OddRowsAt(x: Matrix, sy: int, ye: nat, i: nat, j: nat)
    requires Shaped(x) && sy - Height(x) == 2 * ye + 1 && i < sy && j < x.width
    ensures var t := if ye != 0 then ye + 1 else 0;
      PadRows(x, sy).rows[i][j] == if t <= i < t + Height(x) then x.rows[i - t][j] else 0
  {
    var y := Ends(x, ye);
    var p := Above(y, Zeros(1, x.width));
    assert PadRows(x, sy) == p;
    assert p.rows == y.rows + Zeros(1, x.width).rows;
    if i < Height(y) {
      assert p.rows[i] == y.rows[i];
      EndsAt(x, ye, i, j);
    } else {
      assert p.rows[i][j] == 0;
    }
  }

  /** One cell of ExpandGrid: the input's cell when inside the block at
      (TopPad, LeftPad), and 0 otherwise. */
  lemma ExpandGridAt(m: Matrix, sx: int, sy: int, i: nat, j: nat)
    requires Shaped(m) && i < Max(Height(m), sy) && j < Max(m.width, sx)
    ensures var l := LeftPad(m.width, sx); var t := TopPad(Height(m), sy);
      ExpandGrid(m, sx, sy).rows[i][j] ==
        if t <= i < t + Height(m) && l <= j < l + m.width then m.rows[i - t][j - l] else 0
  {
    var x := PadColumns(m, sx);
    var t := TopPad(Height(m), sy);
    PadRowsAt(x, sy, i, j);
    if t <= i < t + Height(m) {
      PadColumnsAt(m, sx, i - t, j);
    }
  }

  /** The input appears unchanged as one block, LeftPad columns from the
      left and TopPad rows from the top, and every added cell is 0. */
  lemma ExpandGridPlacement(m: Matrix, sx: int, sy: int)
    requires Shaped(m)
    ensures var e := ExpandGrid(m, sx, sy); var l := LeftPad(m.width, sx); var t := TopPad(Height(m), sy);
      forall i, j :: 0 <= i < Height(e) && 0 <= j < e.width ==>
        e.rows[i][j] == if t <= i < t + Height(m) && l <= j < l + m.width then m.rows[i - t][j - l] else 0
  {
    forall i: nat, j: nat | i < Max(Height(m), sy) && j < Max(m.width, sx) {
      ExpandGridAt(m, sx, sy, i, j);
    }
  }

  // ---------------------------------------------------------------------
  // Words and lines

  /** The characters str.split() separates words on. */
  predicate IsSpace(ch: char) {
    ch in {' ', '\t', '\n', '\r', '\U{B}', '\U{C}', '\U{1C}', '\U{1D}', '\U{1E}', '\U{1F}',
           '\U{85}', '\U{A0}', '\U{1680}', '\U{2028}', '\U{2029}', '\U{202F}', '\U{205F}', '\U{3000}'}
    || ('\U{2000}' <= ch <= '\U{200A}')
  }

  /** Length of the run of non-space characters that starts s. */
  function WordLength(s: string): (n: nat)
    requires s != [] && !IsSpace(s[0])
    ensures 1 <= n <= |s|
    ensures forall i :: 0 <= i < n ==> !IsSpace(s[i])
    ensures n < |s| ==> IsSpace(s[n])
    decreases |s|
  {
    if |s| == 1 || IsSpace(s[1]) then 1 else 1 + WordLength(s[1..])
  }

  predicate WordsOk(words: seq<string>) {
    forall k :: 0 <= k < |words| ==> |words[k]| > 0
  }

  /** The words of s: its maximal runs of non-space characters, in order. */
  function SplitWords(s: string): (ws: seq<string>)
    ensures WordsOk(ws)
    ensures forall k, i :: 0 <= k < |ws| && 0 <= i < |ws[k]| ==> !IsSpace(ws[k][i])
    decreases |s|
  {
    if s == [] then []
    else if IsSpace(s[0]) then SplitWords(s[1..])
    else
      var n := WordLength(s);
      [s[..n]] + SplitWords(s[n..])
  }

  /** The words one after another, with nothing between them. */
  function Concat(ws: seq<string>): string {
    if ws == [] then [] else ws[0] + Concat(ws[1..])
  }

  /** The characters of s that are not whitespace, in order. */
  function NonSpace(s: string): string {
    if s == [] then [] else (if IsSpace(s[0]) then [] else [s[0]]) + NonSpace(s[1..])
  }

  /** The words with one space between each two. */
  function JoinWords(ws: seq<string>): string {
    if |ws| == 0 then [] else if |ws| == 1 then ws[0] else ws[0] + [' '] + JoinWords(ws[1..])
  }

  /** A leading run of non-space characters passes through NonSpace whole. */
  lemma {:induction false} NonSpaceOfRun(s: string, n: nat)
    requires n <= |s| && forall i :: 0 <= i < n ==> !IsSpace(s[i])
    ensures NonSpace(s) == s[..n] + NonSpace(s[n..])
    decreases n
  {
    if n > 0 {
      NonSpaceOfRun(s[1..], n - 1);
      assert s[1..][..n - 1] == s[1..n];
      assert s[1..][n - 1..] == s[n..];
      assert [s[0]] + s[1..n] == s[..n];
    } else {
      assert s[0..] == s;
    }
  }

  /** Splitting loses no letter and adds none: the words, put back to back,
      are the non-space characters of s in order. */
  lemma {:induction false} SplitWordsKeepsLetters(s: string)
    ensures Concat(SplitWords(s)) == NonSpace(s)
    decreases |s|
  {
    if s != [] {
      if IsSpace(s[0]) {
        SplitWordsKeepsLetters(s[1..]);
      } else {
        var n := WordLength(s);
        var ws := [s[..n]] + SplitWords(s[n..]);
        SplitWordsKeepsLetters(s[n..]);
        assert ws[0] == s[..n] && ws[1..] == SplitWords(s[n..]);
        NonSpaceOfRun(s, n);
      }
    }
  }

  /** A space-free word followed by nothing or by a space is one whole word. */
  lemma {:induction false} WordLengthOfWord(w: string, t: string)
    requires |w| > 0 && (forall i :: 0 <= i < |w| ==> !IsSpace(w[i]))
    requires t == [] || IsSpace(t[0])
    ensures WordLength(w + t) == |w|
    decreases |w|
  {
    var s := w + t;
    if |w| > 1 {
      assert s[1..] == w[1..] + t;
      WordLengthOfWord(w[1..], t);
    }
  }

  /** Splitting undoes joining: words free of whitespace, joined by single
      spaces, split back into the same words. */
  lemma {:induction false} SplitWordsOfJoin(ws: seq<string>)
    requires WordsOk(ws) && forall k, i :: 0 <= k < |ws| && 0 <= i < |ws[k]| ==> !IsSpace(ws[k][i])
    ensures SplitWords(JoinWords(ws)) == ws
    decreases |ws|
  {
    if |ws| == 1 {
      var w := ws[0];
      assert w + [] == w;
      WordLengthOfWord(w, []);
      assert w[..|w|] == w && w[|w|..] == [];
    } else if |ws| > 1 {
      var w, rest := ws[0], JoinWords(ws[1..]);
      var t := [' '] + rest;
      var s := w + t;
      assert JoinWords(ws) == s;
      WordLengthOfWord(w, t);
      assert s[..|w|] == w && s[|w|..] == t;
      assert t[1..] == rest;
      SplitWordsOfJoin(ws[1..]);
      assert SplitWords(t) == ws[1..];
      assert ws == [w] + ws[1..];
    }
  }

  /** The inner loop of a line: appends words[n..] to row while the row is
      short of width and the next word fits, each word followed by a gap
      while there is room for one.  Yields the row and the next word. */
  function FillLine(font: Font, words: seq<string>, width: nat, n: nat, row: Matrix): (res: (Matrix, nat))
    requires FontOk(font) && WordsOk(words) && n <= |words|
    requires Shaped(row) && Height(row) == GlyphHeight && row.width <= width
    ensures Shaped(res.0) && Height(res.0) == GlyphHeight && res.0.width <= width
    ensures n <= res.1 <= |words|
    decreases |words| - n
  {
    if !(row.width < width && n < |words|) then (row, n)
    else
      var word := Render(font, words[n]);
      if row.width + word.width > width then (row, n)
      else
        var grown := Beside(row, word);
        if grown.width > width - WordGap then (grown, n + 1)
        else FillLine(font, words, width, n + 1, Beside(grown, Zeros(GlyphHeight, WordGap)))
  }

  /** A line that begins with words[n], which fits: the word, a gap if
      there is room, then as many further words as FillLine adds. */
  function StartLine(font: Font, words: seq<string>, width: nat, n: nat): (res: (Matrix, nat))
    requires FontOk(font) && WordsOk(words) && n < |words|
    requires Render(font, words[n]).width <= width
    ensures Shaped(res.0) && Height(res.0) == GlyphHeight && res.0.width <= width
    ensures n < res.1 <= |words|
  {
    var first := Render(font, words[n]);
    var row := if !(first.width > width - WordGap) then Beside(first, Zeros(GlyphHeight, WordGap)) else first;
    FillLine(font, words, width, n + 1, row)
  }

  /** The words words[a..n] joined by one gap each: the intended look of a
      line. */
  function Spaced(font: Font, words: seq<string>, a: nat, n: nat): (m: Matrix)
    requires FontOk(font) && WordsOk(words) && a < n <= |words|
    ensures Shaped(m) && Height(m) == GlyphHeight
    decreases n - a
  {
    if n == a + 1 then Render(font, words[a])
    else Beside(Beside(Spaced(font, words, a, n - 1), Zeros(GlyphHeight, WordGap)), Render(font, words[n - 1]))
  }

  /** A row holding words[a..m] joined by gaps, perhaps with a trailing
      gap, that stops only when the row is full, the words run out, or
      words[m] does not fit after a gap. */
  predicate GreedyRun(font: Font, words: seq<string>, width: nat, a: nat, res: (Matrix, nat))
    requires FontOk(font) && WordsOk(words) && a < res.1 <= |words|
  {
    var (r, m) := res;
    (r == Spaced(font, words, a, m) || r == Beside(Spaced(font, words, a, m), Zeros(GlyphHeight, WordGap))) &&
    (m < |words| ==>
      Spaced(font, words, a, m).width + WordGap >= width ||
      Spaced(font, words, a, m).width + WordGap + Render(font, words[m]).width > width)
  }

  /** A row that holds words[a..n] with their gaps and a trailing gap grows
      into a greedy run of words[a..m]. */
  lemma {:induction false} FillLineWords(font: Font, words: seq<string>, width: nat, a: nat, n: nat, row: Matrix)
    requires FontOk(font) && WordsOk(words) && a < n <= |words|
    requires row == Beside(Spaced(font, words, a, n), Zeros(GlyphHeight, WordGap)) && row.width <= width
    ensures GreedyRun(font, words, width, a, FillLine(font, words, width, n, row))
    decreases |words| - n
  {
    if row.width < width && n < |words| && row.width + Render(font, words[n]).width <= width - WordGap {
      var next := FillLineGoesOn(font, words, width, a, n, row);
      FillLineWords(font, words, width, a, n + 1, next);
    } else {
      FillLineStops(font, words, width, a, n, row);
    }
  }

  /** Where FillLine adds a word and a gap, it goes on from the row holding
      words[a..n + 1] and a trailing gap. */
  lemma FillLineGoesOn(font: Font, words: seq<string>, width: nat, a: nat, n: nat, row: Matrix) returns (next: Matrix)
    requires FontOk(font) && WordsOk(words) && a < n < |words|
    requires row == Beside(Spaced(font, words, a, n), Zeros(GlyphHeight, WordGap)) && row.width < width
    requires row.width + Render(font, words[n]).width <= width - WordGap
    ensures next == Beside(Spaced(font, words, a, n + 1), Zeros(GlyphHeight, WordGap)) && next.width <= width
    ensures Shaped(next) && Height(next) == GlyphHeight
    ensures FillLine(font, words, width, n, row) == FillLine(font, words, width, n + 1, next)
  {
    var grown := Beside(row, Render(font, words[n]));
    next := Beside(grown, Zeros(GlyphHeight, WordGap));
  }

  /** Where FillLine adds no further gap it returns a greedy run at once. */
  lemma FillLineStops(font: Font, words: seq<string>, width: nat, a: nat, n: nat, row: Matrix)
    requires FontOk(font) && WordsOk(words) && a < n <= |words|
    requires row == Beside(Spaced(font, words, a, n), Zeros(GlyphHeight, WordGap)) && row.width <= width
    requires !(row.width < width && n < |words| && row.width + Render(font, words[n]).width <= width - WordGap)
    ensures GreedyRun(font, words, width, a, FillLine(font, words, width, n, row))
  {
    if row.width < width && n < |words| && row.width + Render(font, words[n]).width <= width {
      var grown := Beside(row, Render(font, words[n]));
      assert grown == Spaced(font, words, a, n + 1) && grown.width + WordGap > width;
      assert FillLine(font, words, width, n, row) == (grown, n + 1);
      assert GreedyRun(font, words, width, a, (grown, n + 1));
    } else {
      assert FillLine(font, words, width, n, row) == (row, n);
      assert GreedyRun(font, words, width, a, (row, n));
    }
  }

  /** The row a line is built from, before it is finished.  When its first
      word leaves room for a gap, the row is the line's words joined by
      gaps, perhaps with a trailing gap, and the line stops only when the
      next word cannot follow after a gap.  When it does not, the row is
      that word alone or that word immediately followed, with no gap, by
      the next word if it fits in the columns left. */
  lemma LineWords(font: Font, words: seq<string>, width: nat, n: nat)
    requires FontOk(font) && WordsOk(words) && n < |words|
    requires Render(font, words[n]).width <= width
    ensures var (r, m) := StartLine(font, words, width, n);
      if Render(font, words[n]).width <= width - WordGap then
        (r == Spaced(font, words, n, m) || r == Beside(Spaced(font, words, n, m), Zeros(GlyphHeight, WordGap))) &&
        (m < |words| ==>
          Spaced(font, words, n, m).width + WordGap >= width ||
          Spaced(font, words, n, m).width + WordGap + Render(font, words[m]).width > width)
      else
        (m == n + 1 && r == Render(font, words[n])) ||
        (m == n + 2 && r == Beside(Render(font, words[n]), Render(font, words[n + 1])))
    ensures Render(font, words[n]).width > width - WordGap ==>
      (StartLine(font, words, width, n).1 == n + 2 <==>
        n + 1 < |words| && Render(font, words[n]).width < width &&
        Render(font, words[n]).width + Render(font, words[n + 1]).width <= width)
  {
    var first := Render(font, words[n]);
    if first.width <= width - WordGap {
      FillLineWords(font, words, width, n, n + 1, Beside(first, Zeros(GlyphHeight, WordGap)));
    }
  }

  datatype ArrangeError =
    | BlankCenteredLine  // a centered line with no nonzero column: indexing its last column fails
    | NoRowsToDrop       // no line was laid out, yet a spacing row is to be removed

  datatype Result<T> = Ok(value: T) | Err(error: ArrangeError)

  function ColumnSum(rows: seq<seq<int>>, j: nat): int
    requires forall i :: 0 <= i < |rows| ==> j < |rows[i]|
  {
    if rows == [] then 0 else ColumnSum(rows[..|rows| - 1], j) + rows[|rows| - 1][j]
  }

  function DropLastColumn(m: Matrix): (d: Matrix)
    requires Shaped(m) && m.width > 0
    ensures Shaped(d) && Height(d) == Height(m) && d.width == m.width - 1
    ensures forall i :: 0 <= i < Height(m) ==> d.rows[i] == m.rows[i][..m.width - 1]
  {
    Matrix(seq(|m.rows|, i requires 0 <= i < |m.rows| => m.rows[i][..m.width - 1]), m.width - 1)
  }

  /** Two blocks of rows that agree in column j have the same sum there. */
  lemma {:induction false} ColumnSumAgrees(a: seq<seq<int>>, b: seq<seq<int>>, j: nat)
    requires |a| == |b|
    requires forall i :: 0 <= i < |a| ==> j < |a[i]| && j < |b[i]| && a[i][j] == b[i][j]
    ensures ColumnSum(a, j) == ColumnSum(b, j)
    decreases |a|
  {
    if a != [] {
      ColumnSumAgrees(a[..|a| - 1], b[..|b| - 1], j);
    }
  }

  /** Dropping the last column leaves the sums of the other columns alone. */
  lemma DropLastColumnSums(m: Matrix)
    requires Shaped(m) && m.width > 0
    ensures forall j :: 0 <= j < m.width - 1 ==> ColumnSum(DropLastColumn(m).rows, j) == ColumnSum(m.rows, j)
  {
    var d := DropLastColumn(m);
    forall j | 0 <= j < m.width - 1
      ensures ColumnSum(d.rows, j) == ColumnSum(m.rows, j)
    {
      ColumnSumAgrees(d.rows, m.rows, j);
    }
  }

  /** Removes trailing columns whose sum is 0; fails when no column is left
      to inspect.  What remains is a leading block of columns of m whose
      last column has a nonzero sum. */
  function TrimRight(m: Matrix): (r: Result<Matrix>)
    requires Shaped(m)
    ensures r.Ok? ==>
      Shaped(r.value) && Height(r.value) == Height(m) && 0 < r.value.width <= m.width &&
      ColumnSum(r.value.rows, r.value.width - 1) != 0 &&
      forall i :: 0 <= i < Height(m) ==> r.value.rows[i] == m.rows[i][..r.value.width]
    ensures r.Err? ==> r.error == BlankCenteredLine
    decreases m.width
  {
    if m.width == 0 then Err(BlankCenteredLine)
    else if ColumnSum(m.rows, m.width - 1) == 0 then TrimRight(DropLastColumn(m))
    else Ok(m)
  }

  /** Do the columns lo..hi of m all sum to 0? */
  predicate BlankColumns(m: Matrix, lo: nat, hi: nat)
    requires Shaped(m) && hi <= m.width
  {
    forall j :: lo <= j < hi ==> ColumnSum(m.rows, j) == 0
  }

  /** Every column TrimRight removes sums to 0, and it fails exactly when
      every column of m sums to 0. */
  lemma {:induction false} TrimRightRemovesBlanks(m: Matrix)
    requires Shaped(m)
    ensures TrimRight(m).Ok? ==> BlankColumns(m, TrimRight(m).value.width, m.width)
    ensures TrimRight(m).Err? <==> BlankColumns(m, 0, m.width)
    decreases m.width
  {
    if m.width > 0 {
      if ColumnSum(m.rows, m.width - 1) == 0 {
        var d := DropLastColumn(m);
        DropLastColumnSums(m);
        TrimRightRemovesBlanks(d);
        assert TrimRight(m) == TrimRight(d);
        assert BlankColumns(m, 0, m.width) <==> BlankColumns(d, 0, d.width);
        if TrimRight(d).Ok? {
          assert BlankColumns(m, TrimRight(d).value.width, m.width);
        }
      } else {
        assert !BlankColumns(m, 0, m.width);
      }
    }
  }

  /** The end of a line: padded with zero columns on the right to width,
      or, when centered, trimmed on the right and padded on both sides to
      width.  Every finished line is exactly width columns. */
  function FinishLine(row: Matrix, width: nat, centered: bool): (r: Result<Matrix>)
    requires Shaped(row) && Height(row) == GlyphHeight && row.width <= width
    ensures r.Ok? ==> Shaped(r.value) && Height(r.value) == GlyphHeight && r.value.width == width
    ensures r.Err? ==> r.error == BlankCenteredLine
    ensures r.Err? <==> centered && BlankColumns(row, 0, row.width)
  {
    TrimRightRemovesBlanks(row);
    if !centered && row.width < width then Ok(Beside(row, Zeros(GlyphHeight, width - row.width)))
    else if centered then
      match TrimRight(row)
      case Err(e) => Err(e)
      case Ok(t) =>
        Ok(ExpandGrid(t, width, 0))
    else Ok(row)
  }

  /** A line that is not centered is the row followed by zero columns. */
  lemma FinishLinePads(row: Matrix, width: nat)
    requires Shaped(row) && Height(row) == GlyphHeight && row.width <= width
    ensures var r := FinishLine(row, width, false);
      r.Ok? &&
      forall i, j :: 0 <= i < GlyphHeight && 0 <= j < width ==>
        r.value.rows[i][j] == if j < row.width then row.rows[i][j] else 0
  {
  }

  /** A laid-out line: the words words[first..next] and its cells. */
  datatype Line = Line(first: nat, next: nat, pixels: Matrix)

  /** The lines from words[n] on, up to the end of the words or the first
      word too wide for a line on its own. */
  function LayOut(font: Font, words: seq<string>, width: nat, centered: bool, n: nat): (r: Result<seq<Line>>)
    requires FontOk(font) && WordsOk(words) && n <= |words|
    ensures r.Ok? ==> |r.value| <= |words| - n
    ensures r.Err? ==> centered && r.error == BlankCenteredLine
    decreases |words| - n
  {
    if n == |words| then Ok([])
    else if Render(font, words[n]).width > width then Ok([])
    else
      var (row, next) := StartLine(font, words, width, n);
      match FinishLine(row, width, centered)
      case Err(e) => Err(e)
      case Ok(line) =>
        match LayOut(font, words, width, centered, next)
        case Err(e) => Err(e)
        case Ok(rest) => Ok([Line(n, next, line)] + rest)
  }

  predicate LineShaped(l: Line, width: nat) {
    Shaped(l.pixels) && Height(l.pixels) == GlyphHeight && l.pixels.width == width
  }

  /** Rows of the lines with spacing blank rows after each. */
  function Emitted(ls: seq<Line>, spacing: nat, width: nat): seq<seq<int>>
    requires forall k :: 0 <= k < |ls| ==> LineShaped(ls[k], width)
  {
    if ls == [] then []
    else Emitted(ls[..|ls| - 1], spacing, width) + ls[|ls| - 1].pixels.rows + Zeros(spacing, width).rows
  }

  /** Rows of the lines with spacing blank rows between each two. */
  function Stacked(ls: seq<Line>, spacing: nat, width: nat): seq<seq<int>>
    requires forall k :: 0 <= k < |ls| ==> LineShaped(ls[k], width)
  {
    if |ls| == 0 then []
    else if |ls| == 1 then ls[0].pixels.rows
    else Stacked(ls[..|ls| - 1], spacing, width) + Zeros(spacing, width).rows + ls[|ls| - 1].pixels.rows
  }

  /** The result of arranging: the lines stacked with spacing blank rows
      between them, or the failure the layout runs into. */
  function ArrangeSpec(font: Font, words: seq<string>, width: nat, spacing: nat, centered: bool): (r: Result<Matrix>)
    requires FontOk(font) && WordsOk(words)
    ensures r.Ok? ==> r.value.width == width
    ensures r.Err? && r.error == BlankCenteredLine ==> centered
    ensures r.Err? && r.error == NoRowsToDrop ==> spacing > 0 && LayOut(font, words, width, centered, 0) == Ok([])
  {
    match LayOut(font, words, width, centered, 0)
    case Err(e) => Err(e)
    case Ok(ls) =>
      LayOutLines(font, words, width, centered, 0);
      if |ls| == 0 && spacing > 0 then Err(NoRowsToDrop)
      else Ok(Matrix(Stacked(ls, spacing, width), width))
  }

  /** The laid-out lines are consecutive runs of words in input order,
      starting at word n, each exactly width columns and 12 rows. */
  lemma {:induction false} LayOutLines(font: Font, words: seq<string>, width: nat, centered: bool, n: nat)
    requires FontOk(font) && WordsOk(words) && n <= |words|
    ensures var r := LayOut(font, words, width, centered, n);
      r.Ok? ==>
        var ls := r.value;
        (forall k :: 0 <= k < |ls| ==> LineShaped(ls[k], width) && ls[k].first < ls[k].next <= |words|) &&
        (|ls| > 0 ==> ls[0].first == n) &&
        (forall k :: 0 <= k < |ls| - 1 ==> ls[k].next == ls[k + 1].first)
    decreases |words| - n
  {
    if n < |words| && Render(font, words[n]).width <= width {
      var l := LayOutFirst(font, words, width, centered, n);
      LayOutLines(font, words, width, centered, l.next);
      var rest := LayOut(font, words, width, centered, l.next);
      if rest.Ok? {
        assert Then([l], rest).value == [l] + rest.value;
      }
    }
  }

  /** When no remaining word is wider than a line, the lines cover every
      word: there is at least one line unless no word remains, and the last
      line ends at the last word. */
  lemma {:induction false} LayOutCovers(font: Font, words: seq<string>, width: nat, centered: bool, n: nat)
    requires FontOk(font) && WordsOk(words) && n <= |words|
    requires forall k :: n <= k < |words| ==> Render(font, words[k]).width <= width
    ensures var r := LayOut(font, words, width, centered, n);
      r.Ok? ==> if n == |words| then r.value == [] else |r.value| > 0 && r.value[|r.value| - 1].next == |words|
    decreases |words| - n
  {
    if n < |words| {
      var l := LayOutFirst(font, words, width, centered, n);
      if LayOut(font, words, width, centered, n).Ok? {
        LayOutCovers(font, words, width, centered, l.next);
        ThenLast(l, LayOut(font, words, width, centered, l.next));
      }
    }
  }

  /** A successful layout from word n is its first line, which starts at n
      and ends after it, followed by the layout from where that line ends. */
  lemma LayOutFirst(font: Font, words: seq<string>, width: nat, centered: bool, n: nat) returns (l: Line)
    requires FontOk(font) && WordsOk(words) && n < |words| && Render(font, words[n]).width <= width
    ensures l.first == n && n < l.next <= |words|
    ensures LayOut(font, words, width, centered, n).Ok? ==> LineShaped(l, width)
    ensures LayOut(font, words, width, centered, n).Ok? ==>
      LayOut(font, words, width, centered, n) == Then([l], LayOut(font, words, width, centered, l.next))
  {
    var res := StartLine(font, words, width, n);
    var f := FinishLine(res.0, width, centered);
    LayOutStep(font, words, width, centered, n, res.0, res.1, f);
    l := Line(n, res.1, if f.Ok? then f.value else res.0);
  }

  /** Putting a line in front of a successful layout gives a non-empty one
      that ends where the layout ends, or at that line when it is empty. */
  lemma ThenLast(l: Line, r: Result<seq<Line>>)
    ensures Then([l], r).Ok? <==> r.Ok?
    ensures r.Ok? ==> |Then([l], r).value| > 0
    ensures r.Ok? ==> Then([l], r).value[|Then([l], r).value| - 1] == if r.value == [] then l else r.value[|r.value| - 1]
  {
  }

  lemma {:induction false} EmittedIsStackedThenGap(ls: seq<Line>, spacing: nat, width: nat)
    requires |ls| > 0 && forall k :: 0 <= k < |ls| ==> LineShaped(ls[k], width)
    ensures Emitted(ls, spacing, width) == Stacked(ls, spacing, width) + Zeros(spacing, width).rows
    decreases |ls|
  {
    if |ls| > 1 {
      EmittedIsStackedThenGap(ls[..|ls| - 1], spacing, width);
    } else {
      assert ls[..0] == [];
    }
  }

  /** k lines of 12 rows with spacing rows between make 12k + spacing(k-1) rows. */
  lemma {:induction false} StackedHeight(ls: seq<Line>, spacing: nat, width: nat)
    requires |ls| > 0 && forall k :: 0 <= k < |ls| ==> LineShaped(ls[k], width)
    ensures |Stacked(ls, spacing, width)| == GlyphHeight * |ls| + spacing * (|ls| - 1)
    ensures forall i :: 0 <= i < |Stacked(ls, spacing, width)| ==> |Stacked(ls, spacing, width)[i]| == width
    decreases |ls|
  {
    if |ls| > 1 {
      StackedHeight(ls[..|ls| - 1], spacing, width);
    }
  }

  /** Every arranged text is exactly width columns; with k >= 1 lines it
      has 12k + spacing(k-1) rows, and with none it fails unless spacing is 0. */
  lemma ArrangeShape(font: Font, words: seq<string>, width: nat, spacing: nat, centered: bool)
    requires FontOk(font) && WordsOk(words)
    ensures var r := ArrangeSpec(font, words, width, spacing, centered);
      var l := LayOut(font, words, width, centered, 0);
      r.Ok? ==>
        l.Ok? && Shaped(r.value) && r.value.width == width &&
        (|l.value| == 0 ==> spacing == 0 && Height(r.value) == 0) &&
        (|l.value| > 0 ==> Height(r.value) == GlyphHeight * |l.value| + spacing * (|l.value| - 1))
  {
    var l := LayOut(font, words, width, centered, 0);
    LayOutLines(font, words, width, centered, 0);
    if l.Ok? && |l.value| > 0 {
      StackedHeight(l.value, spacing, width);
    }
  }

  // ---------------------------------------------------------------------
  // The imperative layout

  /** Appends the result of laying out the remaining words to lines already
      emitted. */
  function Then(done: seq<Line>, r: Result<seq<Line>>): Result<seq<Line>> {
    match r
    case Err(e) => Err(e)
    case Ok(ls) => Ok(done + ls)
  }

  lemma ThenNothing(r: Result<seq<Line>>)
    ensures Then([], r) == r
  {
    if r.Ok? {
      assert [] + r.value == r.value;
    }
  }

  /** The words of one line, starting at words[n], which fits: the first
      word and a gap if there is room, then word after word while the row
      is short of width and the next word fits. */
  method BuildLine(font: Font, words: seq<string>, width: nat, n: nat) returns (row: Matrix, next: nat)
    requires FontOk(font) && WordsOk(words) && n < |words|
    requires Render(font, words[n]).width <= width
    ensures (row, next) == StartLine(font, words, width, n)
  {
    row := AsGrid(font, words[n]);
    next := n + 1;
    if !(row.width > width - WordGap) {
      row := Beside(row, Zeros(GlyphHeight, WordGap));
    }
    ghost var row0, n0 := row, next;
    while row.width < width && next < |words|
      invariant n0 <= next <= |words|
      invariant Shaped(row) && Height(row) == GlyphHeight && row.width <= width
      invariant FillLine(font, words, width, n0, row0) == FillLine(font, words, width, next, row)
      decreases |words| - next
    {
      var word := AsGrid(font, words[next]);
      if row.width + word.width > width {
        break;
      }
      row := Beside(row, word);
      next := next + 1;
      if row.width > width - WordGap {
        break;
      }
      row := Beside(row, Zeros(GlyphHeight, WordGap));
    }
  }

  /** Finishes a line: pads it on the right, or trims its zero-sum columns
      off the right one by one and centers what is left. */
  method Finish(row: Matrix, width: nat, centered: bool) returns (r: Result<Matrix>)
    requires Shaped(row) && Height(row) == GlyphHeight && row.width <= width
    ensures r == FinishLine(row, width, centered)
  {
    if !centered && row.width < width {
      return Ok(Beside(row, Zeros(GlyphHeight, width - row.width)));
    } else if centered {
      var t := row;
      while t.width == 0 || ColumnSum(t.rows, t.width - 1) == 0
        invariant Shaped(t) && Height(t) == GlyphHeight && t.width <= row.width
        invariant TrimRight(row) == TrimRight(t)
        decreases t.width
      {
        if t.width == 0 {
          return Err(BlankCenteredLine);
        }
        t := DropLastColumn(t);
      }
      return Ok(ExpandGrid(t, width, 0));
    }
    return Ok(row);
  }

  /** Removes the first row of the body and then, one at a time, spacing
      rows from its end. */
  method DropSpacing(ghost done: seq<Line>, rows: seq<seq<int>>, width: nat, spacing: nat) returns (r: Result<Matrix>)
    requires forall k :: 0 <= k < |done| ==> LineShaped(done[k], width)
    requires |rows| > 0 && rows[1..] == Emitted(done, spacing, width)
    ensures r == if |done| == 0 && spacing > 0 then Err(NoRowsToDrop)
                 else Ok(Matrix(Stacked(done, spacing, width), width))
  {
    var body := rows[1..];
    if |done| > 0 {
      EmittedIsStackedThenGap(done, spacing, width);
    }
    for k := 0 to spacing
      invariant |done| == 0 ==> k == 0 && body == []
      invariant |done| > 0 ==> |rows[1..]| >= k && body == rows[1..][..|rows[1..]| - k]
    {
      if |body| == 0 {
        return Err(NoRowsToDrop);
      }
      body := body[..|body| - 1];
    }
    if |done| > 0 {
      assert body == Stacked(done, spacing, width);
    }
    return Ok(Matrix(body, width));
  }

  /** Laying out from a word that fits is finishing its line and laying
      out the rest. */
  lemma LayOutStep(font: Font, words: seq<string>, width: nat, centered: bool, n: nat,
                   row: Matrix, next: nat, line: Result<Matrix>)
    requires FontOk(font) && WordsOk(words) && n < |words| && Render(font, words[n]).width <= width
    requires (row, next) == StartLine(font, words, width, n)
    requires line == FinishLine(row, width, centered)
    ensures line.Err? ==> LayOut(font, words, width, centered, n) == Err(line.error)
    ensures line.Ok? ==>
      LayOut(font, words, width, centered, n) == Then([Line(n, next, line.value)], LayOut(font, words, width, centered, next))
  {
  }

  /** Appending a finished line and its spacing rows to the body extends
      the emitted rows by that line. */
  lemma EmittedSnoc(body: Matrix, done: seq<Line>, l: Line, spacing: nat, width: nat)
    requires forall k :: 0 <= k < |done| ==> LineShaped(done[k], width)
    requires LineShaped(l, width)
    requires body.width == width && body.rows == Zeros(1, width).rows + Emitted(done, spacing, width)
    ensures forall k :: 0 <= k < |done + [l]| ==> LineShaped((done + [l])[k], width)
    ensures Above(Above(body, l.pixels), Zeros(spacing, width)).rows ==
      Zeros(1, width).rows + Emitted(done + [l], spacing, width)
  {
    var ext := done + [l];
    assert ext[..|done|] == done;
    assert ext[|ext| - 1] == l;
    var e := Emitted(done, spacing, width);
    var z1, z := Zeros(1, width).rows, Zeros(spacing, width).rows;
    assert Emitted(ext, spacing, width) == e + l.pixels.rows + z;
    assert Above(Above(body, l.pixels), Zeros(spacing, width)).rows == (z1 + e) + l.pixels.rows + z;
    assert (z1 + e) + l.pixels.rows + z == z1 + (e + l.pixels.rows + z);
  }

  lemma ThenSnoc(done: seq<Line>, l: Line, r: Result<seq<Line>>)
    ensures Then(done + [l], r) == Then(done, Then([l], r))
  {
    if r.Ok? {
      assert (done + [l]) + r.value == done + ([l] + r.value);
    }
  }

  /** Splits text into words and lays them out in lines of width columns,
      with spacing blank rows between lines, building the body line by
      line and finally removing the initial row and the trailing spacing
      rows. */
  method Arrange(font: Font, text: string, width: nat, spacing: nat, centered: bool) returns (r: Result<Matrix>)
    requires FontOk(font)
    ensures r == ArrangeSpec(font, SplitWords(text), width, spacing, centered)
  {
    var words := SplitWords(text);
    var body := Zeros(1, width);
    ghost var done: seq<Line> := [];
    ghost var whole := LayOut(font, words, width, centered, 0);
    var n := 0;
    ThenNothing(whole);
    while n < |words|
      invariant n <= |words|
      invariant forall k :: 0 <= k < |done| ==> LineShaped(done[k], width)
      invariant body.width == width && body.rows == Zeros(1, width).rows + Emitted(done, spacing, width)
      invariant Then(done, LayOut(font, words, width, centered, n)) == whole
      decreases |words| - n
    {
      var first := AsGrid(font, words[n]);
      if first.width > width {
        break;
      }
      ghost var start := n;
      var row;
      row, n := BuildLine(font, words, width, n);
      var line := Finish(row, width, centered);
      if line.Err? {
        LayOutStep(font, words, width, centered, start, row, n, line);
        assert whole == Err(line.error);
        return Err(line.error);
      }
      EmittedSnoc(body, done, Line(start, n, line.value), spacing, width);
      body := Above(body, line.value);
      body := Above(body, Zeros(spacing, width));
      LayOutStep(font, words, width, centered, start, row, n, line);
      ThenSnoc(done, Line(start, n, line.value), LayOut(font, words, width, centered, n));
      done := done + [Line(start, n, line.value)];
    }
    assert LayOut(font, words, width, centered, n) == Ok([]);
    assert done + [] == done;
    assert whole == Ok(done);
    r := DropSpacing(done, body.rows, width, spacing);
  }
}
