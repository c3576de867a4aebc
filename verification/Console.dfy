/** The frame-buffer console of the boot stage: pixels, and the grid of
    characters that they show. */
module Console {
  import opened Bits

  const FG: nat := 0xffffff
  const BG: nat := 0
  const DEFAULT_TAB_SIZE: nat := 8

  /** What a place of the grid shows. */
  datatype Cell = Blank | Glyph(ch: nat)

  /** Screen and font sizes as boot_init_font derives them, and the glyph bytes.
      `serial` tells whether the serial port takes part, which decides who sees a carriage return. */
  datatype Geometry = Geometry(width: nat, height: nat, fontBytes: nat, fontHeight: nat,
                               glyphNr: nat, glyphBytes: nat, table: seq<bv8>, serial: bool)
  {
    function FontWidth(): nat { fontBytes * 8 }
    function MaxX(): nat requires fontBytes > 0 { DivBack(width, FontWidth()); width / FontWidth() }
    function MaxY(): nat requires fontHeight > 0 { DivBack(height, fontHeight); height / fontHeight }
    function Area(): nat { width * height }

    /** There is room for a character, the glyphs are there, and 32-bit indices do not wrap. */
    predicate Ok()
      ensures Ok() ==> (fontBytes > 0 && fontHeight > 0 && glyphNr > 0 && MaxX() > 0 && MaxY() > 0)
      ensures Ok() ==> (width > 0 && MaxX() * FontWidth() <= width && MaxY() * fontHeight <= height)
    {
      && fontBytes > 0 && fontHeight > 0 && MaxX() > 0 && MaxY() > 0 && Area() < 0x1_0000_0000
      && glyphNr > 0 && fontBytes * fontHeight <= glyphBytes && glyphNr * glyphBytes <= |table| < 0x1_0000_0000
      && (DivBack(width, FontWidth()); DivBack(height, fontHeight); true)
    }
  }

  /** As many whole characters as fit the screen each way. */
  lemma GridSize(g: Geometry)
    requires g.Ok()
    ensures g.MaxX() * (8 * g.fontBytes) <= g.width < (g.MaxX() + 1) * (8 * g.fontBytes)
    ensures g.MaxY() * g.fontHeight <= g.height < (g.MaxY() + 1) * g.fontHeight
  {
    DivBack(g.width, 8 * g.fontBytes);
    DivBack(g.height, g.fontHeight);
    assert (g.MaxX() + 1) * (8 * g.fontBytes) == g.MaxX() * (8 * g.fontBytes) + 8 * g.fontBytes;
    assert (g.MaxY() + 1) * g.fontHeight == g.MaxY() * g.fontHeight + g.fontHeight;
  }

  // ------------------------------------------------------------- the grid

  datatype Screen = Screen(rows: seq<seq<Cell>>, x: nat, y: nat)

  predicate Shaped(g: Geometry, s: Screen)
    requires g.Ok()
  {
    && |s.rows| == g.MaxY() && (forall y :: 0 <= y < |s.rows| ==> |s.rows[y]| == g.MaxX())
    && s.x < g.MaxX() && s.y < g.MaxY()
  }

  function BlankRow(n: nat): (r: seq<Cell>)
    ensures |r| == n && forall i :: 0 <= i < n ==> r[i] == Blank
  {
    seq(n, i => Blank)
  }

  /** To the start of the next line; at the bottom the lines move up. */
  function NewLine(g: Geometry, rows: seq<seq<Cell>>, y: nat): Screen
    requires g.Ok() && |rows| == g.MaxY()
  {
    if y + 1 >= g.MaxY() then Screen(rows[1..] + [BlankRow(g.MaxX())], 0, y) else Screen(rows, 0, y + 1)
  }

  /** A character at the cursor; past the last column the line is wrapped. */
  function Put(g: Geometry, s: Screen, ch: nat): Screen
    requires g.Ok() && Shaped(g, s)
  {
    var rows := s.rows[s.y := s.rows[s.y][s.x := Glyph(ch)]];
    if s.x + 1 >= g.MaxX() then NewLine(g, rows, s.y) else Screen(rows, s.x + 1, s.y)
  }

  function PutMany(g: Geometry, s: Screen, ch: nat, n: nat): Screen
    requires g.Ok() && Shaped(g, s)
    decreases n
  {
    if n == 0 then s else
    PutShaped(g, s, ch);
    PutMany(g, Put(g, s, ch), ch, n - 1)
  }

  /** Spaces of one tab: eight, or up to the last column. */
  function TabWidth(g: Geometry, x: nat): nat
    requires g.Ok() && x < g.MaxX()
  {
    var left := g.MaxX() - x - 1;
    if left > DEFAULT_TAB_SIZE then DEFAULT_TAB_SIZE else left
  }

  /** boot_putchar on the grid. With a serial port a carriage return goes there and not to the screen. */
  function Feed(g: Geometry, s: Screen, ch: nat): Screen
    requires g.Ok() && Shaped(g, s)
  {
    if ch == '\r' as nat then (if g.serial then s else s.(x := 0))
    else if ch == 8 then s.(x := if s.x > 0 then s.x - 1 else s.x)
    else if ch == '\t' as nat then PutMany(g, s, ' ' as nat, TabWidth(g, s.x))
    else if ch == '\n' as nat then NewLine(g, s.rows, s.y)
    else Put(g, s, ch)
  }

  function FeedAll(g: Geometry, s: Screen, text: seq<nat>): Screen
    requires g.Ok() && Shaped(g, s)
    decreases |text|
  {
    if text == [] then s else
    FeedShaped(g, s, text[0]);
    FeedAll(g, Feed(g, s, text[0]), text[1..])
  }

  lemma PutShaped(g: Geometry, s: Screen, ch: nat)
    requires g.Ok() && Shaped(g, s)
    ensures Shaped(g, Put(g, s, ch))
  {
  }

  lemma {:induction false} PutManyShaped(g: Geometry, s: Screen, ch: nat, n: nat)
    requires g.Ok() && Shaped(g, s)
    ensures Shaped(g, PutMany(g, s, ch, n))
    decreases n
  {
    if n > 0 {
      PutShaped(g, s, ch);
      PutManyShaped(g, Put(g, s, ch), ch, n - 1);
    }
  }

  /** The cursor never leaves the grid. */
  lemma FeedShaped(g: Geometry, s: Screen, ch: nat)
    requires g.Ok() && Shaped(g, s)
    ensures Shaped(g, Feed(g, s, ch))
  {
    PutManyShaped(g, s, ' ' as nat, TabWidth(g, s.x));
  }

  /** Characters that fit the line appear at the cursor and nowhere else. */
  lemma {:induction false} PutManyInLine(g: Geometry, s: Screen, ch: nat, n: nat)
    requires g.Ok() && Shaped(g, s) && s.x + n < g.MaxX()
    ensures var t := PutMany(g, s, ch, n);
            && t.x == s.x + n && t.y == s.y && |t.rows| == |s.rows| && |t.rows[s.y]| == |s.rows[s.y]|
            && (forall y :: 0 <= y < |s.rows| && y != s.y ==> t.rows[y] == s.rows[y])
            && (forall x :: 0 <= x < |s.rows[s.y]| ==> t.rows[s.y][x] == if s.x <= x < s.x + n then Glyph(ch) else s.rows[s.y][x])
    decreases n
  {
    if n > 0 {
      PutShaped(g, s, ch);
      PutManyInLine(g, Put(g, s, ch), ch, n - 1);
    }
  }

  /** A tab (character 9) goes eight places on, or to the last column, over spaces (character 32), and changes
      nothing else: it never wraps and never scrolls. */
  lemma TabStays(g: Geometry, s: Screen)
    requires g.Ok() && Shaped(g, s)
    ensures var t := Feed(g, s, 9);
            && t.y == s.y && t.x == (if s.x + 8 < g.MaxX() then s.x + 8 else g.MaxX() - 1) && |t.rows| == |s.rows|
            && (forall y :: 0 <= y < |s.rows| && y != s.y ==> t.rows[y] == s.rows[y])
            && |t.rows[s.y]| == g.MaxX()
            && forall x :: 0 <= x < g.MaxX() ==> t.rows[s.y][x] == if s.x <= x < t.x then Glyph(32) else s.rows[s.y][x]
  {
    PutManyInLine(g, s, ' ' as nat, TabWidth(g, s.x));
  }

  /** Back-space (8) and carriage return (13) move the cursor inside its line and change no place; with a serial
      port the carriage return does nothing here. */
  lemma Controls(g: Geometry, s: Screen)
    requires g.Ok() && Shaped(g, s)
    ensures Feed(g, s, 8) == Screen(s.rows, if s.x == 0 then 0 else s.x - 1, s.y)
    ensures Feed(g, s, 13) == Screen(s.rows, if g.serial then s.x else 0, s.y)
  {
  }

  /** A line feed (10): the cursor goes to the start of the next line; on the last line every line moves up by
      one instead, the first is lost and the last is blank. */
  lemma LineFeed(g: Geometry, s: Screen)
    requires g.Ok() && Shaped(g, s)
    ensures var t := Feed(g, s, 10);
            && t.x == 0 && Shaped(g, t)
            && (s.y + 1 < g.MaxY() ==> t.y == s.y + 1 && t.rows == s.rows)
            && (s.y + 1 == g.MaxY() ==>
                && t.y == s.y
                && (forall y :: 0 <= y < g.MaxY() - 1 ==> t.rows[y] == s.rows[y + 1])
                && forall x :: 0 <= x < g.MaxX() ==> t.rows[s.y][x] == Blank)
  {
  }

  /** A byte of a string as the 16-bit character it is passed as: `char` is signed. */
  function Widen(b: bv8): nat { if b < 0x80 then b as nat else 0xff00 + b as nat }

  /** The characters of a zero-terminated string. */
  function CString(str: seq<bv8>): (r: seq<nat>) {
    if str == [] || str[0] == 0 then [] else [Widen(str[0])] + CString(str[1..])
  }

  /** The characters of a string are its bytes up to the first zero, those from 0x80 on sign-extended to 16 bits. */
  lemma {:induction false} CStringChars(str: seq<bv8>)
    requires 0 in str
    ensures var r := CString(str);
            && |r| < |str| && str[|r|] == 0
            && forall i :: 0 <= i < |r| ==> str[i] != 0 && r[i] == if str[i] < 0x80 then str[i] as nat else 0xff00 + str[i] as nat
  {
    if str[0] != 0 {
      assert str == [str[0]] + str[1..];
      CStringChars(str[1..]);
    }
  }

  /** Printing in two parts is printing at once, and the cursor never leaves the grid. */
  lemma {:induction false} FeedAllAppend(g: Geometry, s: Screen, t: seq<nat>, u: seq<nat>)
    requires g.Ok() && Shaped(g, s)
    ensures Shaped(g, FeedAll(g, s, t)) && FeedAll(g, s, t + u) == FeedAll(g, FeedAll(g, s, t), u)
    decreases |t|
  {
    if t == [] {
      assert t + u == u;
    } else {
      FeedShaped(g, s, t[0]);
      FeedAllAppend(g, Feed(g, s, t[0]), t[1..], u);
      assert (t + u)[1..] == t[1..] + u;
    }
  }

  // -------------------------------------------------- plain text, and back

  predicate Plain(ch: nat) { ch != 13 && ch != 8 && ch != 9 && ch != 10 }

  /** What row y and column x of a grid of w columns show after text was written from place n on and k lines
      moved up: the text, what stood there before, or nothing. Places are counted through the lines. */
  function TextCell(was: seq<seq<Cell>>, w: nat, n: nat, text: seq<nat>, k: nat, y: nat, x: nat): Cell
    requires x < w && forall j :: 0 <= j < |was| ==> |was[j]| == w
  {
    var q := (y + k) * w + x;
    if n <= q < n + |text| then Glyph(text[q - n]) else if y + k < |was| then was[y + k][x] else Blank
  }

  predicate Rows(rows: seq<seq<Cell>>, w: nat, h: nat) { |rows| == h && forall j :: 0 <= j < h ==> |rows[j]| == w }

  /** The whole grid does. */
  ghost predicate ShowsText(rows: seq<seq<Cell>>, was: seq<seq<Cell>>, w: nat, h: nat, n: nat, text: seq<nat>, k: nat) {
    && Rows(rows, w, h) && Rows(was, w, h)
    && forall y: nat, x: nat {:trigger rows[y][x]} :: y < h && x < w ==> rows[y][x] == TextCell(was, w, n, text, k, y, x)
  }

  /** Different places have different numbers. */
  lemma PlaceOrder(w: nat, y: nat, x: nat, v: nat, u: nat)
    requires x < w && u < w
    ensures y * w + x == v * w + u <==> y == v && x == u
  {
    if y < v { MulMono(y + 1, v, w); }
    if v < y { MulMono(v + 1, y, w); }
    assert (y + 1) * w == y * w + w && (v + 1) * w == v * w + w;
  }

  /** One more character, at the place after the text. */
  lemma TextPut(rows: seq<seq<Cell>>, was: seq<seq<Cell>>, w: nat, h: nat, n: nat, text: seq<nat>, k: nat, cy: nat, cx: nat, ch: nat)
    requires ShowsText(rows, was, w, h, n, text, k) && cy < h && cx < w && (cy + k) * w + cx == n + |text|
    ensures ShowsText(rows[cy := rows[cy][cx := Glyph(ch)]], was, w, h, n, text + [ch], k)
  {
    var next := rows[cy := rows[cy][cx := Glyph(ch)]];
    forall y: nat, x: nat | y < h && x < w
      ensures next[y][x] == TextCell(was, w, n, text + [ch], k, y, x)
    {
      PlaceOrder(w, y + k, x, cy + k, cx);
      assert rows[y][x] == TextCell(was, w, n, text, k, y, x);
    }
  }

  /** One line up, the text having just filled the last place. */
  lemma TextUp(rows: seq<seq<Cell>>, was: seq<seq<Cell>>, w: nat, h: nat, n: nat, text: seq<nat>, k: nat)
    requires ShowsText(rows, was, w, h, n, text, k) && h > 0 && (h + k) * w == n + |text|
    ensures ShowsText(rows[1..] + [BlankRow(w)], was, w, h, n, text, k + 1)
  {
    var next := rows[1..] + [BlankRow(w)];
    forall y: nat, x: nat | y < h && x < w
      ensures next[y][x] == TextCell(was, w, n, text, k + 1, y, x)
    {
      if y + 1 < h {
        assert next[y] == rows[y + 1] && y + (k + 1) == y + 1 + k;
        assert rows[y + 1][x] == TextCell(was, w, n, text, k, y + 1, x);
      } else {
        assert next[y] == BlankRow(w) && y + (k + 1) == h + k;
      }
    }
  }

  /** Where the cursor is after the text, k lines having moved up: only then is it on the last line for sure. */
  predicate CursorAfter(t: Screen, w: nat, h: nat, n: nat, length: nat, k: nat) {
    t.x < w && t.y < h && (t.y + k) * w + t.x == n + length && (k > 0 ==> t.y == h - 1)
  }

  /** One plain character on a screen that shows a text. */
  lemma TextStep(g: Geometry, s: Screen, was: seq<seq<Cell>>, n: nat, text: seq<nat>, k: nat, ch: nat) returns (k': nat)
    requires g.Ok() && Shaped(g, s) && Plain(ch)
    requires ShowsText(s.rows, was, g.MaxX(), g.MaxY(), n, text, k) && CursorAfter(s, g.MaxX(), g.MaxY(), n, |text|, k)
    ensures var t := Feed(g, s, ch);
            && ShowsText(t.rows, was, g.MaxX(), g.MaxY(), n, text + [ch], k') && CursorAfter(t, g.MaxX(), g.MaxY(), n, |text| + 1, k')
  {
    hide Geometry.Ok, Geometry.MaxX, Geometry.MaxY, ShowsText;
    var w, h := g.MaxX(), g.MaxY();
    TextPut(s.rows, was, w, h, n, text, k, s.y, s.x, ch);
    k' := k;
    assert (s.y + k + 1) * w == (s.y + k) * w + w;
    if s.x + 1 == w && s.y + 1 == h {
      var rows := s.rows[s.y := s.rows[s.y][s.x := Glyph(ch)]];
      TextUp(rows, was, w, h, n, text + [ch], k);
      k' := k + 1;
    }
  }

  lemma NoText(rows: seq<seq<Cell>>, w: nat, h: nat, n: nat)
    requires Rows(rows, w, h)
    ensures ShowsText(rows, rows, w, h, n, [], 0)
  {
  }

  lemma {:induction false} TextFrom(g: Geometry, s: Screen, text: seq<nat>) returns (k: nat)
    requires g.Ok() && Shaped(g, s) && forall i :: 0 <= i < |text| ==> Plain(text[i])
    ensures var t := FeedAll(g, s, text); var n := s.y * g.MaxX() + s.x;
            && Shaped(g, t) && ShowsText(t.rows, s.rows, g.MaxX(), g.MaxY(), n, text, k)
            && CursorAfter(t, g.MaxX(), g.MaxY(), n, |text|, k)
    decreases |text|
  {
    hide Geometry.Ok, Geometry.MaxX, Geometry.MaxY, ShowsText, CursorAfter, Feed, FeedAll, Plain;
    FeedAllAppend(g, s, text, []);
    if text == [] {
      k := 0;
      NoText(s.rows, g.MaxX(), g.MaxY(), s.y * g.MaxX() + s.x);
      FeedNone(g, s);
      assert CursorAfter(s, g.MaxX(), g.MaxY(), s.y * g.MaxX() + s.x, 0, 0) by { CursorStart(s, g.MaxX(), g.MaxY()); }
    } else {
      var before, ch := text[..|text| - 1], text[|text| - 1];
      k := TextFrom(g, s, before);
      FeedAllAppend(g, s, before, [ch]);
      FeedOne(g, FeedAll(g, s, before), ch);
      k := TextStep(g, FeedAll(g, s, before), s.rows, s.y * g.MaxX() + s.x, before, k, ch);
      assert text == before + [ch];
    }
  }

  lemma CursorStart(s: Screen, w: nat, h: nat)
    requires s.x < w && s.y < h
    ensures CursorAfter(s, w, h, s.y * w + s.x, 0, 0)
  {
  }

  lemma FeedNone(g: Geometry, s: Screen)
    requires g.Ok() && Shaped(g, s)
    ensures FeedAll(g, s, []) == s
  {
  }

  lemma FeedOne(g: Geometry, s: Screen, ch: nat)
    requires g.Ok() && Shaped(g, s)
    ensures FeedAll(g, s, [ch]) == Feed(g, s, ch)
  {
    FeedShaped(g, s, ch);
    assert [ch][1..] == [];
  }

  /** Plain text of any length, with places counted through the lines from the top: it fills the places from the
      cursor on, and the lines move up just so far that the cursor, at the place after the text, is on the screen.
      Nothing else changes, and lines that come in from below are blank. */
  lemma PlainText(g: Geometry, s: Screen, text: seq<nat>)
    requires g.Ok() && Shaped(g, s) && forall i :: 0 <= i < |text| ==> Plain(text[i])
    ensures var w, h := g.MaxX(), g.MaxY(); var n := s.y * w + s.x;
            var k := if (n + |text|) / w < h then 0 else (n + |text|) / w - (h - 1);
            var t := FeedAll(g, s, text);
            && Shaped(g, t) && t.y == (n + |text|) / w - k && t.x == (n + |text|) % w
            && forall y: nat, x: nat {:trigger t.rows[y][x]} :: y < h && x < w ==>
                 var q := (y + k) * w + x;
                 t.rows[y][x] == if n <= q < n + |text| then Glyph(text[q - n]) else if y + k < h then s.rows[y + k][x] else Blank
  {
    hide Geometry.Ok, Geometry.MaxX, Geometry.MaxY, FeedAll, Plain;
    var w := g.MaxX();
    var n := s.y * w + s.x;
    var k := TextFrom(g, s, text);
    var t := FeedAll(g, s, text);
    DivModUnique(n + |text|, w, t.y + k, t.x);
  }

  /** Back-space after a character that did not wrap returns the cursor, so typing again overwrites. */
  lemma BackSpaceOverwrites(g: Geometry, s: Screen, a: nat, b: nat)
    requires g.Ok() && Shaped(g, s) && Plain(a) && Plain(b) && s.x + 1 < g.MaxX()
    ensures FeedAll(g, s, [a, 8, b]) == Feed(g, s, b)
  {
    var t := Feed(g, s, a);
    FeedShaped(g, s, a);
    var u := Feed(g, t, 8);
    FeedShaped(g, t, 8);
    assert u.rows[u.y][u.x := Glyph(b)] == s.rows[s.y][s.x := Glyph(b)];
    assert u.rows[u.y := u.rows[u.y][u.x := Glyph(b)]] == s.rows[s.y := s.rows[s.y][s.x := Glyph(b)]];
    assert [a, 8, b][1..] == [8, b] && [8, b][1..] == [b] && [b][1..] == [];
    calc {
      FeedAll(g, s, [a, 8, b]);
      FeedAll(g, t, [8, b]);
      FeedAll(g, u, [b]);
      { FeedShaped(g, u, b); }
      Feed(g, u, b);
    }
  }

  /** Back-space returns the cursor exactly if the character did not wrap: from the next line
      there is no way back, unless the grid is so narrow and low that the cursor never moved. */
  lemma BackSpaceReturns(g: Geometry, s: Screen, ch: nat)
    requires g.Ok() && Shaped(g, s) && Plain(ch)
    ensures var t := FeedAll(g, s, [ch, 8]);
            (t.x == s.x && t.y == s.y) <==> (s.x + 1 < g.MaxX() || (g.MaxX() == 1 && s.y + 1 == g.MaxY()))
  {
    FeedShaped(g, s, ch);
    FeedShaped(g, Feed(g, s, ch), 8);
    assert [ch, 8][1..] == [8] && [8][1..] == [];
    assert FeedAll(g, Feed(g, s, ch), [8]) == Feed(g, Feed(g, s, ch), 8);
  }

  // --------------------------------------------------------------- pixels

  /** The bit of the glyph byte that the code tests for a column. */
  function MaskAt(dx: nat): bv8 {
    if dx == 0 then 0x80 else (0x80 as bv8) >> ((dx - 1) % 8)
  }

  /** The mask after a column: shifted, and set back after every column that is a multiple of eight. */
  lemma MaskStep(dx: nat)
    ensures MaskAt(dx + 1) == if dx % 8 == 0 then 0x80 else MaskAt(dx) >> 1
  {
    var j := dx % 8;
    if j != 0 {
      assert (dx - 1) % 8 == j - 1;
      ShiftMore(j - 1);
    }
  }

  lemma ShiftMore(j: nat)
    requires j < 7
    ensures (0x80 as bv8) >> (j + 1) == ((0x80 as bv8) >> j) >> 1
  {
    if j == 0 {} else if j == 1 {} else if j == 2 {} else if j == 3 {} else if j == 4 {} else if j == 5 {} else {}
  }

  /** The column test against the first bit first order of a glyph byte: the mask is right only in the leftmost column. */
  lemma ColumnBits(dx: nat)
    ensures MaskAt(dx) == (0x80 as bv8) >> (dx % 8) <==> dx == 0
  {
    var j := dx % 8;
    if dx > 0 {
      assert (dx - 1) % 8 == if j == 0 then 7 else j - 1;
      if j == 0 {} else if j == 1 {} else if j == 2 {} else if j == 3 {} else if j == 4 {} else if j == 5 {} else if j == 6 {} else {}
    }
  }

  function GlyphStart(g: Geometry, ch: nat): nat { if ch < g.glyphNr then ch * g.glyphBytes else 0 }

  lemma InTable(c: nat, nr: nat, size: nat, dy: nat, height: nat, bytes: nat, q: nat)
    requires c < nr && dy < height && q < bytes && bytes * height <= size
    ensures 0 <= c * size && 0 <= dy * bytes && c * size + dy * bytes + q < nr * size
  {
    MulMono(dy + 1, height, bytes);
    MulMono(c + 1, nr, size);
    assert (dy + 1) * bytes == dy * bytes + bytes;
    assert (c + 1) * size == c * size + size;
  }

  /** The byte of a glyph for a row and a column: always inside the table. */
  function GlyphByte(g: Geometry, ch: nat, dx: nat, dy: nat): (i: nat)
    requires g.Ok() && dx < g.FontWidth() && dy < g.fontHeight
    ensures i < |g.table|
  {
    InTable(if ch < g.glyphNr then ch else 0, g.glyphNr, g.glyphBytes, dy, g.fontHeight, g.fontBytes, dx / 8);
    GlyphStart(g, ch) + dy * g.fontBytes + dx / 8
  }

  function CellPixel(g: Geometry, c: Cell, dx: nat, dy: nat): nat
    requires g.Ok() && dx < g.FontWidth() && dy < g.fontHeight
    ensures c.Blank? ==> CellPixel(g, c, dx, dy) == BG
  {
    match c
    case Blank => BG
    case Glyph(ch) => if g.table[GlyphByte(g, ch, dx, dy)] & MaskAt(dx) != 0 then FG else BG
  }

  function Row(g: Geometry, p: nat): nat requires g.width > 0 { p / g.width }
  function Col(g: Geometry, p: nat): (c: nat) requires g.width > 0 ensures c < g.width { p % g.width }

  /** The place in the frame buffer of the pixel in row r and column c: no two pixels share one. */
  function Index(g: Geometry, r: nat, c: nat): (p: nat)
    requires c < g.width
    ensures Row(g, p) == r && Col(g, p) == c
    ensures r < g.height ==> p < g.Area()
  {
    DivModUnique(r * g.width + c, g.width, r, c);
    if r < g.height then MulMono(r + 1, g.height, g.width); r * g.width + c else r * g.width + c
  }

  /** The line of text that a row of pixels belongs to, and the row within it. */
  function LineOf(g: Geometry, r: nat): nat requires g.Ok() { DivBack(r, g.fontHeight); r / g.fontHeight }
  function DyOf(g: Geometry, r: nat): (d: nat) requires g.Ok() ensures d < g.fontHeight { DivBack(r, g.fontHeight); r % g.fontHeight }

  /** The column of text that a column of pixels belongs to, and the column within it. */
  function ColumnOf(g: Geometry, c: nat): nat requires g.Ok() { DivBack(c, g.FontWidth()); c / g.FontWidth() }
  function DxOf(g: Geometry, c: nat): (d: nat) requires g.Ok() ensures d < g.FontWidth() { DivBack(c, g.FontWidth()); c % g.FontWidth() }

  /** The row of pixels for a line and a row within it. */
  function PixelRow(g: Geometry, line: nat, dy: nat): (r: nat)
    requires g.Ok() && dy < g.fontHeight
    ensures LineOf(g, r) == line && DyOf(g, r) == dy && (line < g.MaxY() ==> r < g.height)
  {
    DivModUnique(line * g.fontHeight + dy, g.fontHeight, line, dy);
    var r := line * g.fontHeight + dy;
    if line < g.MaxY() then MulMono(line + 1, g.MaxY(), g.fontHeight); r else r
  }

  function PixelCol(g: Geometry, column: nat, dx: nat): (c: nat)
    requires g.Ok() && dx < g.FontWidth()
    ensures ColumnOf(g, c) == column && DxOf(g, c) == dx && (column < g.MaxX() ==> c < g.width)
  {
    var fw := g.FontWidth();
    DivModUnique(column * fw + dx, fw, column, dx);
    var c := column * fw + dx;
    if column < g.MaxX() then MulMono(column + 1, g.MaxX(), fw); c else c
  }

  lemma RowBack(g: Geometry, r: nat)
    requires g.Ok()
    ensures r == PixelRow(g, LineOf(g, r), DyOf(g, r))
  {
    DivBack(r, g.fontHeight);
  }

  lemma ColBack(g: Geometry, c: nat)
    requires g.Ok()
    ensures c == PixelCol(g, ColumnOf(g, c), DxOf(g, c))
  {
    DivBack(c, g.FontWidth());
  }

  /** One line of text further down. */
  lemma NextLine(g: Geometry, r: nat)
    requires g.Ok()
    ensures LineOf(g, r + g.fontHeight) == LineOf(g, r) + 1 && DyOf(g, r + g.fontHeight) == DyOf(g, r)
  {
    DivBack(r, g.fontHeight);
    DivModUnique(r + g.fontHeight, g.fontHeight, r / g.fontHeight + 1, r % g.fontHeight);
  }

  /** Rows of pixels are ordered as their lines of text. */
  lemma LineOrder(g: Geometry, r: nat, line: nat)
    requires g.Ok()
    ensures r < PixelRow(g, line, 0) <==> LineOf(g, r) < line
    ensures PixelRow(g, line + 1, 0) == PixelRow(g, line, 0) + g.fontHeight
  {
    var fh := g.fontHeight;
    DivBack(r, fh);
    if LineOf(g, r) < line { MulMono(r / fh + 1, line, fh); } else { MulMono(line, r / fh, fh); }
  }

  /** What the pixel in row r and column c shows for a grid; margins stay background. */
  function Pixel(g: Geometry, rows: seq<seq<Cell>>, r: nat, c: nat): nat
    requires g.Ok()
  {
    var cy, cx := LineOf(g, r), ColumnOf(g, c);
    if cy < |rows| && cx < |rows[cy]| then CellPixel(g, rows[cy][cx], DxOf(g, c), DyOf(g, r)) else BG
  }

  /** A frame buffer that shows a grid. */
  ghost predicate Shows(g: Geometry, rows: seq<seq<Cell>>, fb: seq<nat>)
    requires g.Ok()
  {
    && |fb| == g.Area()
    && forall r: nat, c: nat {:trigger Index(g, r, c)} :: r < g.height && c < g.width ==> fb[Index(g, r, c)] == Pixel(g, rows, r, c)
  }

  // ------------------------------------------------- drawing one character

  /** Pixel (r, c) lies in cell (sx, sy), above row y of the cell or in it and left of column x. */
  ghost predicate Drawn(g: Geometry, sx: nat, sy: nat, y: nat, x: nat, r: nat, c: nat)
    requires g.Ok()
  {
    && LineOf(g, r) == sy && ColumnOf(g, c) == sx
    && (DyOf(g, r) < y || (DyOf(g, r) == y && DxOf(g, c) < x))
  }

  /** `now` is `was` with the first rows of a glyph drawn into cell (sx, sy). */
  ghost predicate Painted(g: Geometry, was: seq<nat>, now: seq<nat>, sx: nat, sy: nat, ch: nat, y: nat, x: nat)
    requires g.Ok()
  {
    && |was| == g.Area() == |now|
    && (forall r: nat, c: nat {:trigger Index(g, r, c)} :: r < g.height && c < g.width ==>
       now[Index(g, r, c)] == if Drawn(g, sx, sy, y, x, r, c) then CellPixel(g, Glyph(ch), DxOf(g, c), DyOf(g, r)) else was[Index(g, r, c)])
  }

  /** The address that the code computes for a pixel of a cell. */
  lemma CellAddress(g: Geometry, sx: nat, sy: nat, y: nat, x: nat)
    requires g.Ok() && sx < g.MaxX() && sy < g.MaxY() && y < g.fontHeight && x < g.FontWidth()
    ensures PixelRow(g, sy, y) < g.height && PixelCol(g, sx, x) < g.width
    ensures sy * g.fontHeight * g.width + sx * g.FontWidth() + y * g.width + x == Index(g, PixelRow(g, sy, y), PixelCol(g, sx, x))
  {
    var a := sy * g.fontHeight;
    assert (a + y) * g.width == a * g.width + y * g.width;
  }

  lemma PaintStep(g: Geometry, was: seq<nat>, now: seq<nat>, sx: nat, sy: nat, ch: nat, y: nat, x: nat)
    requires g.Ok() && sx < g.MaxX() && sy < g.MaxY() && y < g.fontHeight && x < g.FontWidth()
    requires Painted(g, was, now, sx, sy, ch, y, x)
    ensures Painted(g, was, now[Index(g, PixelRow(g, sy, y), PixelCol(g, sx, x)) := CellPixel(g, Glyph(ch), x, y)], sx, sy, ch, y, x + 1)
  {
    hide Geometry.Ok, Geometry.Area, Index, Row, Col, CellPixel, LineOf, DyOf, ColumnOf, DxOf, PixelRow, PixelCol;
    var r0, c0 := PixelRow(g, sy, y), PixelCol(g, sx, x);
    var next := now[Index(g, r0, c0) := CellPixel(g, Glyph(ch), x, y)];
    forall r: nat, c: nat | r < g.height && c < g.width
      ensures next[Index(g, r, c)] == if Drawn(g, sx, sy, y, x + 1, r, c) then CellPixel(g, Glyph(ch), DxOf(g, c), DyOf(g, r)) else was[Index(g, r, c)]
    {
      RowBack(g, r);
      ColBack(g, c);
    }
  }

  /** A row of the glyph is complete. */
  lemma PaintRow(g: Geometry, was: seq<nat>, now: seq<nat>, sx: nat, sy: nat, ch: nat, y: nat)
    requires g.Ok() && Painted(g, was, now, sx, sy, ch, y, g.FontWidth())
    ensures Painted(g, was, now, sx, sy, ch, y + 1, 0)
  {
    hide Geometry.Ok, Geometry.Area, Index, Row, Col, CellPixel, LineOf, DyOf, ColumnOf, DxOf, PixelRow, PixelCol;
  }

  /** A complete glyph shows the grid with the character put there. */
  lemma PaintedShows(g: Geometry, rows: seq<seq<Cell>>, was: seq<nat>, now: seq<nat>, sx: nat, sy: nat, ch: nat)
    requires g.Ok() && Shows(g, rows, was) && Painted(g, was, now, sx, sy, ch, g.fontHeight, 0)
    requires sy < |rows| && sx < |rows[sy]|
    ensures Shows(g, rows[sy := rows[sy][sx := Glyph(ch)]], now)
  {
    hide Geometry.Ok, Geometry.Area, Index, Row, Col, CellPixel, LineOf, DyOf, ColumnOf, DxOf, PixelRow, PixelCol;
  }

  // ------------------------------------------------------------- scrolling

  ghost predicate PixelMoved(g: Geometry, was: seq<nat>, now: seq<nat>, h: nat, y: nat, x: nat, r: nat, c: nat)
    requires |was| == g.Area() == |now| && r < g.height && c < g.width
  {
    if r < y || (r == y && c < x) then r + h < g.height && now[Index(g, r, c)] == was[Index(g, r + h, c)]
    else now[Index(g, r, c)] == was[Index(g, r, c)]
  }

  /** `now` is `was` with the first y rows, and x pixels more, replaced by what stood h rows below. */
  ghost predicate Moved(g: Geometry, was: seq<nat>, now: seq<nat>, h: nat, y: nat, x: nat)
  {
    && |was| == g.Area() == |now|
    && forall r: nat, c: nat :: r < g.height && c < g.width ==> PixelMoved(g, was, now, h, y, x, r, c)
  }

  ghost predicate PixelCleared(g: Geometry, was: seq<nat>, now: seq<nat>, top: nat, y: nat, x: nat, r: nat, c: nat)
    requires |was| == g.Area() == |now| && r < g.height && c < g.width
  {
    now[Index(g, r, c)] == if top <= r && (r < top + y || (r == top + y && c < x)) then BG else was[Index(g, r, c)]
  }

  /** `now` is `was` with y rows from row `top` on, and x pixels more, set to background. */
  ghost predicate Cleared(g: Geometry, was: seq<nat>, now: seq<nat>, top: nat, y: nat, x: nat)
  {
    && |was| == g.Area() == |now|
    && forall r: nat, c: nat :: r < g.height && c < g.width ==> PixelCleared(g, was, now, top, y, x, r, c)
  }

  lemma MoveStep(g: Geometry, was: seq<nat>, now: seq<nat>, h: nat, y: nat, x: nat)
    requires Moved(g, was, now, h, y, x) && h > 0 && y + h < g.height && x < g.width
    ensures Moved(g, was, now[Index(g, y, x) := now[Index(g, y + h, x)]], h, y, x + 1)
  {
    hide Index, Row, Col;
    var next, x' := now[Index(g, y, x) := now[Index(g, y + h, x)]], x + 1;
    assert PixelMoved(g, was, now, h, y, x, y + h, x);
    forall r: nat, c: nat | r < g.height && c < g.width
      ensures PixelMoved(g, was, next, h, y, x', r, c)
    {
      assert PixelMoved(g, was, now, h, y, x, r, c);
    }
  }

  lemma MoveRow(g: Geometry, was: seq<nat>, now: seq<nat>, h: nat, y: nat)
    requires Moved(g, was, now, h, y, g.width)
    ensures Moved(g, was, now, h, y + 1, 0)
  {
    hide Index, Row, Col;
    var y' := y + 1;
    forall r: nat, c: nat | r < g.height && c < g.width
      ensures PixelMoved(g, was, now, h, y', 0, r, c)
    {
      assert PixelMoved(g, was, now, h, y, g.width, r, c);
    }
  }

  lemma ClearStep(g: Geometry, was: seq<nat>, now: seq<nat>, top: nat, y: nat, x: nat)
    requires Cleared(g, was, now, top, y, x) && top + y < g.height && x < g.width
    ensures Cleared(g, was, now[Index(g, top + y, x) := BG], top, y, x + 1)
  {
    hide Index, Row, Col;
    var next, x' := now[Index(g, top + y, x) := BG], x + 1;
    forall r: nat, c: nat | r < g.height && c < g.width
      ensures PixelCleared(g, was, next, top, y, x', r, c)
    {
      assert PixelCleared(g, was, now, top, y, x, r, c);
    }
  }

  lemma ClearRow(g: Geometry, was: seq<nat>, now: seq<nat>, top: nat, y: nat)
    requires Cleared(g, was, now, top, y, g.width)
    ensures Cleared(g, was, now, top, y + 1, 0)
  {
    hide Index, Row, Col;
    var y' := y + 1;
    forall r: nat, c: nat | r < g.height && c < g.width
      ensures PixelCleared(g, was, now, top, y', 0, r, c)
    {
      assert PixelCleared(g, was, now, top, y, g.width, r, c);
    }
  }

  lemma MovedAt(g: Geometry, was: seq<nat>, now: seq<nat>, h: nat, y: nat, r: nat, c: nat)
    requires Moved(g, was, now, h, y, 0) && r < g.height && c < g.width
    ensures |was| == g.Area() == |now|
    ensures r < y ==> r + h < g.height && now[Index(g, r, c)] == was[Index(g, r + h, c)]
    ensures r >= y ==> now[Index(g, r, c)] == was[Index(g, r, c)]
  {
    assert PixelMoved(g, was, now, h, y, 0, r, c);
  }

  /** The glyph of a character has its dot in column dx and row dy: characters without a glyph take the first.
      The leftmost column is the highest bit of the row's first byte, and every other column is one bit late. */
  predicate Dot(g: Geometry, ch: nat, dx: nat, dy: nat)
    requires g.Ok() && dx < g.fontBytes * 8 && dy < g.fontHeight
  {
    var glyph := if ch < g.glyphNr then ch else 0;
    InTable(glyph, g.glyphNr, g.glyphBytes, dy, g.fontHeight, g.fontBytes, dx / 8);
    g.table[glyph * g.glyphBytes + dy * g.fontBytes + dx / 8] & (0x80 as bv8 >> (if dx == 0 then 0 else (dx - 1) % 8)) != 0
  }

  /** A dot is white, all else black. */
  lemma CellPixelIs(g: Geometry, c: Cell, dx: nat, dy: nat)
    requires g.Ok() && dx < g.FontWidth() && dy < g.fontHeight
    ensures CellPixel(g, c, dx, dy) == if c.Glyph? && Dot(g, c.ch, dx, dy) then 0xffffff else 0
  {
  }

  /** Cell (y, x) of the grid has a dot in its column dx and row dy. */
  predicate White(g: Geometry, rows: seq<seq<Cell>>, y: nat, x: nat, dy: nat, dx: nat)
    requires g.Ok() && dx < g.fontBytes * 8 && dy < g.fontHeight
  {
    y < |rows| && x < |rows[y]| && rows[y][x].Glyph? && Dot(g, rows[y][x].ch, dx, dy)
  }

  /** Every element of the buffer is the pixel of its row and column. Characters stand side by side in cells of the
      font's size from the top left corner; beyond the grid the screen is black. */
  lemma EveryPixel(g: Geometry, rows: seq<seq<Cell>>, fb: seq<nat>, y: nat, x: nat, dy: nat, dx: nat)
    requires g.Ok() && Shows(g, rows, fb) && dy < g.fontHeight && dx < g.fontBytes * 8
    requires y * g.fontHeight + dy < g.height && x * (g.fontBytes * 8) + dx < g.width
    ensures var p := (y * g.fontHeight + dy) * g.width + (x * (g.fontBytes * 8) + dx);
            0 <= p < |fb| && fb[p] == if White(g, rows, y, x, dy, dx) then 0xffffff else 0
  {
    hide CellPixel, Shows, Dot, LineOf, DyOf, ColumnOf, DxOf;
    var r, c := PixelRow(g, y, dy), PixelCol(g, x, dx);
    PixelRowIs(g, y, dy);
    PixelColIs(g, x, dx);
    ShowsAt(g, rows, fb, r, c);
    if y < |rows| && x < |rows[y]| { CellPixelIs(g, rows[y][x], dx, dy); }
  }

  lemma PixelRowIs(g: Geometry, y: nat, dy: nat)
    requires g.Ok() && dy < g.fontHeight
    ensures PixelRow(g, y, dy) == y * g.fontHeight + dy
  {
  }

  lemma PixelColIs(g: Geometry, x: nat, dx: nat)
    requires g.Ok() && dx < g.FontWidth()
    ensures PixelCol(g, x, dx) == x * (g.fontBytes * 8) + dx
  {
  }

  lemma ClearedAt(g: Geometry, was: seq<nat>, now: seq<nat>, top: nat, y: nat, r: nat, c: nat)
    requires Cleared(g, was, now, top, y, 0) && r < g.height && c < g.width
    ensures |was| == g.Area() == |now|
    ensures now[Index(g, r, c)] == if top <= r < top + y then BG else was[Index(g, r, c)]
  {
    assert PixelCleared(g, was, now, top, y, 0, r, c);
  }

  lemma ShowsAt(g: Geometry, rows: seq<seq<Cell>>, fb: seq<nat>, r: nat, c: nat)
    requires g.Ok() && Shows(g, rows, fb) && r < g.height && c < g.width
    ensures |fb| == g.Area() && fb[Index(g, r, c)] == Pixel(g, rows, r, c)
  {
  }

  /** Moving up by one line of text and clearing the last line shows the scrolled grid. */
  lemma ScrollShows(g: Geometry, rows: seq<seq<Cell>>, was: seq<nat>, mid: seq<nat>, now: seq<nat>)
    requires g.Ok() && Shows(g, rows, was) && |rows| == g.MaxY()
    requires Moved(g, was, mid, g.fontHeight, PixelRow(g, g.MaxY() - 1, 0), 0)
    requires Cleared(g, mid, now, PixelRow(g, g.MaxY() - 1, 0), g.fontHeight, 0)
    ensures Shows(g, rows[1..] + [BlankRow(g.MaxX())], now)
  {
    var next := rows[1..] + [BlankRow(g.MaxX())];
    forall r: nat, c: nat | r < g.height && c < g.width
      ensures |now| == g.Area() && now[Index(g, r, c)] == Pixel(g, next, r, c)
    {
      ScrolledPixel(g, rows, was, mid, now, r, c);
    }
  }

  lemma ScrolledPixel(g: Geometry, rows: seq<seq<Cell>>, was: seq<nat>, mid: seq<nat>, now: seq<nat>, r: nat, c: nat)
    requires g.Ok() && Shows(g, rows, was) && |rows| == g.MaxY() && r < g.height && c < g.width
    requires Moved(g, was, mid, g.fontHeight, PixelRow(g, g.MaxY() - 1, 0), 0)
    requires Cleared(g, mid, now, PixelRow(g, g.MaxY() - 1, 0), g.fontHeight, 0)
    ensures |now| == g.Area() && now[Index(g, r, c)] == Pixel(g, rows[1..] + [BlankRow(g.MaxX())], r, c)
  {
    hide Geometry.Ok, Geometry.Area, Geometry.MaxX, Geometry.MaxY, Index, Row, Col, LineOf, DyOf, ColumnOf, DxOf;
    hide PixelRow, PixelCol, CellPixel, Moved, Cleared, Shows;
    var n := g.MaxY();
    var top, next := PixelRow(g, n - 1, 0), rows[1..] + [BlankRow(g.MaxX())];
    LineOrder(g, r, n - 1);
    LineOrder(g, r, n);
    NextLine(g, r);
    MovedAt(g, was, mid, g.fontHeight, top, r, c);
    ClearedAt(g, mid, now, top, g.fontHeight, r, c);
    if LineOf(g, r) < n - 1 {
      ShowsAt(g, rows, was, r + g.fontHeight, c);
      assert next[LineOf(g, r)] == rows[LineOf(g, r) + 1];
    } else if LineOf(g, r) == n - 1 {
      assert next[n - 1] == BlankRow(g.MaxX());
    } else {
      ShowsAt(g, rows, was, r, c);
    }
  }

  /** A cleared frame buffer shows an empty grid. */
  lemma ClearShows(g: Geometry, was: seq<nat>, now: seq<nat>)
    requires g.Ok() && Cleared(g, was, now, 0, g.height, 0)
    ensures Shows(g, BlankGrid(g), now)
  {
    hide Geometry.Ok, Geometry.Area, Index, Row, Col, LineOf, DyOf, ColumnOf, DxOf, PixelRow, PixelCol, Geometry.MaxX, Geometry.MaxY;
    forall r: nat, c: nat | r < g.height && c < g.width
      ensures now[Index(g, r, c)] == Pixel(g, BlankGrid(g), r, c)
    {
      assert PixelCleared(g, was, now, 0, g.height, 0, r, c);
    }
  }

  function BlankGrid(g: Geometry): (rows: seq<seq<Cell>>)
    requires g.Ok()
    ensures |rows| == g.MaxY() && forall y :: 0 <= y < |rows| ==> rows[y] == BlankRow(g.MaxX())
  {
    seq(g.MaxY(), i => BlankRow(g.MaxX()))
  }

  lemma PaintStart(g: Geometry, was: seq<nat>, sx: nat, sy: nat, ch: nat)
    requires g.Ok() && |was| == g.Area()
    ensures Painted(g, was, was, sx, sy, ch, 0, 0)
  {
  }

  lemma FirstMask()
    ensures MaskAt(0) == 0x80
  {
  }

  lemma GlyphPixel(g: Geometry, ch: nat, dx: nat, dy: nat)
    requires g.Ok() && dx < g.FontWidth() && dy < g.fontHeight
    ensures GlyphByte(g, ch, dx, dy) == GlyphStart(g, ch) + dy * g.fontBytes + dx / 8
    ensures CellPixel(g, Glyph(ch), dx, dy) == if g.table[GlyphByte(g, ch, dx, dy)] & MaskAt(dx) != 0 then FG else BG
  {
  }

  /** What one turn of the glyph loops reads and writes is inside its arrays, and draws the next pixel. */
  lemma DrawDot(g: Geometry, was: seq<nat>, now: seq<nat>, sx: nat, sy: nat, ch: nat, y: nat, x: nat, line: int, glyph: int)
    requires g.Ok() && sx < g.MaxX() && sy < g.MaxY() && y < g.fontHeight && x < g.FontWidth()
    requires line == sy * g.fontHeight * g.width + sx * g.FontWidth() + y * g.width
    requires glyph == GlyphStart(g, ch) + y * g.fontBytes
    requires Painted(g, was, now, sx, sy, ch, y, x)
    ensures 0 <= line + x < |now| && 0 <= glyph + x / 8 < |g.table|
    ensures Painted(g, was, now[line + x := if g.table[glyph + x / 8] & MaskAt(x) != 0 then FG else BG], sx, sy, ch, y, x + 1)
  {
    hide *;
    CellAddress(g, sx, sy, y, x);
    PaintStep(g, was, now, sx, sy, ch, y, x);
    PaintedSize(g, was, now, sx, sy, ch, y, x);
    GlyphPixel(g, ch, x, y);
  }

  lemma PaintedSize(g: Geometry, was: seq<nat>, now: seq<nat>, sx: nat, sy: nat, ch: nat, y: nat, x: nat)
    requires g.Ok() && Painted(g, was, now, sx, sy, ch, y, x)
    ensures |now| == g.Area()
  {
  }

  lemma ScrollBounds(g: Geometry)
    requires g.Ok()
    ensures PixelRow(g, g.MaxY() - 1, 0) == (g.MaxY() - 1) * g.fontHeight
    ensures (g.MaxY() - 1) * g.fontHeight + g.fontHeight <= g.height
  {
    assert g.MaxY() * g.fontHeight == (g.MaxY() - 1) * g.fontHeight + g.fontHeight;
  }

  // ----------------------------------------------------------- the console

  class Console {
    const g: Geometry
    const fb: array<nat>
    var cursorX: nat
    var cursorY: nat
    ghost var rows: seq<seq<Cell>>

    ghost function Shown(): Screen
      reads this
    {
      Screen(rows, cursorX, cursorY)
    }

    /** The pixels are the rendering of the grid, and the cursor is in it. */
    ghost predicate Valid()
      reads this, fb
      ensures Valid() ==> g.Ok() && Shaped(g, Shown()) && fb.Length == g.Area()
    {
      g.Ok() && fb.Length == g.Area() && Shaped(g, Shown()) && Shows(g, rows, fb[..])
    }

    /** Font set-up and the first clearing of the screen. */
    constructor (geometry: Geometry, buffer: array<nat>)
      requires geometry.Ok() && buffer.Length == geometry.Area()
      modifies buffer
      ensures Valid() && g == geometry && fb == buffer && Shown() == Screen(BlankGrid(g), 0, 0)
    {
      g, fb, cursorX, cursorY := geometry, buffer, 0, 0;
      rows := BlankGrid(geometry);
      new;
      ClearScreen();
    }

    /** Every pixel becomes background; the cursor stays. */
    method ClearScreen()
      requires g.Ok() && fb.Length == g.Area() && cursorX < g.MaxX() && cursorY < g.MaxY()
      modifies this`rows, fb
      ensures Valid() && Shown() == Screen(BlankGrid(g), old(cursorX), old(cursorY))
    {
      hide Shows, Cleared, Geometry.Ok;
      ghost var was := fb[..];
      Clear(0, g.height);
      ClearShows(g, was, fb[..]);
      rows := BlankGrid(g);
      ValidIf();
    }

    /** The loops that set whole pixel rows to background. */
    method Clear(top: nat, count: nat)
      requires fb.Length == g.Area() && top + count <= g.height
      modifies fb
      ensures Cleared(g, old(fb[..]), fb[..], top, count, 0)
    {
      hide Index, Row, Col;
      var y := 0;
      while y < count
        invariant 0 <= y <= count && Cleared(g, old(fb[..]), fb[..], top, y, 0)
      {
        var x := 0;
        while x < g.width
          invariant 0 <= x <= g.width && Cleared(g, old(fb[..]), fb[..], top, y, x)
        {
          ghost var now := fb[..];
          ClearStep(g, old(fb[..]), now, top, y, x);
          fb[Index(g, top + y, x)] := BG;
          assert fb[..] == now[Index(g, top + y, x) := BG];
          x := x + 1;
        }
        ClearRow(g, old(fb[..]), fb[..], top, y);
        y := y + 1;
      }
    }

    /** The loops that move the text up by one line, in place. */
    method MoveUp(count: nat)
      requires fb.Length == g.Area() && count + g.fontHeight <= g.height && g.fontHeight > 0
      modifies fb
      ensures Moved(g, old(fb[..]), fb[..], g.fontHeight, count, 0)
    {
      hide Index, Row, Col;
      var y, h := 0, g.fontHeight;
      while y < count
        invariant 0 <= y <= count && Moved(g, old(fb[..]), fb[..], h, y, 0)
      {
        var x := 0;
        while x < g.width
          invariant 0 <= x <= g.width && Moved(g, old(fb[..]), fb[..], h, y, x)
        {
          ghost var now := fb[..];
          MoveStep(g, old(fb[..]), now, h, y, x);
          fb[Index(g, y, x)] := fb[Index(g, y + h, x)];
          assert fb[..] == now[Index(g, y, x) := now[Index(g, y + h, x)]];
          x := x + 1;
        }
        MoveRow(g, old(fb[..]), fb[..], h, y);
        y := y + 1;
      }
    }

    lemma ValidIf()
      requires g.Ok() && fb.Length == g.Area() && Shaped(g, Shown()) && Shows(g, rows, fb[..])
      ensures Valid()
    {
    }

    /** The inner glyph loop: one row of pixels of the cell, with the mask that the code uses. */
    method DrawRow(ch: nat, chY: nat, line: int, glyph: int, ghost was: seq<nat>)
      requires g.Ok() && fb.Length == g.Area() && cursorX < g.MaxX() && cursorY < g.MaxY() && chY < g.fontHeight
      requires line == cursorY * g.fontHeight * g.width + cursorX * g.FontWidth() + chY * g.width
      requires glyph == GlyphStart(g, ch) + chY * g.fontBytes
      requires Painted(g, was, fb[..], cursorX, cursorY, ch, chY, 0)
      modifies fb
      ensures Painted(g, was, fb[..], cursorX, cursorY, ch, chY + 1, 0)
    {
      hide *;
      var mask: bv8 := 0x80;
      var chX: nat := 0;
      FirstMask();
      while chX < g.FontWidth()
        invariant chX <= g.FontWidth() && mask == MaskAt(chX)
        invariant Painted(g, was, fb[..], cursorX, cursorY, ch, chY, chX)
      {
        ghost var now := fb[..];
        DrawDot(g, was, now, cursorX, cursorY, ch, chY, chX, line, glyph);
        if g.table[glyph + chX / 8] & mask != 0 {
          fb[line + chX] := FG;
        } else {
          fb[line + chX] := BG;
        }
        assert fb[..] == now[line + chX := fb[line + chX]];
        MaskStep(chX);
        mask := mask >> 1;
        if chX % 8 == 0 {
          mask := 0x80;
        }
        chX := chX + 1;
      }
      PaintRow(g, was, fb[..], cursorX, cursorY, ch, chY);
    }

    /** The glyph loops: every store is inside the buffer and exactly one cell of pixels is painted. */
    method Draw(ch: nat)
      requires Valid()
      modifies fb
      ensures Painted(g, old(fb[..]), fb[..], cursorX, cursorY, ch, g.fontHeight, 0)
    {
      var glyph := if ch < g.glyphNr then ch * g.glyphBytes else 0;
      var loc := cursorY * g.fontHeight * g.width + cursorX * g.FontWidth();
      ghost var start := GlyphStart(g, ch);
      assert glyph == start && cursorX < g.MaxX() && cursorY < g.MaxY();
      hide *;
      PaintStart(g, fb[..], cursorX, cursorY, ch);
      var chY: nat := 0;
      while chY < g.fontHeight
        invariant chY <= g.fontHeight && glyph == start + chY * g.fontBytes
        invariant Painted(g, old(fb[..]), fb[..], cursorX, cursorY, ch, chY, 0)
      {
        DrawRow(ch, chY, loc + chY * g.width, glyph, old(fb[..]));
        assert (chY + 1) * g.fontBytes == chY * g.fontBytes + g.fontBytes;
        glyph := glyph + g.fontBytes;
        chY := chY + 1;
      }
    }

    /** A character at the cursor, which moves on and wraps. */
    method PutCharFb(ch: nat)
      requires Valid()
      modifies this`rows, this`cursorX, this`cursorY, fb
      ensures Valid() && Shown() == Put(g, old(Shown()), ch)
    {
      hide Geometry.Ok, Shows, Painted;
      ghost var was, s := fb[..], Shown();
      PutShaped(g, s, ch);
      Draw(ch);
      PaintedShows(g, rows, was, fb[..], cursorX, cursorY, ch);
      rows := rows[cursorY := rows[cursorY][cursorX := Glyph(ch)]];
      cursorX := cursorX + 1;
      if cursorX >= g.MaxX() {
        NewLineFb();
      }
    }

    /** To the start of the next line, scrolling in place at the bottom. */
    method NewLineFb()
      requires g.Ok() && fb.Length == g.Area() && Shows(g, rows, fb[..])
      requires |rows| == g.MaxY() && (forall y :: 0 <= y < |rows| ==> |rows[y]| == g.MaxX()) && cursorY < g.MaxY()
      modifies this`rows, this`cursorX, this`cursorY, fb
      ensures Valid() && Shown() == NewLine(g, old(rows), old(cursorY))
    {
      hide Geometry.Ok, Shows, Moved, Cleared, PixelRow;
      cursorX := 0;
      cursorY := cursorY + 1;
      if cursorY >= g.MaxY() {
        ghost var was := fb[..];
        var top := (g.MaxY() - 1) * g.fontHeight;
        ScrollBounds(g);
        MoveUp(top);
        ghost var mid := fb[..];
        Clear(top, g.fontHeight);
        ScrollShows(g, rows, was, mid, fb[..]);
        rows := rows[1..] + [BlankRow(g.MaxX())];
        cursorY := cursorY - 1;
      }
    }

    /** Spaces up to the tab width, with the room computed once. */
    method TabFb()
      requires Valid()
      modifies this`rows, this`cursorX, this`cursorY, fb
      ensures Valid() && Shown() == PutMany(g, old(Shown()), ' ' as nat, TabWidth(g, old(cursorX)))
    {
      hide Geometry.Ok, Shows, Put;
      var left := g.MaxX() - cursorX - 1;
      var spaces := if left > DEFAULT_TAB_SIZE then DEFAULT_TAB_SIZE else left;
      ghost var s := Shown();
      for i := 0 to spaces
        invariant Valid() && PutMany(g, s, ' ' as nat, spaces) == PutMany(g, Shown(), ' ' as nat, spaces - i)
      {
        PutCharFb(' ' as nat);
      }
    }

    method BackSpaceFb()
      requires Valid()
      modifies this`cursorX
      ensures Valid() && Shown() == Feed(g, old(Shown()), 8)
    {
      hide Geometry.Ok, Shows;
      if cursorX > 0 {
        cursorX := cursorX - 1;
      }
    }

    method CursorBackFb()
      requires Valid()
      modifies this`cursorX
      ensures Valid() && Shown() == old(Shown()).(x := 0)
    {
      hide Geometry.Ok, Shows;
      cursorX := 0;
    }

    /** The dispatch on the character: what the screen shows is the grid after that character. */
    method PutChar(ch: nat)
      requires Valid()
      modifies this`rows, this`cursorX, this`cursorY, fb
      ensures Valid() && Shown() == Feed(g, old(Shown()), ch)
    {
      hide Geometry.Ok, Shows;
      if ch == '\r' as nat {
        if !g.serial {
          CursorBackFb();
        }
      } else if ch == 8 {
        BackSpaceFb();
      } else if ch == '\t' as nat {
        TabFb();
      } else if ch == '\n' as nat {
        NewLineFb();
      } else {
        PutCharFb(ch);
      }
    }

    /** Every character of a string up to its terminating zero byte. */
    method PrintStr(str: seq<bv8>)
      requires Valid() && 0 in str
      modifies this`rows, this`cursorX, this`cursorY, fb
      ensures Valid() && Shown() == FeedAll(g, old(Shown()), CString(str))
    {
      hide Geometry.Ok, Shows, Feed;
      var i := 0;
      ghost var s := Shown();
      while str[i] != 0
        invariant 0 <= i < |str| && 0 in str[i..]
        invariant Valid() && FeedAll(g, s, CString(str)) == FeedAll(g, Shown(), CString(str[i..]))
        decreases |str| - i
      {
        assert str[i..][0] == str[i] && str[i..][1..] == str[i + 1..];
        PutChar(Widen(str[i]));
        i := i + 1;
      }
      assert str[i..][0] == 0;
    }

    /** A string and a new line. */
    method Puts(str: seq<bv8>)
      requires Valid() && 0 in str
      modifies this`rows, this`cursorX, this`cursorY, fb
      ensures Valid() && Shown() == FeedAll(g, old(Shown()), CString(str) + ['\n' as nat])
    {
      hide Geometry.Ok, Shows, Feed;
      ghost var s := Shown();
      PrintStr(str);
      PutChar('\n' as nat);
      FeedAllAppend(g, s, CString(str), ['\n' as nat]);
    }
  }
}
