/** The compile-time bitmap font (src/font.rs).

    A glyph is drawn as eight text rows; `char` packs it column-major into six
    bytes, one per column, where bit r of column byte c is set exactly when
    byte c of row r is not an ASCII space. */
module Font {

  /** A byte of glyph art or of the packed glyph (`u8`). */
  type Byte = bv8

  datatype Option<T> = None | Some(value: T)

  /** `' ' as u8`: the only byte that leaves a pixel off. */
  const Space: Byte := 0x20

  /** Any byte other than a space marks a pixel as on. */
  predicate Marked(b: Byte) {
    b != Space
  }

  /** Bit i of b, counting from the least significant bit. */
  predicate Bit(b: Byte, i: nat)
    requires i < 8
  {
    (b >> i) & 1 == 1
  }

  /** Every one of the eight rows has the six bytes the builder indexes. */
  predicate Wide(rows: seq<seq<Byte>>)
    requires |rows| == 8
  {
    forall r :: 0 <= r < 8 ==> |rows[r]| >= 6
  }

  /** The per-bit specification of a packed glyph: six column bytes, and bit r
      of column c is on exactly when byte c of row r is marked. */
  ghost predicate Encodes(g: seq<Byte>, rows: seq<seq<Byte>>)
    requires |rows| == 8 && Wide(rows)
  {
    |g| == 6 &&
    forall c, r :: 0 <= c < 6 && 0 <= r < 8 ==> (Bit(g[c], r) <==> Marked(rows[r][c]))
  }

  /** Column byte c accumulated over rows 0 .. n-1: the value `column_byte`
      holds after the inner loop has visited n rows. */
  function Column(rows: seq<seq<Byte>>, c: nat, n: nat): Byte
    requires n <= |rows| && n <= 8
    requires forall r :: 0 <= r < n ==> c < |rows[r]|
  {
    if n == 0 then 0
    else Column(rows, c, n - 1) | (if Marked(rows[n - 1][c]) then (1 as Byte) << (n - 1) else 0)
  }

  /** The six column bytes of a glyph. */
  function Glyph(rows: seq<seq<Byte>>): (g: seq<Byte>)
    requires |rows| == 8 && Wide(rows)
    ensures |g| == 6
  {
    seq(6, c requires 0 <= c < 6 => Column(rows, c, 8))
  }

  /** Bit r of the accumulated column byte is on exactly when row r has been
      visited and its byte c is marked. */
  lemma {:induction false} ColumnBits(rows: seq<seq<Byte>>, c: nat, n: nat, r: nat)
    requires n <= |rows| && n <= 8
    requires forall k :: 0 <= k < n ==> c < |rows[k]|
    requires r < 8
    ensures Bit(Column(rows, c, n), r) <==> r < n && Marked(rows[r][c])
  {
    if n > 0 {
      var prev := Column(rows, c, n - 1);
      ColumnBits(rows, c, n - 1, r);
      if Marked(rows[n - 1][c]) {
        assert Column(rows, c, n) == prev | ((1 as Byte) << (n - 1));
        BitOfOr(prev, n - 1, r);
      } else {
        assert Column(rows, c, n) == prev;
      }
    }
  }

  /** Setting bit k of a byte adds bit k and changes no other bit. */
  lemma BitOfOr(b: Byte, k: nat, i: nat)
    requires k < 8 && i < 8
    ensures Bit(b | ((1 as Byte) << k), i) <==> Bit(b, i) || i == k
  {
    if i == k {
      assert ((b | ((1 as Byte) << k)) >> i) & 1 == 1;
    } else {
      assert (((1 as Byte) << k) >> i) & 1 == 0;
    }
  }

  /** Visiting more rows only ever adds bits to a column byte (`|=`). */
  lemma {:induction false} ColumnGrows(rows: seq<seq<Byte>>, c: nat, n: nat, m: nat)
    requires n <= m <= |rows| && m <= 8
    requires forall k :: 0 <= k < m ==> c < |rows[k]|
    ensures Column(rows, c, n) & Column(rows, c, m) == Column(rows, c, n)
  {
    if n < m {
      ColumnGrows(rows, c, n, m - 1);
    }
  }

  /** A column byte depends only on which of the bytes in that column are
      marked: two columns, of the same or different art, with the same
      marked/blank pattern give the same byte. */
  lemma {:induction false} ColumnSameMarks(rows: seq<seq<Byte>>, c: nat, rows': seq<seq<Byte>>, c': nat, n: nat)
    requires n <= |rows| && n <= |rows'| && n <= 8
    requires forall k :: 0 <= k < n ==> c < |rows[k]| && c' < |rows'[k]|
    requires forall k :: 0 <= k < n ==> (Marked(rows[k][c]) <==> Marked(rows'[k][c']))
    ensures Column(rows, c, n) == Column(rows', c', n)
  {
    if n > 0 {
      ColumnSameMarks(rows, c, rows', c', n - 1);
    }
  }

  /** Two bytes with the same eight bits are equal. */
  lemma SameBits(x: Byte, y: Byte)
    requires forall i :: 0 <= i < 8 ==> (Bit(x, i) <==> Bit(y, i))
    ensures x == y
  {
    assert Bit(x, 0) == Bit(y, 0) && Bit(x, 1) == Bit(y, 1);
    assert Bit(x, 2) == Bit(y, 2) && Bit(x, 3) == Bit(y, 3);
    assert Bit(x, 4) == Bit(y, 4) && Bit(x, 5) == Bit(y, 5);
    assert Bit(x, 6) == Bit(y, 6) && Bit(x, 7) == Bit(y, 7);
  }

  /** The packed glyph is exactly the one the per-bit specification describes:
      Glyph meets it, and nothing else does. */
  lemma GlyphEncodes(rows: seq<seq<Byte>>, g: seq<Byte>)
    requires |rows| == 8 && Wide(rows)
    ensures Encodes(g, rows) <==> g == Glyph(rows)
  {
    var G := Glyph(rows);
    forall c, r | 0 <= c < 6 && 0 <= r < 8
      ensures Bit(G[c], r) <==> Marked(rows[r][c])
    {
      ColumnBits(rows, c, 8, r);
    }
    if Encodes(g, rows) {
      forall c | 0 <= c < 6
        ensures g[c] == G[c]
      {
        forall i | 0 <= i < 8
          ensures Bit(g[c], i) <==> Bit(G[c], i)
        {
          assert Bit(g[c], i) <==> Marked(rows[i][c]);
        }
        SameBits(g[c], G[c]);
      }
    }
  }

  /** Only the first six bytes of each row are read, and only whether each is
      a space matters: art with the same marked/blank pattern in columns 0..5
      gives the same glyph, whatever the marks are and whatever follows. */
  lemma GlyphSameMarks(rows: seq<seq<Byte>>, rows': seq<seq<Byte>>)
    requires |rows| == 8 && Wide(rows) && |rows'| == 8 && Wide(rows')
    requires forall r, c :: 0 <= r < 8 && 0 <= c < 6 ==> (Marked(rows[r][c]) <==> Marked(rows'[r][c]))
    ensures Glyph(rows) == Glyph(rows')
  {
    forall c | 0 <= c < 6
      ensures Glyph(rows)[c] == Glyph(rows')[c]
    {
      ColumnSameMarks(rows, c, rows', c, 8);
    }
  }

  /** Eight blank rows give six zero bytes. */
  lemma BlankGlyph(rows: seq<seq<Byte>>)
    requires |rows| == 8 && Wide(rows)
    requires forall r, c :: 0 <= r < 8 && 0 <= c < 6 ==> rows[r][c] == Space
    ensures Glyph(rows) == [0, 0, 0, 0, 0, 0]
  {
    forall c | 0 <= c < 6
      ensures Glyph(rows)[c] == 0
    {
      forall i | 0 <= i < 8
        ensures Bit(Glyph(rows)[c], i) <==> Bit(0, i)
      {
        ColumnBits(rows, c, 8, i);
      }
      SameBits(Glyph(rows)[c], 0);
    }
  }

  /** `char`: packs eight rows of art into six column bytes with two nested
      loops over a local six-byte buffer. Indexing a row shorter than six
      bytes panics (a compile-time error for a `const fn`); that is `None`. */
  method BuildChar(rows: seq<seq<Byte>>) returns (r: Option<seq<Byte>>)
    requires |rows| == 8
    ensures r.Some? <==> Wide(rows)
    ensures r.Some? ==> r.value == Glyph(rows) && Encodes(r.value, rows)
  {
    var columnBytes := new Byte[6](_ => 0);
    var col := 0;
    while col < 6
      invariant 0 <= col <= 6
      invariant forall k :: 0 <= k < 8 ==> |rows[k]| >= col
      invariant forall c :: 0 <= c < col ==> columnBytes[c] == Column(rows, c, 8)
    {
      var columnByte: Byte := 0;
      var row := 0;
      while row < 8
        invariant 0 <= row <= 8
        invariant forall k :: 0 <= k < row ==> |rows[k]| > col
        invariant columnByte == Column(rows, col, row)
      {
        if col >= |rows[row]| {
          return None;
        }
        if rows[row][col] != Space {
          assert Column(rows, col, row + 1) == columnByte | ((1 as Byte) << row);
          columnByte := columnByte | ((1 as Byte) << row);
        } else {
          assert Column(rows, col, row + 1) == columnByte;
        }
        row := row + 1;
      }
      columnBytes[col] := columnByte;
      col := col + 1;
    }
    assert columnBytes[..] == Glyph(rows);
    GlyphEncodes(rows, columnBytes[..]);
    return Some(columnBytes[..]);
  }

  /** The bytes of an ASCII string (`as_bytes`; UTF-8 is the identity on ASCII). */
  function Ascii(s: string): (b: seq<Byte>)
    requires forall i :: 0 <= i < |s| ==> s[i] < 128 as char
    ensures |b| == |s|
  {
    seq(|s|, i requires 0 <= i < |s| => (s[i] as int) as Byte)
  }

  /** Glyph art as written in the source: eight rows of six ASCII characters. */
  function Art(text: seq<string>): (rows: seq<seq<Byte>>)
    requires |text| == 8
    requires forall r :: 0 <= r < 8 ==> |text[r]| == 6
    requires forall r, i :: 0 <= r < 8 && 0 <= i < |text[r]| ==> text[r][i] < 128 as char
    ensures |rows| == 8 && Wide(rows)
  {
    seq(8, r requires 0 <= r < 8 => Ascii(text[r]))
  }

  const BlankArt: seq<string> := [
    "      ",
    "      ",
    "      ",
    "      ",
    "      ",
    "      ",
    "      ",
    "      "]

  const LetterAArt: seq<string> := [
    "  #   ",
    " # #  ",
    "#   # ",
    "#   # ",
    "##### ",
    "#   # ",
    "#   # ",
    "      "]

  const LetterBArt: seq<string> := [
    "####  ",
    "#   # ",
    "#   # ",
    "####  ",
    "#   # ",
    "#   # ",
    "####  ",
    "      "]

  const LetterCArt: seq<string> := [
    " ###  ",
    "#   # ",
    "#     ",
    "#     ",
    "#     ",
    "#   # ",
    " ###  ",
    "      "]

  /** `FONT`: the glyph table, glyph 0 blank, then the letters A, B and C. */
  const FONT: seq<seq<Byte>> := [Glyph(Art(BlankArt)), Glyph(Art(LetterAArt)), Glyph(Art(LetterBArt)), Glyph(Art(LetterCArt))]

  /** A pixel of the art is marked exactly when its character is not a space. */
  lemma ArtMarked(text: seq<string>, r: nat, c: nat)
    requires |text| == 8
    requires forall k :: 0 <= k < 8 ==> |text[k]| == 6
    requires forall k, i :: 0 <= k < 8 && 0 <= i < |text[k]| ==> text[k][i] < 128 as char
    requires r < 8 && c < 6
    ensures Marked(Art(text)[r][c]) <==> text[r][c] != ' '
  {
    assert Art(text)[r] == Ascii(text[r]);
    assert Art(text)[r][c] == (text[r][c] as int) as Byte;
  }

  /** A packed glyph's column bytes, given bit by bit as the art dictates. */
  lemma GlyphIs(text: seq<string>, g: seq<Byte>)
    requires |text| == 8
    requires forall r :: 0 <= r < 8 ==> |text[r]| == 6
    requires forall r, i :: 0 <= r < 8 && 0 <= i < |text[r]| ==> text[r][i] < 128 as char
    requires |g| == 6
    requires forall c, r :: 0 <= c < 6 && 0 <= r < 8 ==> (Bit(g[c], r) <==> text[r][c] != ' ')
    ensures Glyph(Art(text)) == g
  {
    var rows := Art(text);
    forall c, r | 0 <= c < 6 && 0 <= r < 8
      ensures Bit(g[c], r) <==> Marked(rows[r][c])
    {
      ArtMarked(text, r, c);
    }
    GlyphEncodes(rows, g);
  }

  /** Glyph 0 is blank: six zero bytes. */
  lemma FontBlank()
    ensures FONT[0] == [0x00, 0x00, 0x00, 0x00, 0x00, 0x00]
  {
    GlyphIs(BlankArt, [0x00, 0x00, 0x00, 0x00, 0x00, 0x00]);
  }

  /** Glyph 1, the letter A. */
  lemma FontLetterA()
    ensures FONT[1] == [0x7C, 0x12, 0x11, 0x12, 0x7C, 0x00]
  {
    GlyphIs(LetterAArt, [0x7C, 0x12, 0x11, 0x12, 0x7C, 0x00]);
  }

  /** Glyph 2, the letter B. */
  lemma FontLetterB()
    ensures FONT[2] == [0x7F, 0x49, 0x49, 0x49, 0x36, 0x00]
  {
    GlyphIs(LetterBArt, [0x7F, 0x49, 0x49, 0x49, 0x36, 0x00]);
  }

  /** Glyph 3, the letter C. */
  lemma FontLetterC()
    ensures FONT[3] == [0x3E, 0x41, 0x41, 0x41, 0x22, 0x00]
  {
    GlyphIs(LetterCArt, [0x3E, 0x41, 0x41, 0x41, 0x22, 0x00]);
  }

  /** The four glyphs of `FONT`, byte by byte. */
  lemma FontTable()
    ensures FONT == [
      [0x00, 0x00, 0x00, 0x00, 0x00, 0x00],
      [0x7C, 0x12, 0x11, 0x12, 0x7C, 0x00],
      [0x7F, 0x49, 0x49, 0x49, 0x36, 0x00],
      [0x3E, 0x41, 0x41, 0x41, 0x22, 0x00]]
  {
    FontBlank();
    FontLetterA();
    FontLetterB();
    FontLetterC();
  }

  /** Every glyph leaves row 7 and column 5 blank: bit 7 is clear in every
      column byte and the last column byte is zero. */
  lemma FontBlankEdges()
    ensures |FONT| == 4
    ensures forall g, c :: 0 <= g < 4 && 0 <= c < 6 ==> |FONT[g]| == 6 && !Bit(FONT[g][c], 7)
    ensures forall g :: 0 <= g < 4 ==> FONT[g][5] == 0
  {
    FontTable();
  }

  /** `FONT` as the firmware builds it: `char` applied to each glyph's art. */
  method BuildFont() returns (font: seq<seq<Byte>>)
    ensures font == FONT
  {
    var blank := BuildChar(Art(BlankArt));
    var letterA := BuildChar(Art(LetterAArt));
    var letterB := BuildChar(Art(LetterBArt));
    var letterC := BuildChar(Art(LetterCArt));
    font := [blank.value, letterA.value, letterB.value, letterC.value];
  }
}
