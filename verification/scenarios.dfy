/** Worked scenarios of the sprite world: a five-pixel character cell holding
    one sprite that shows a diagonal line, pushed against zero bounds and
    turned by amounts `rotateSprite` accepts and refuses. The frames are
    described by their pixels rather than spelled out byte by byte. */
module Scenarios {
  import opened Results
  import opened Bits
  import opened Frames
  import opened Queues
  import opened LCDMap
  import opened Compositor

  /** A side-5 image with exactly the pixels `(k, k)` on. */
  ghost predicate IsDiagonal(f: Frame)
  {
    Valid(f) && f.length == 5 && forall x, y :: GetPixel(f, x, y) <==> 0 <= x < 5 && x == y
  }

  /** A blank side-5 image. */
  ghost predicate IsBlank(f: Frame)
  {
    Valid(f) && f.length == 5 && forall x, y :: !GetPixel(f, x, y)
  }

  /** Drawing `(0, 0)` .. `(4, 4)` on a blank side-5 frame gives the
      diagonal. */
  function DrawDiagonal(f: Frame): (g: Frame)
    requires IsBlank(f)
    ensures IsDiagonal(g)
  {
    var f1 := DrawPixel(f, 0, 0).state;
    var f2 := DrawPixel(f1, 1, 1).state;
    var f3 := DrawPixel(f2, 2, 2).state;
    var f4 := DrawPixel(f3, 3, 3).state;
    DrawPixel(f4, 4, 4).state
  }

  /** A 5 × 5 character cell, every bound 0, and one sprite, id 1: side 5
      at `(0, 0)`, rotation 0, one frame whose H image is `h` and whose D
      image is `d`. */
  ghost predicate DiagonalWorld(w: World, h: Frame, d: Frame)
  {
    && IsDiagonal(h) && IsBlank(d)
    && w == World(5, 5, 0, 0, 0, 0, [Entry(1, Sprite(0, 0, 0, 5, [Entry(1, h)], [Entry(1, d)]))])
  }

  /** One sprite, id 1, of side 5 at `(0, 0)` and rotation 0 in a 5 × 5 cell
      with every bound 0; its only frame, id 1, has H image `f` and D image
      `b`. */
  ghost predicate OneSprite(w: World, f: Frame, b: Frame)
  {
    w == World(5, 5, 0, 0, 0, 0, [Entry(1, Sprite(0, 0, 0, 5, [Entry(1, f)], [Entry(1, b)]))])
  }

  /** A side-5 image with exactly the pixels `(k, k)`, `k < n`, on. */
  ghost predicate DiagonalUpTo(f: Frame, n: int)
  {
    Valid(f) && f.length == 5 && forall x, y :: GetPixel(f, x, y) <==> 0 <= x < n && x == y
  }

  /** The constructor, `setBounds(0, 0, 0, 0)`, `createSprite(1, 5)` and
      `addFrame(1, 1)` give the one-sprite world with a blank H and a blank
      D image. */
  lemma BlankSpriteBuilt(w: World)
    requires w == CreateSprite(SetBounds(NewWorld(5, 5), 0, 0, 0, 0), 1, 5).state
    ensures WorldOk(w)
    ensures OneSprite(AddFrame(w, 1, 1).state, NewFrame(5), NewFrame(5)) && IsBlank(NewFrame(5))
  {
    var w0 := SetBounds(NewWorld(5, 5), 0, 0, 0, 0);
    assert w == World(5, 5, 0, 0, 0, 0, [Entry(1, Sprite(0, 0, 0, 5, [], []))]);
    var r := AddFrame(w, 1, 1);
    var b := NewFrame(5);
    assert r.ok;
    var s := r.state.sprites[0].item;
    assert SpriteOf(r.state, 1) == Some(s);
    assert s == Sprite(0, 0, 0, 5, [Entry(1, b)], [Entry(1, b)]);
    assert r.state.sprites == [Entry(1, s)];
  }

  /** Each `drawFrameH(1, 1, k, k)` on the one-sprite world extends the
      diagonal by one pixel and keeps everything else. */
  lemma DrawStep(w: World, f: Frame, b: Frame, k: int)
    requires OneSprite(w, f, b) && DiagonalUpTo(f, k) && IsBlank(b) && 0 <= k < 5
    ensures WorldOk(w)
    ensures var r := DrawFrameH(w, 1, 1, k, k);
            && r.ok && FrameOf(r.state, 1, 1, false).Some?
            && OneSprite(r.state, FrameOf(r.state, 1, 1, false).value, b)
            && DiagonalUpTo(FrameOf(r.state, 1, 1, false).value, k + 1)
  {
    assert Side(5) == 5;
    assert WorldOk(w);
    var r := DrawFrameH(w, 1, 1, k, k);
    assert FrameOf(w, 1, 1, false) == Some(f);
    var g := FrameOf(r.state, 1, 1, false).value;
    var s := r.state.sprites[0].item;
    assert SpriteOf(r.state, 1) == Some(s);
    assert s.framesH == [Entry(1, s.framesH[0].item)];
    assert s.framesD == [Entry(1, s.framesD[0].item)];
    assert FrameOf(r.state, 1, 1, true) == Some(b);
    assert s == Sprite(0, 0, 0, 5, [Entry(1, g)], [Entry(1, b)]);
    assert r.state.sprites == [Entry(1, s)];
  }

  /** The diagonal world is what the public calls build: the constructor,
      `setBounds(0, 0, 0, 0)`, `createSprite(1, 5)`, `addFrame(1, 1)`, then
      `drawFrameH(1, 1, k, k)` for `k` = 0 .. 4. */
  lemma DiagonalWorldIsBuilt(w0: World, w1: World, w2: World, w3: World, w4: World, w5: World)
    requires w0 == CreateSprite(SetBounds(NewWorld(5, 5), 0, 0, 0, 0), 1, 5).state
    requires w1 == AddFrame(w0, 1, 1).state
    requires w2 == DrawFrameH(w1, 1, 1, 0, 0).state
    requires w3 == DrawFrameH(w2, 1, 1, 1, 1).state
    requires w4 == DrawFrameH(w3, 1, 1, 2, 2).state
    requires w5 == DrawFrameH(w4, 1, 1, 3, 3).state
    ensures WorldOk(w5) && FrameOf(DrawFrameH(w5, 1, 1, 4, 4).state, 1, 1, false).Some?
    ensures var w := DrawFrameH(w5, 1, 1, 4, 4).state;
            DiagonalWorld(w, FrameOf(w, 1, 1, false).value, NewFrame(5))
  {
    BlankSpriteBuilt(w0);
    var b := NewFrame(5);
    DrawStep(w1, b, b, 0);
    DrawStep(w2, FrameOf(w2, 1, 1, false).value, b, 1);
    DrawStep(w3, FrameOf(w3, 1, 1, false).value, b, 2);
    DrawStep(w4, FrameOf(w4, 1, 1, false).value, b, 3);
    DrawStep(w5, FrameOf(w5, 1, 1, false).value, b, 4);
  }

  /** The diagonal world is well formed. */
  lemma DiagonalWorldOk(w: World, h: Frame, d: Frame)
    requires DiagonalWorld(w, h, d)
    ensures WorldOk(w)
    ensures SpriteOf(w, 1) == Some(w.sprites[0].item)
  {
    assert Side(5) == 5;
  }

  /** The diagonal sprite lights exactly the screen pixels `(k, k)`. */
  lemma DiagonalLit(w: World, h: Frame, d: Frame, px: int, py: int)
    requires DiagonalWorld(w, h, d)
    ensures WorldOk(w)
    ensures Lit(w, px, py) <==> 0 <= px < 5 && px == py
  {
    DiagonalWorldOk(w, h, d);
    var s := w.sprites[0].item;
    assert CurrentFrame(s) == Some(h);
    if Lit(w, px, py) {
      var id :| SpritePixel(w, id, px, py);
      assert id == 1;
    }
    if 0 <= px < 5 && px == py {
      assert SpritePixel(w, 1, px, py);
    }
  }

  /** The five glyph rows of a diagonal: row `i` has only bit `4 - i` set. */
  const DiagonalGlyph: seq<bv8> := [0x10, 0x08, 0x04, 0x02, 0x01]

  /** Row `i` of the cell at (0, 0) has only bit `4 - i` set: the sprite's
      diagonal, read back a row at a time, leftmost pixel most significant. */
  lemma DiagonalCell(w: World, h: Frame, d: Frame, i: int)
    requires DiagonalWorld(w, h, d) && 0 <= i < 5
    ensures WorldOk(w)
    ensures Cell(w, 0, 0)[i] == DiagonalGlyph[i]
  {
    DiagonalWorldOk(w, h, d);
    var j := 4 - i;
    forall k | 0 <= k < 8
      ensures Bit(Cell(w, 0, 0)[i], k) == Bit(Mask(j), k)
    {
      CellShowsLit(w, 0, 0, i, k);
      DiagonalLit(w, h, d, Column(w, 0, k), Row(0, i));
      MaskBits(k, j);
    }
    BitsDetermineByte(Cell(w, 0, 0)[i], Mask(j));
    GlyphRow(i, j);
  }

  lemma GlyphRow(i: int, j: int)
    requires 0 <= i < 5 && j == 4 - i
    ensures Mask(j) == DiagonalGlyph[i]
  {
    if i == 0 {
      assert Mask(4) == 0x10;
    } else if i == 1 {
      assert Mask(3) == 0x08;
    } else if i == 2 {
      assert Mask(2) == 0x04;
    } else if i == 3 {
      assert Mask(1) == 0x02;
    } else {
      assert Mask(0) == 0x01;
    }
  }

  /** Pixel `(0, 0)` of the diagonal world's first cell is lit. */
  lemma DiagonalCellNotBlank(w: World, h: Frame, d: Frame)
    requires DiagonalWorld(w, h, d)
    ensures WorldOk(w)
    // `0 * w.charWdth` and `0 * w.charHght` mirror `col * charWdth` and
    // `row * charHght` for cell (0, 0), so the terms match ReadCharacter's contract.
    ensures !forall i, k :: 0 <= i < w.charHght && 0 <= k < 8 && k < w.charWdth
                            ==> !Lit(w, Column(w, 0 * w.charWdth, k), Row(0 * w.charHght, i))
  {
    DiagonalLit(w, h, d, Column(w, 0 * w.charWdth, 4), Row(0 * w.charHght, 0));
  }

  /** `readCharacter(0, 0)` on the diagonal world returns the diagonal as
      five glyph rows. */
  method DiagonalCharacter(w: World, h: Frame, d: Frame) returns (character: Option<seq<bv8>>)
    requires DiagonalWorld(w, h, d)
    ensures character == Some(DiagonalGlyph)
  {
    DiagonalWorldOk(w, h, d);
    var rows := Cell(w, 0, 0);
    forall i | 0 <= i < 5
      ensures rows[i] == DiagonalGlyph[i]
    {
      DiagonalCell(w, h, d, i);
    }
    assert rows == DiagonalGlyph;
    DiagonalCellNotBlank(w, h, d);
    var w';
    character, w' := ReadCharacter(w, 0, 0);
    // The cell at `(col * charWdth, row * charHght)` for column and row 0.
    assert Cell(w, 0 * w.charWdth, 0 * w.charHght) == rows;
  }

  /** With every bound 0, a side-5 sprite at (0, 0) fills the 5-pixel cell:
      a push of 10 either way is clamped to nothing. */
  lemma ShiftIsClamped(w: World, h: Frame, d: Frame)
    requires DiagonalWorld(w, h, d)
    ensures ShiftSprite(w, 1, 10, 0) == w
    ensures ShiftSprite(w, 1, -10, 0) == w
    ensures ShiftSprite(w, 1, 0, 10) == w
    ensures ShiftSprite(w, 1, 0, -10) == w
  {
    DiagonalWorldOk(w, h, d);
    var s := w.sprites[0].item;
    assert Shifted(w, s, 10, 0) == s;
    assert Shifted(w, s, -10, 0) == s;
    assert Shifted(w, s, 0, 10) == s;
    assert Shifted(w, s, 0, -10) == s;
  }

  /** A turn by 10 degrees is refused; a turn by 405 from 0 lands on 45,
      which switches the sprite to its D frames. */
  lemma TurnExamples(w: World, h: Frame, d: Frame)
    requires DiagonalWorld(w, h, d)
    ensures RotateSprite(w, 1, 10) == w
    ensures SpriteOf(RotateSprite(w, 1, 405), 1) == Some(w.sprites[0].item.(rotation := 45))
  {
    DiagonalWorldOk(w, h, d);
    assert Turned(0, 405) == 45;
  }
}
