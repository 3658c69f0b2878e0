/** The per-cell compositor of the sprite world: for one character cell it
    visits every sprite once, picks the frame and reading direction the
    sprite's rotation calls for, extracts the frame line under each pixel row
    of the cell and slices out the bits that fall inside the cell. */
module Compositor {
  import opened Results
  import opened Bits
  import opened Frames
  import opened Queues
  import opened LCDMap

  /** Whether rows (else columns) are read, whether along the line forwards
      (else backwards), and the frame read. */
  datatype Selection = Selection(readRow: bool, forward: bool, frame: Frame)

  /** The rotation is one of the four diagonal ones, drawn from the D frames. */
  predicate Diagonal(rotation: int)
  {
    rotation % 90 == 45
  }

  /** The frame the sprite currently shows for its rotation style. */
  function CurrentFrame(s: Sprite): Option<Frame>
  {
    Get(if Diagonal(s.rotation) then s.framesD else s.framesH)
  }

  function Pick(readRow: bool, forward: bool, frame: Option<Frame>): Option<Selection>
  {
    if frame.None? then None else Some(Selection(readRow, forward, frame.value))
  }

  /** `selectFrame`: the fixed table from rotation to (row or column,
      direction, H or D queue). Described independently: with `q` the number
      of quarter turns, rows are read when `q` is even, forwards when `q` is
      0 or 3, and the D frames serve the odd multiples of 45. */
  function SelectFrame(w: World, id: Id): (r: Option<Selection>)
    ensures r.Some? ==> SpriteOf(w, id).Some? && ValidRotation(SpriteOf(w, id).value.rotation)
    ensures r.Some? ==> var s := SpriteOf(w, id).value; var q := s.rotation / 90;
                        && CurrentFrame(s) == Some(r.value.frame)
                        && r.value.readRow == (q % 2 == 0)
                        && r.value.forward == (q == 0 || q == 3)
    ensures r.None? ==> SpriteOf(w, id).None? || !ValidRotation(SpriteOf(w, id).value.rotation)
                        || CurrentFrame(SpriteOf(w, id).value).None?
  {
    var s := SpriteOf(w, id);
    if s.None? then None
    else
      var sp := s.value;
      match sp.rotation
      case 0 => Pick(true, true, Get(sp.framesH))
      case 45 => Pick(true, true, Get(sp.framesD))
      case 90 => Pick(false, false, Get(sp.framesH))
      case 135 => Pick(false, false, Get(sp.framesD))
      case 180 => Pick(true, false, Get(sp.framesH))
      case 225 => Pick(true, false, Get(sp.framesD))
      case 270 => Pick(false, true, Get(sp.framesH))
      case 315 => Pick(false, true, Get(sp.framesD))
      case _ => None
  }

  /** `getLineNumber`: which row or column of the frame lies under screen
      line `charY`, given the sprite's coordinate `spriteY` on that axis. */
  function LineNumber(line: bool, direction: bool, spriteY: int, charY: int, spriteSize: int): (lineNum: int)
    ensures 0 <= lineNum < spriteSize <==> spriteY <= charY < spriteY + spriteSize
  {
    if (line && direction) || (!line && !direction) then charY - spriteY
    else spriteY + spriteSize - 1 - charY
  }

  /** `getStartPosition`: where along the line reading starts for screen
      coordinate `charX`, given the sprite's coordinate `spriteX`. */
  function StartPosition(direction: bool, spriteX: int, charX: int, spriteSize: int): (start: int)
    ensures 0 <= start < spriteSize <==> spriteX <= charX < spriteX + spriteSize
  {
    if direction then charX - spriteX else spriteX + spriteSize - 1 - charX
  }

  /** The line bit the `i`-th step of `readBytePiece` copies: index
      `start ± i`, when that lies in `[0, length)`. */
  predicate PieceBit(forward: bool, start: int, bytes: seq<bv8>, length: int, i: int)
    requires length <= 8 * |bytes|
  {
    var from := StepIndex(forward, start, i);
    0 <= from < length && BitAt(bytes, from)
  }

  /** `startPos + dir * i` with `dir` the step, 1 forwards and -1 backwards. */
  function StepIndex(forward: bool, start: int, i: int): (from: int)
    ensures from == if forward then start + i else start - i
  {
    var dir := if forward then 1 else -1;
    start + dir * i
  }

  /** `((bit) << to)` stored into an unsigned char: positions past the
      eighth bit are lost. */
  function Place(bit: bv8, to: int): (r: bv8)
    requires 0 <= to
    ensures forall k :: 0 <= k < 8 ==> Bit(r, k) == (k == to && bit == 1)
  {
    if to < 8 && bit == 1 then Mask(to) else 0
  }

  /** The output byte of `readBytePiece` after its loop has run steps
      `0 .. n-1`: step `i` puts its bit at position `charWdth - 1 - i`. */
  function Piece(charWdth: int, forward: bool, start: int, bytes: seq<bv8>, length: int, n: int): (row: bv8)
    requires length <= 8 * |bytes|
    requires 0 <= n && (n == 0 || n <= charWdth)
    ensures forall k :: 0 <= k < 8 ==>
              Bit(row, k) == (0 <= charWdth - 1 - k < n && PieceBit(forward, start, bytes, length, charWdth - 1 - k))
    decreases n
  {
    if n == 0 then 0
    else
      var row := Piece(charWdth, forward, start, bytes, length, n - 1);
      var i := n - 1;
      var from := StepIndex(forward, start, i);
      CopiedBit(forward, start, bytes, length, i, from);
      if from >= 0 && from < length then
        var to := charWdth - i - 1;
        var index := from / 8;
        var shift := 7 - from % 8;
        assert 0 <= index < |bytes|;
        var bit := (bytes[index] >> shift) & 1;
        PlacedBit(bit, to, charWdth, n, forward, start, bytes, length);
        PieceStep(row, Place(bit, to), row | Place(bit, to), charWdth, n, forward, start, bytes, length);
        row | Place(bit, to)
      else
        PieceStep(row, 0, row, charWdth, n, forward, start, bytes, length);
        row
  }

  /** The bit step `i` of `readBytePiece` extracts from the line. */
  lemma CopiedBit(forward: bool, start: int, bytes: seq<bv8>, length: int, i: int, from: int)
    requires length <= 8 * |bytes|
    requires from == StepIndex(forward, start, i)
    ensures 0 <= from < length ==>
              (((bytes[from / 8] >> (7 - from % 8)) & 1 == 1) <==> PieceBit(forward, start, bytes, length, i))
    ensures !(0 <= from < length) ==> !PieceBit(forward, start, bytes, length, i)
  {
    if 0 <= from < length {
      ShiftedBit(bytes[from / 8], 7 - from % 8);
    }
  }

  /** The bit step `n - 1` copies lands at output position `charWdth - n`. */
  lemma PlacedBit(bit: bv8, to: int, charWdth: int, n: int,
                  forward: bool, start: int, bytes: seq<bv8>, length: int)
    requires length <= 8 * |bytes|
    requires 1 <= n <= charWdth && to == charWdth - n
    requires (bit == 1) == PieceBit(forward, start, bytes, length, n - 1)
    ensures forall k :: 0 <= k < 8 ==>
              Bit(Place(bit, to), k) == (k == charWdth - n && PieceBit(forward, start, bytes, length, n - 1))
  {
  }

  /** One step of the `readBytePiece` loop: or-ing in the bit of step
      `n - 1` at its position extends the description to `n` steps. */
  lemma PieceStep(row: bv8, p: bv8, r: bv8, charWdth: int, n: int,
                  forward: bool, start: int, bytes: seq<bv8>, length: int)
    requires length <= 8 * |bytes|
    requires 1 <= n <= charWdth && r == row | p
    requires forall k :: 0 <= k < 8 ==>
               Bit(row, k) == (0 <= charWdth - 1 - k < n - 1 && PieceBit(forward, start, bytes, length, charWdth - 1 - k))
    requires forall k :: 0 <= k < 8 ==>
               Bit(p, k) == (k == charWdth - n && PieceBit(forward, start, bytes, length, n - 1))
    ensures forall k :: 0 <= k < 8 ==>
              Bit(r, k) == (0 <= charWdth - 1 - k < n && PieceBit(forward, start, bytes, length, charWdth - 1 - k))
  {
    BitOr(row, p);
    forall k | 0 <= k < 8
      ensures Bit(r, k) == (0 <= charWdth - 1 - k < n && PieceBit(forward, start, bytes, length, charWdth - 1 - k))
    {
      assert Bit(r, k) == (Bit(row, k) || Bit(p, k));
      if k == charWdth - n {
        assert !Bit(row, k);
      } else {
        assert !Bit(p, k);
      }
    }
  }

  /** `readBytePiece`: zero for a null line; otherwise output bit
      `charWdth - 1 - i` is line bit `start ± i` when that index lies in
      `[0, length)`, and every other bit is zero. The source reads
      `arr[from / 8]` unchecked, so `length` must fit the line. */
  function ReadBytePiece(charWdth: int, direction: bool, startPos: int, arr: Option<seq<bv8>>, length: int): (r: bv8)
    requires arr.Some? ==> length <= 8 * |arr.value|
    ensures arr.None? ==> r == 0
    ensures arr.Some? ==> forall k :: 0 <= k < 8 ==>
              Bit(r, k) == (0 <= charWdth - 1 - k && PieceBit(direction, startPos, arr.value, length, charWdth - 1 - k))
  {
    if arr.None? then 0
    else
      var steps := if charWdth < 0 then 0 else charWdth;
      FullPiece(charWdth, direction, startPos, arr.value, length, steps);
      Piece(charWdth, direction, startPos, arr.value, length, steps)
  }

  /** After all `charWdth` steps every in-cell output bit has been visited. */
  lemma FullPiece(charWdth: int, forward: bool, start: int, bytes: seq<bv8>, length: int, steps: int)
    requires length <= 8 * |bytes| && steps == if charWdth < 0 then 0 else charWdth
    ensures forall k :: 0 <= k < 8 ==>
              Bit(Piece(charWdth, forward, start, bytes, length, steps), k)
              == (0 <= charWdth - 1 - k && PieceBit(forward, start, bytes, length, charWdth - 1 - k))
  {
  }

  /** Called with the sprite's size as `length`, `readBytePiece` never reads
      past the line `getRow`/`getCol` returned for the sprite's frame. */
  lemma SpriteSizeFitsLine(size: int)
    ensures size <= 8 * LineBytes(Side(size))
  {
    StorageIsCeiling(Side(size));
  }

  /** The frame a sprite of a well-formed world currently shows is a valid
      image of the sprite's side. */
  lemma CurrentFrameFits(w: World, id: Id)
    requires WorldOk(w) && SpriteOf(w, id).Some? && CurrentFrame(SpriteOf(w, id).value).Some?
    ensures Valid(CurrentFrame(SpriteOf(w, id).value).value)
    ensures CurrentFrame(SpriteOf(w, id).value).value.length == Side(SpriteOf(w, id).value.size)
  {
    var s := SpriteOf(w, id).value;
    SpriteOfOk(w, id);
    var q := if Diagonal(s.rotation) then s.framesD else s.framesH;
    assert q[0].item == CurrentFrame(s).value;
  }

  /** The selected frame is a valid image of the sprite's side. */
  lemma SelectedFrameFits(w: World, id: Id)
    requires WorldOk(w) && SelectFrame(w, id).Some?
    ensures Valid(SelectFrame(w, id).value.frame)
    ensures SelectFrame(w, id).value.frame.length == Side(SpriteOf(w, id).value.size)
  {
    CurrentFrameFits(w, id);
  }

  /** `readSprite`: the glyph row sprite `id` contributes to the cell row
      whose leftmost screen pixel is `(posX, posY)`. Zero when the sprite or
      its frame is missing. */
  function ReadSprite(w: World, id: Id, posX: int, posY: int): bv8
    requires WorldOk(w)
  {
    var sel := SelectFrame(w, id);
    if sel.None? then 0
    else
      SelectedFrameFits(w, id);
      ReadSelected(w.charWdth, sel.value, SpriteOf(w, id).value, posX, posY)
  }

  /** The rest of `readSprite` once the frame is selected: fetch the frame
      line under `posY` and slice the bits under the cell out of it. Zero
      when the line is out of the frame. */
  function ReadSelected(charWdth: int, sel: Selection, s: Sprite, posX: int, posY: int): bv8
    requires Valid(sel.frame) && sel.frame.length == Side(s.size)
  {
    var lineNum := LineNumber(sel.readRow, sel.forward, s.y, posY, s.size);
    var frameLine := if sel.readRow then GetRow(sel.frame, lineNum) else GetCol(sel.frame, lineNum);
    if frameLine.None? then 0
    else
      var readStart := StartPosition(sel.forward, s.x, posX, s.size);
      SpriteSizeFitsLine(s.size);
      ReadBytePiece(charWdth, sel.forward, readStart, frameLine, s.size)
  }

  /** The frame pixel a clockwise turn by `quarter` right angles carries to
      offset `(u, v)` of a box of side `size`. */
  function SourcePixel(quarter: int, size: int, u: int, v: int): (int, int)
  {
    if quarter == 0 then (u, v)
    else if quarter == 1 then (v, size - 1 - u)
    else if quarter == 2 then (size - 1 - u, size - 1 - v)
    else (size - 1 - v, u)
  }

  /** Whether a frame of side `size`, turned clockwise by `quarter` right
      angles, lights offset `(u, v)` of its box. */
  predicate TurnedPixel(f: Frame, quarter: int, size: int, u: int, v: int)
    requires Valid(f)
  {
    var pixel := SourcePixel(quarter, size, u, v);
    0 <= u < size && 0 <= v < size && GetPixel(f, pixel.0, pixel.1)
  }

  /** Whether sprite `id` lights screen pixel `(px, py)`: the pixel lies in
      the sprite's box and the pixel of its current frame that the rotation
      carries there is on. */
  predicate SpritePixel(w: World, id: Id, px: int, py: int)
    requires WorldOk(w)
  {
    var s := SpriteOf(w, id);
    && s.Some?
    && CurrentFrame(s.value).Some?
    && (CurrentFrameFits(w, id);
        TurnedPixel(CurrentFrame(s.value).value, s.value.rotation / 90, s.value.size, px - s.value.x, py - s.value.y))
  }

  /** The screen column output bit `k` of a glyph row starting at `posX`
      covers: bit `charWdth - 1` is the leftmost. */
  function Column(w: World, posX: int, k: int): int
  {
    posX + (w.charWdth - 1 - k)
  }

  /** The geometry of `readSprite`: bit `charWdth - 1 - i` of the row it
      returns is lit exactly when the sprite lights screen pixel
      `(posX + i, posY)` — the frame line, reading direction and start index
      it derives from the rotation carry the current frame onto the screen
      turned by the sprite's rotation. Bits above the cell width are zero. */
  lemma ReadSpriteShowsRotatedFrame(w: World, id: Id, posX: int, posY: int)
    requires WorldOk(w)
    ensures forall k :: 0 <= k < 8 ==>
              Bit(ReadSprite(w, id, posX, posY), k)
              == (k < w.charWdth && SpritePixel(w, id, Column(w, posX, k), posY))
  {
    forall k | 0 <= k < 8
      ensures Bit(ReadSprite(w, id, posX, posY), k)
              == (k < w.charWdth && SpritePixel(w, id, Column(w, posX, k), posY))
    {
      ReadSpriteBitAt(w, id, posX, posY, k);
    }
  }

  /** `ReadSpriteShowsRotatedFrame` for output bit `k`. */
  lemma ReadSpriteBitAt(w: World, id: Id, posX: int, posY: int, k: int)
    requires WorldOk(w) && 0 <= k < 8
    ensures Bit(ReadSprite(w, id, posX, posY), k)
            == (k < w.charWdth && SpritePixel(w, id, Column(w, posX, k), posY))
  {
    if SelectFrame(w, id).None? {
      NothingSelected(w, id, posX, posY, k);
    } else if k < w.charWdth {
      ReadSpriteBit(w, id, posX, posY, k, Column(w, posX, k), SpriteOf(w, id).value, SelectFrame(w, id).value);
    } else {
      ReadSpriteHighBit(w, id, posX, posY, k);
    }
  }

  /** A sprite without a selected frame lights no pixel. */
  lemma NothingSelected(w: World, id: Id, posX: int, posY: int, k: int)
    requires WorldOk(w) && SelectFrame(w, id).None? && 0 <= k < 8
    ensures !Bit(ReadSprite(w, id, posX, posY), k)
    ensures !SpritePixel(w, id, Column(w, posX, k), posY)
    ensures Bit(ReadSprite(w, id, posX, posY), k)
            == (k < w.charWdth && SpritePixel(w, id, Column(w, posX, k), posY))
  {
    if SpriteOf(w, id).Some? {
      SpriteOfOk(w, id);
    }
  }

  /** Bits at or above the cell width stay zero. */
  lemma ReadSpriteHighBit(w: World, id: Id, posX: int, posY: int, k: int)
    requires WorldOk(w) && SelectFrame(w, id).Some?
    requires 0 <= k < 8 && w.charWdth <= k
    ensures !Bit(ReadSprite(w, id, posX, posY), k)
  {
    var s := SpriteOf(w, id).value;
    var sel := SelectFrame(w, id).value;
    SelectedFrameFits(w, id);
    ReadSpriteSelected(w, id, posX, posY, s, sel);
  }

  /** The line pixel the `i`-th step of `readSprite` copies for sprite `s`
      under selection `sel`: pixel `start ± i` of line `lineNum`, when that
      lies within the sprite's size. */
  predicate LineBit(sel: Selection, s: Sprite, posX: int, posY: int, i: int)
    requires Valid(sel.frame)
  {
    var lineNum := LineNumber(sel.readRow, sel.forward, s.y, posY, s.size);
    var start := StartPosition(sel.forward, s.x, posX, s.size);
    var from := StepIndex(sel.forward, start, i);
    0 <= from < s.size && LinePixel(sel.frame, sel.readRow, lineNum, from)
  }

  /** One bit of `ReadSpriteShowsRotatedFrame`, for a sprite whose frame
      is selected: bit `k` is screen pixel `px`. */
  lemma ReadSpriteBit(w: World, id: Id, posX: int, posY: int, k: int, px: int, s: Sprite, sel: Selection)
    requires WorldOk(w) && SpriteOf(w, id) == Some(s) && SelectFrame(w, id) == Some(sel)
    requires 0 <= k < 8 && k < w.charWdth && px == Column(w, posX, k)
    ensures Bit(ReadSprite(w, id, posX, posY), k) == SpritePixel(w, id, px, posY)
  {
    var i := w.charWdth - 1 - k;
    var u := px - s.x;
    var v := posY - s.y;
    SelectedFrameFits(w, id);
    TurnGeometry(sel, s, posX, posY, i, u, v);
    SpritePixelOfFrame(w, id, px, posY, s, sel.frame, u, v);
    ReadSpriteIsLine(w, id, posX, posY, k, i, s, sel);
  }

  /** Bit `k` of `readSprite` is the line pixel `LineBit` names for the
      selected frame and step `charWdth - 1 - k`. */
  lemma ReadSpriteIsLine(w: World, id: Id, posX: int, posY: int, k: int, i: int, s: Sprite, sel: Selection)
    requires WorldOk(w) && SpriteOf(w, id) == Some(s) && SelectFrame(w, id) == Some(sel)
    requires 0 <= k < 8 && k < w.charWdth && i == w.charWdth - 1 - k
    requires Valid(sel.frame) && sel.frame.length == Side(s.size)
    ensures Bit(ReadSprite(w, id, posX, posY), k) == LineBit(sel, s, posX, posY, i)
  {
    ReadSpriteSelected(w, id, posX, posY, s, sel);
    ReadSelectedBit(w.charWdth, sel, s, posX, posY, k, i);
  }

  /** Once the frame is selected, `readSprite` is `ReadSelected`. */
  lemma ReadSpriteSelected(w: World, id: Id, posX: int, posY: int, s: Sprite, sel: Selection)
    requires WorldOk(w) && SpriteOf(w, id) == Some(s) && SelectFrame(w, id) == Some(sel)
    requires Valid(sel.frame) && sel.frame.length == Side(s.size)
    ensures ReadSprite(w, id, posX, posY) == ReadSelected(w.charWdth, sel, s, posX, posY)
  {
  }

  /** `SpritePixel` unfolded for a sprite `s` showing frame `f`, at offset
      `(u, v)` from the sprite's corner. */
  lemma SpritePixelOfFrame(w: World, id: Id, px: int, py: int, s: Sprite, f: Frame, u: int, v: int)
    requires WorldOk(w) && SpriteOf(w, id) == Some(s) && CurrentFrame(s) == Some(f)
    requires u == px - s.x && v == py - s.y
    ensures Valid(f)
    ensures SpritePixel(w, id, px, py) == TurnedPixel(f, s.rotation / 90, s.size, u, v)
  {
    CurrentFrameFits(w, id);
  }

  /** The line, start index and direction the table assigns to a quarter
      turn read exactly the turned frame's pixel. */
  lemma TurnGeometry(sel: Selection, s: Sprite, posX: int, posY: int, i: int, u: int, v: int)
    requires Valid(sel.frame) && sel.frame.length == Side(s.size) && ValidRotation(s.rotation)
    requires sel.readRow == (s.rotation / 90 % 2 == 0)
    requires sel.forward == (s.rotation / 90 == 0 || s.rotation / 90 == 3)
    requires u == posX + i - s.x && v == posY - s.y
    ensures LineBit(sel, s, posX, posY, i) == TurnedPixel(sel.frame, s.rotation / 90, s.size, u, v)
  {
  }

  /** Output bit `k` of the selected-frame read is the line pixel
      `LineBit` names for step `i = charWdth - 1 - k`. */
  lemma ReadSelectedBit(charWdth: int, sel: Selection, s: Sprite, posX: int, posY: int, k: int, i: int)
    requires Valid(sel.frame) && sel.frame.length == Side(s.size)
    requires 0 <= k < 8 && k < charWdth && i == charWdth - 1 - k
    ensures Bit(ReadSelected(charWdth, sel, s, posX, posY), k) == LineBit(sel, s, posX, posY, i)
  {
    var lineNum := LineNumber(sel.readRow, sel.forward, s.y, posY, s.size);
    if 0 <= lineNum < sel.frame.length {
      ReadSelectedOnLine(charWdth, sel, s, posX, posY, k, i);
    } else {
      LineOutsideFrame(sel, s, posX, posY, i);
      assert ReadSelected(charWdth, sel, s, posX, posY) == 0;
    }
  }

  /** `ReadSelectedBit` where the frame has the line. */
  lemma ReadSelectedOnLine(charWdth: int, sel: Selection, s: Sprite, posX: int, posY: int, k: int, i: int)
    requires Valid(sel.frame) && sel.frame.length == Side(s.size)
    requires 0 <= k < 8 && k < charWdth && i == charWdth - 1 - k
    requires 0 <= LineNumber(sel.readRow, sel.forward, s.y, posY, s.size) < sel.frame.length
    ensures Bit(ReadSelected(charWdth, sel, s, posX, posY), k) == LineBit(sel, s, posX, posY, i)
  {
    SpriteSizeFitsLine(s.size);
    var lineNum := LineNumber(sel.readRow, sel.forward, s.y, posY, s.size);
    var frameLine := if sel.readRow then GetRow(sel.frame, lineNum) else GetCol(sel.frame, lineNum);
    var start := StartPosition(sel.forward, s.x, posX, s.size);
    var line := frameLine.value;
    assert ReadSelected(charWdth, sel, s, posX, posY) == ReadBytePiece(charWdth, sel.forward, start, Some(line), s.size);
    PieceBitAt(charWdth, sel.forward, start, line, s.size, k, i);
    LineOfPiece(sel, s, posX, posY, i, line);
  }

  /** Output bit `k` of `readBytePiece` is the line bit of step
      `i = charWdth - 1 - k`. */
  lemma PieceBitAt(charWdth: int, forward: bool, start: int, line: seq<bv8>, length: int, k: int, i: int)
    requires length <= 8 * |line|
    requires 0 <= k < 8 && 0 <= i && i == charWdth - 1 - k
    ensures Bit(ReadBytePiece(charWdth, forward, start, Some(line), length), k) == PieceBit(forward, start, line, length, i)
  {
  }

  /** Where the frame has the line, the bit `readBytePiece` takes from it is
      the frame pixel `LineBit` names. */
  lemma LineOfPiece(sel: Selection, s: Sprite, posX: int, posY: int, i: int, line: seq<bv8>)
    requires Valid(sel.frame) && sel.frame.length == Side(s.size)
    requires var lineNum := LineNumber(sel.readRow, sel.forward, s.y, posY, s.size);
             (if sel.readRow then GetRow(sel.frame, lineNum) else GetCol(sel.frame, lineNum)) == Some(line)
    ensures s.size <= 8 * |line|
    ensures PieceBit(sel.forward, StartPosition(sel.forward, s.x, posX, s.size), line, s.size, i)
            == LineBit(sel, s, posX, posY, i)
  {
    SpriteSizeFitsLine(s.size);
  }

  /** Where the frame lacks the line, `LineBit` is off. */
  lemma LineOutsideFrame(sel: Selection, s: Sprite, posX: int, posY: int, i: int)
    requires Valid(sel.frame)
    requires !(0 <= LineNumber(sel.readRow, sel.forward, s.y, posY, s.size) < sel.frame.length)
    ensures !LineBit(sel, s, posX, posY, i)
  {
  }

  /** Rotating the sprite registry, as `readCharacter` does after each
      sprite, keeps the world well formed and every sprite where `get(id)`
      finds it. */
  lemma RotationKeepsWorld(w: World)
    requires WorldOk(w)
    ensures WorldOk(w.(sprites := Rotate(w.sprites)))
    ensures forall id :: SpriteOf(w.(sprites := Rotate(w.sprites)), id) == SpriteOf(w, id)
  {
    var q := w.sprites;
    RotatePreservesEntries(q);
    forall i | 0 <= i < |q|
      ensures SpriteOk(Rotate(q)[i].item)
    {
      NextIndex(i, |q|);
    }
    forall id
      ensures GetById(Rotate(q), id) == GetById(q, id)
    {
      RotatePreservesLookup(q, id);
    }
  }

  /** `readSprite` finds its sprite by id: two worlds of the same cell width
      that store the same sprite under `id` give the same glyph row. */
  lemma ReadSpriteById(w1: World, w2: World, id: Id, posX: int, posY: int)
    requires WorldOk(w1) && WorldOk(w2)
    requires w1.charWdth == w2.charWdth && SpriteOf(w1, id) == SpriteOf(w2, id)
    ensures ReadSprite(w1, id, posX, posY) == ReadSprite(w2, id, posX, posY)
  {
  }

  /** The glyph rows the first `n` sprites of the registry contribute to
      the cell row starting at `(posX, posY)`, in registry order. */
  function SpriteRows(w: World, n: nat, posX: int, posY: int): (rows: seq<bv8>)
    requires WorldOk(w) && n <= |w.sprites|
    ensures |rows| == n
  {
    seq(n, j requires 0 <= j < n => ReadSprite(w, w.sprites[j].id, posX, posY))
  }

  /** The glyph rows of the first `n` sprites or-ed together: the reference
      `readCharacter` is measured against. */
  function Overlay(w: World, n: nat, posX: int, posY: int): bv8
    requires WorldOk(w) && n <= |w.sprites|
  {
    OrAll(SpriteRows(w, n, posX, posY))
  }

  /** Or-ing in one more sprite's glyph row extends the overlay by that
      sprite. */
  lemma OverlayStep(w: World, t: nat, posX: int, posY: int)
    requires WorldOk(w) && t < |w.sprites|
    ensures Overlay(w, t + 1, posX, posY) == Overlay(w, t, posX, posY) | ReadSprite(w, w.sprites[t].id, posX, posY)
  {
    assert SpriteRows(w, t + 1, posX, posY)[..t] == SpriteRows(w, t, posX, posY);
  }

  /** The screen row that glyph row `i` of a cell starting at `charY`
      covers. */
  function Row(charY: int, i: int): int
  {
    charY + i
  }

  /** Some sprite lights screen pixel `(px, py)`. */
  ghost predicate Lit(w: World, px: int, py: int)
    requires WorldOk(w)
  {
    exists id :: SpritePixel(w, id, px, py)
  }

  /** Bit `k` of the overlay of the whole registry is on exactly when it lies
      inside the cell width and some sprite lights the pixel under it: only
      registered sprites light pixels, and each one's glyph row shows its
      lit pixels. */
  lemma OverlayShowsLit(w: World, posX: int, posY: int, k: int)
    requires WorldOk(w) && 0 <= k < 8
    ensures Bit(Overlay(w, |w.sprites|, posX, posY), k)
            <==> k < w.charWdth && Lit(w, Column(w, posX, k), posY)
  {
    var rows := SpriteRows(w, |w.sprites|, posX, posY);
    var px := Column(w, posX, k);
    OrAllBits(rows, k);
    if Bit(OrAll(rows), k) {
      var j :| 0 <= j < |rows| && Bit(rows[j], k);
      ReadSpriteBitAt(w, w.sprites[j].id, posX, posY, k);
      assert SpritePixel(w, w.sprites[j].id, px, posY);
    }
    if k < w.charWdth && Lit(w, px, posY) {
      var id :| SpritePixel(w, id, px, posY);
      var j :| 0 <= j < |w.sprites| && w.sprites[j].id == id;
      ReadSpriteBitAt(w, id, posX, posY, k);
      assert Bit(rows[j], k);
    }
  }

  /** The character whose top-left pixel is `(charX, charY)`, row by row:
      every sprite's glyph row or-ed in. */
  function Cell(w: World, charX: int, charY: int): (rows: seq<bv8>)
    requires WorldOk(w) && 0 <= w.charHght
  {
    seq(w.charHght, i requires 0 <= i < w.charHght => Overlay(w, |w.sprites|, charX, Row(charY, i)))
  }

  /** Pixel `k` of row `i` of the cell is on exactly when it lies inside the
      cell width and some sprite lights that screen pixel. */
  lemma CellShowsLit(w: World, charX: int, charY: int, i: int, k: int)
    requires WorldOk(w) && 0 <= i < w.charHght && 0 <= k < 8
    ensures Bit(Cell(w, charX, charY)[i], k) <==> k < w.charWdth && Lit(w, Column(w, charX, k), Row(charY, i))
  {
    OverlayShowsLit(w, charX, Row(charY, i), k);
  }

  /** A cell is all zero bytes exactly when no sprite lights any of its
      pixels. */
  lemma BlankCell(w: World, charX: int, charY: int)
    requires WorldOk(w) && 0 <= w.charHght
    ensures (forall i :: 0 <= i < w.charHght ==> Cell(w, charX, charY)[i] == 0)
            <==> forall i, k :: 0 <= i < w.charHght && 0 <= k < 8 && k < w.charWdth
                                ==> !Lit(w, Column(w, charX, k), Row(charY, i))
  {
    var c := Cell(w, charX, charY);
    forall i | 0 <= i < w.charHght
      ensures c[i] == 0 <==> forall k :: 0 <= k < 8 && k < w.charWdth ==> !Lit(w, Column(w, charX, k), Row(charY, i))
    {
      forall k | 0 <= k < 8
        ensures Bit(c[i], k) <==> k < w.charWdth && Lit(w, Column(w, charX, k), Row(charY, i))
      {
        CellShowsLit(w, charX, charY, i, k);
      }
      if forall k :: 0 <= k < 8 && k < w.charWdth ==> !Lit(w, Column(w, charX, k), Row(charY, i)) {
        BitsDetermineByte(c[i], 0);
      }
    }
  }

  /** The inner loop of `readCharacter`: or one sprite's glyph row into
      every row of the character. */
  method OrInto(rows: seq<bv8>, w: World, id: Id, charX: int, charY: int) returns (r: seq<bv8>)
    requires WorldOk(w)
    ensures |r| == |rows|
    ensures forall i :: 0 <= i < |r| ==> r[i] == rows[i] | ReadSprite(w, id, charX, Row(charY, i))
  {
    r := rows;
    var i := 0;
    while i < |rows|
      invariant 0 <= i <= |rows| && |r| == |rows|
      invariant forall j :: 0 <= j < i ==> r[j] == rows[j] | ReadSprite(w, id, charX, Row(charY, j))
      invariant forall j :: i <= j < |r| ==> r[j] == rows[j]
    {
      r := r[i := r[i] | ReadSprite(w, id, charX, Row(charY, i))];
      i := i + 1;
    }
  }

  /** The final scan of `readCharacter` for a nonzero row. */
  method AllZero(rows: seq<bv8>) returns (b: bool)
    ensures b <==> forall i :: 0 <= i < |rows| ==> rows[i] == 0
  {
    var i := 0;
    while i < |rows|
      invariant 0 <= i <= |rows|
      invariant forall j :: 0 <= j < i ==> rows[j] == 0
    {
      if rows[i] != 0 {
        return false;
      }
      i := i + 1;
    }
    return true;
  }

  /** The registry shifted cyclically by `t`, as `t` rotations leave it,
      is still well formed and stores every sprite under its id. */
  lemma {:induction false} ShiftKeepsWorld(w: World, t: nat)
    requires WorldOk(w) && t <= |w.sprites|
    ensures WorldOk(w.(sprites := w.sprites[t..] + w.sprites[..t]))
    ensures forall id :: SpriteOf(w.(sprites := w.sprites[t..] + w.sprites[..t]), id) == SpriteOf(w, id)
  {
    if t == 0 {
      assert w.sprites[0..] + w.sprites[..0] == w.sprites;
    } else {
      var prev := w.(sprites := w.sprites[t - 1..] + w.sprites[..t - 1]);
      ShiftKeepsWorld(w, t - 1);
      RotationKeepsWorld(prev);
      RotateShifted(w.sprites, t - 1);
    }
  }

  /** Visiting the sprite at the head of the registry, shifted cyclically
      by `t`, and rotating: the head is the `t`-th sprite, found where it was,
      and the rotated registry is the original shifted by `t + 1`. */
  lemma VisitNext(w: World, cur: World, t: nat)
    requires WorldOk(w) && t < |w.sprites|
    requires cur == w.(sprites := w.sprites[t..] + w.sprites[..t])
    ensures WorldOk(cur)
    ensures FrontId(cur.sprites) == w.sprites[t].id
    ensures SpriteOf(cur, w.sprites[t].id) == SpriteOf(w, w.sprites[t].id)
    ensures cur.(sprites := Rotate(cur.sprites)) == w.(sprites := w.sprites[t + 1..] + w.sprites[..t + 1])
  {
    assert cur.sprites[0] == w.sprites[t];
    ShiftKeepsWorld(w, t);
    RotateShifted(w.sprites, t);
  }

  /** Or-ing the `t`-th sprite's glyph rows, read from the rotated registry,
      into the overlay of the first `t` sprites gives the overlay of the
      first `t + 1`. */
  lemma OrStep(w: World, cur: World, id: Id, t: nat, charX: int, charY: int, before: seq<bv8>, after: seq<bv8>)
    requires WorldOk(w) && WorldOk(cur) && t < |w.sprites| && id == w.sprites[t].id
    requires cur.charWdth == w.charWdth && SpriteOf(cur, id) == SpriteOf(w, id)
    requires |after| == |before|
    requires forall r :: 0 <= r < |before| ==> before[r] == Overlay(w, t, charX, Row(charY, r))
    requires forall r :: 0 <= r < |after| ==> after[r] == before[r] | ReadSprite(cur, id, charX, Row(charY, r))
    ensures forall r :: 0 <= r < |after| ==> after[r] == Overlay(w, t + 1, charX, Row(charY, r))
  {
    forall r | 0 <= r < |after|
      ensures after[r] == Overlay(w, t + 1, charX, Row(charY, r))
    {
      ReadSpriteById(cur, w, id, charX, Row(charY, r));
      OverlayStep(w, t, charX, Row(charY, r));
    }
  }

  /** The sprite loop of `readCharacter`: visits the `size()` sprites by
      reading the head id and rotating the registry, or-ing each one's glyph
      row into every row of the cell. The registry ends as it began, after
      `size()` rotations. */
  method Composite(w: World, charX: int, charY: int) returns (rows: seq<bv8>, w': World)
    requires WorldOk(w) && 0 <= w.charHght
    ensures w' == w
    ensures rows == Cell(w, charX, charY)
  {
    rows := Zeros(w.charHght);
    var cur := w;
    var t := 0;
    assert w.sprites[0..] + w.sprites[..0] == w.sprites;
    while t < |w.sprites|
      invariant 0 <= t <= |w.sprites|
      invariant cur == w.(sprites := w.sprites[t..] + w.sprites[..t])
      invariant |rows| == w.charHght
      invariant forall r :: 0 <= r < |rows| ==> rows[r] == Overlay(w, t, charX, Row(charY, r))
    {
      VisitNext(w, cur, t);
      var id := FrontId(cur.sprites);
      var before := rows;
      rows := OrInto(rows, cur, id, charX, charY);
      OrStep(w, cur, id, t, charX, charY, before, rows);
      cur := cur.(sprites := Rotate(cur.sprites));
      t := t + 1;
    }
    assert w.sprites[|w.sprites|..] + w.sprites[..|w.sprites|] == w.sprites;
    w' := cur;
  }

  /** `readCharacter`: the cell at `(row, col)` is the one whose top-left
      pixel is `(col * charWdth, row * charHght)`; the result is null when
      every row of it is zero, that is, when no sprite lights any of its
      pixels. The registry is left as it was. */
  method ReadCharacter(w: World, row: int, col: int) returns (character: Option<seq<bv8>>, w': World)
    requires WorldOk(w) && 0 <= w.charHght
    ensures w' == w
    ensures character.Some? ==> character.value == Cell(w, col * w.charWdth, row * w.charHght)
    ensures character.None? <==>
              forall i, k :: 0 <= i < w.charHght && 0 <= k < 8 && k < w.charWdth
                             ==> !Lit(w, Column(w, col * w.charWdth, k), Row(row * w.charHght, i))
  {
    var charX := col * w.charWdth;
    var charY := row * w.charHght;
    var rows;
    rows, w' := Composite(w, charX, charY);
    BlankCell(w, charX, charY);
    var blank := AllZero(rows);
    character := if blank then None else Some(rows);
  }
}
