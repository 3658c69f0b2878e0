/** A sprite frame: a square monochrome image of side `length`, packed
    row-major into bytes, most significant bit first. Pixel `(x, y)` is the
    flat pixel `y * length + x`, stored in byte `flat / 8` at bit
    `7 - flat % 8`. */
module Frames {
  import opened Results
  import opened Bits

  datatype Frame = Frame(length: int, pixels: seq<bv8>)

  /** The cumulative (row-order) index of a position. */
  function ToPixel(length: int, x: int, y: int): int
  {
    y * length + x
  }

  /** The byte holding a position. Only ever applied to positions with
      non-negative coordinates, where C++ division and Dafny's agree. */
  function ToIndex(length: int, x: int, y: int): (index: int)
    requires 0 <= length && 0 <= x && 0 <= y
    ensures 0 <= index && 8 * index <= ToPixel(length, x, y) < 8 * index + 8
  {
    ToPixel(length, x, y) / 8
  }

  /** The bit position of a pixel inside its byte: the first pixel of a
      byte is its most significant bit. */
  function ToOffset(length: int, x: int, y: int): (offset: int)
    requires 0 <= length && 0 <= x && 0 <= y
    ensures 0 <= offset < 8 && ToPixel(length, x, y) == 8 * ToIndex(length, x, y) + (7 - offset)
  {
    7 - ToPixel(length, x, y) % 8
  }

  /** The side length the constructor keeps for a requested one. */
  function Side(sideLength: int): int
  {
    if sideLength < 1 then 1 else sideLength
  }

  /** Size of the pixel store: one past the byte of the last pixel. */
  function StorageBytes(length: int): int
    requires 1 <= length
  {
    ToIndex(length, length - 1, length - 1) + 1
  }

  /** Size of one extracted row or column: one past the byte of the last pixel. */
  function LineBytes(length: int): int
    requires 1 <= length
  {
    ToIndex(length, length - 1, 0) + 1
  }

  /** What the constructor establishes and every operation keeps. */
  predicate Valid(f: Frame)
  {
    1 <= f.length && |f.pixels| == StorageBytes(f.length)
  }

  predicate ValidPixel(f: Frame, x: int, y: int)
  {
    0 <= y < f.length && 0 <= x < f.length
  }

  lemma MulMonotone(a: int, b: int, c: int)
    requires 0 <= a <= b && 0 <= c
    ensures a * c <= b * c
  {
  }

  /** A valid pixel's flat index is below `length * length`. */
  lemma FlatInRange(length: int, x: int, y: int)
    requires 0 <= x < length && 0 <= y < length
    ensures 0 <= ToPixel(length, x, y) <= ToPixel(length, length - 1, length - 1)
    ensures ToPixel(length, length - 1, length - 1) == length * length - 1
  {
    MulMonotone(y, length - 1, length);
  }

  /** Storage holds exactly `ceil(length² / 8)` bytes and a line exactly
      `ceil(length / 8)`. */
  lemma StorageIsCeiling(length: int)
    requires 1 <= length
    ensures 8 * (StorageBytes(length) - 1) < length * length <= 8 * StorageBytes(length)
    ensures 8 * (LineBytes(length) - 1) < length <= 8 * LineBytes(length)
  {
    FlatInRange(length, length - 1, length - 1);
  }

  /** Addressing is exact: a valid pixel lands inside the store, on a real bit
      position, and no two valid pixels share a byte and bit. */
  lemma AddressingIsExact(length: int, x1: int, y1: int, x2: int, y2: int)
    requires 0 <= x1 < length && 0 <= y1 < length
    requires 0 <= x2 < length && 0 <= y2 < length
    ensures 0 <= ToIndex(length, x1, y1) < StorageBytes(length)
    ensures 0 <= ToOffset(length, x1, y1) < 8
    ensures ToIndex(length, x1, y1) == ToIndex(length, x2, y2)
            && ToOffset(length, x1, y1) == ToOffset(length, x2, y2)
            <==> x1 == x2 && y1 == y2
  {
    FlatInRange(length, x1, y1);
    if ToIndex(length, x1, y1) == ToIndex(length, x2, y2)
       && ToOffset(length, x1, y1) == ToOffset(length, x2, y2) {
      assert ToPixel(length, x1, y1) == ToPixel(length, x2, y2);
      FlatInjective(length, x1, y1, x2, y2);
    }
  }

  lemma FlatInjective(length: int, x1: int, y1: int, x2: int, y2: int)
    requires 0 <= x1 < length && 0 <= y1 && 0 <= x2 < length && 0 <= y2
    requires ToPixel(length, x1, y1) == ToPixel(length, x2, y2)
    ensures x1 == x2 && y1 == y2
  {
    if y1 < y2 {
      MulMonotone(y1 + 1, y2, length);
      assert false;
    } else if y2 < y1 {
      MulMonotone(y2 + 1, y1, length);
      assert false;
    }
  }

  /** `new Frame(sideLength)`: the side is clamped to at least one and the
      store of `ceil(side² / 8)` bytes starts out blank. */
  function NewFrame(sideLength: int): (f: Frame)
    ensures Valid(f)
    ensures f.length == (if sideLength < 1 then 1 else sideLength)
    ensures forall x, y :: !GetPixel(f, x, y)
  {
    var length := Side(sideLength);
    Clear(Frame(length, Zeros(StorageBytes(length))))
  }

  /** Bit `flat` of the packed store, for the flat index of a valid pixel. */
  predicate StoredBit(f: Frame, x: int, y: int)
    requires Valid(f) && ValidPixel(f, x, y)
  {
    FlatInRange(f.length, x, y);
    StorageIsCeiling(f.length);
    BitAt(f.pixels, ToPixel(f.length, x, y))
  }

  /** `getPixel`: false off the image, otherwise the stored bit. */
  function GetPixel(f: Frame, x: int, y: int): (on: bool)
    requires Valid(f)
    ensures on == (ValidPixel(f, x, y) && StoredBit(f, x, y))
  {
    if !ValidPixel(f, x, y) then false
    else
      AddressingIsExact(f.length, x, y, x, y);
      Bit(f.pixels[ToIndex(f.length, x, y)], ToOffset(f.length, x, y))
  }

  /** `setPixel`: fails and changes nothing off the image; otherwise sets the
      one addressed pixel to `value` and leaves every other pixel alone. */
  function SetPixel(f: Frame, x: int, y: int, value: bool): (r: Outcome<Frame>)
    requires Valid(f)
    ensures r.ok <==> ValidPixel(f, x, y)
    ensures !r.ok ==> r.state == f
    ensures Valid(r.state) && r.state.length == f.length
    ensures forall a, b :: GetPixel(r.state, a, b)
                           == if r.ok && a == x && b == y then value else GetPixel(f, a, b)
  {
    if !ValidPixel(f, x, y) then Outcome(false, f)
    else
      AddressingIsExact(f.length, x, y, x, y);
      var index := ToIndex(f.length, x, y);
      var offset := ToOffset(f.length, x, y);
      var g := f.(pixels := f.pixels[index := SetBit(f.pixels[index], offset, value)]);
      assert forall a, b :: ValidPixel(f, a, b) ==>
        GetPixel(g, a, b) == (if a == x && b == y then value else GetPixel(f, a, b)) by {
        forall a, b | ValidPixel(f, a, b) {
          AddressingIsExact(f.length, a, b, x, y);
        }
      }
      Outcome(true, g)
  }

  /** Setting a pixel and then setting it back to the value it had restores
      the frame byte for byte: the store holds nothing but the pixels. */
  lemma SetPixelBack(f: Frame, x: int, y: int, value: bool)
    requires Valid(f)
    ensures SetPixel(SetPixel(f, x, y, value).state, x, y, GetPixel(f, x, y)).state == f
  {
    if ValidPixel(f, x, y) {
      AddressingIsExact(f.length, x, y, x, y);
      var index := ToIndex(f.length, x, y);
      var offset := ToOffset(f.length, x, y);
      var b := f.pixels[index];
      var g := SetPixel(f, x, y, value).state;
      assert g.pixels == f.pixels[index := SetBit(b, offset, value)];
      SetBitBack(b, offset, value);
      assert SetPixel(g, x, y, GetPixel(f, x, y)).state.pixels == f.pixels;
    }
  }

  /** `drawPixel`: turns the pixel on when it is on the image. */
  function DrawPixel(f: Frame, x: int, y: int): (r: Outcome<Frame>)
    requires Valid(f)
    ensures r.ok <==> ValidPixel(f, x, y)
    ensures !r.ok ==> r.state == f
    ensures Valid(r.state) && r.state.length == f.length
    ensures r.ok ==> GetPixel(r.state, x, y)
    ensures forall a, b :: (a, b) != (x, y) ==> GetPixel(r.state, a, b) == GetPixel(f, a, b)
  {
    SetPixel(f, x, y, true)
  }

  /** `clearPixel`: turns the pixel off when it is on the image. */
  function ClearPixel(f: Frame, x: int, y: int): (r: Outcome<Frame>)
    requires Valid(f)
    ensures r.ok <==> ValidPixel(f, x, y)
    ensures !r.ok ==> r.state == f
    ensures Valid(r.state) && r.state.length == f.length
    ensures !GetPixel(r.state, x, y)
    ensures forall a, b :: (a, b) != (x, y) ==> GetPixel(r.state, a, b) == GetPixel(f, a, b)
  {
    SetPixel(f, x, y, false)
  }

  /** `clear`: every byte zero, so every pixel reads off. */
  function Clear(f: Frame): (r: Frame)
    requires 1 <= f.length
    ensures r.length == f.length && |r.pixels| == |f.pixels|
    ensures |f.pixels| == StorageBytes(f.length) ==> Valid(r) && forall x, y :: !GetPixel(r, x, y)
  {
    var r := f.(pixels := Zeros(|f.pixels|));
    assert Valid(r) ==> forall x, y :: !GetPixel(r, x, y) by {
      if Valid(r) {
        forall x, y | ValidPixel(r, x, y) {
          AddressingIsExact(r.length, x, y, x, y);
        }
      }
    }
    r
  }

  /** Pixel `i` along row or column `line`. */
  predicate LinePixel(f: Frame, horizontal: bool, line: int, i: int)
    requires Valid(f)
  {
    if horizontal then GetPixel(f, i, line) else GetPixel(f, line, i)
  }

  /** The line buffer after the copy loop of `readLine` has visited pixels
      `0 .. n-1`: each visited pixel that is on has set its bit. */
  function PackLine(f: Frame, horizontal: bool, line: int, n: int): (arr: seq<bv8>)
    requires Valid(f) && 0 <= line < f.length && 0 <= n <= f.length
    ensures |arr| == LineBytes(f.length)
    ensures forall i :: 0 <= i < 8 * |arr| ==> BitAt(arr, i) == (i < n && LinePixel(f, horizontal, line, i))
    decreases n
  {
    if n == 0 then Zeros(LineBytes(f.length))
    else
      var arr := PackLine(f, horizontal, line, n - 1);
      var i := n - 1;
      if LinePixel(f, horizontal, line, i) then
        StorageIsCeiling(f.length);
        SetBitAt(arr, ToPixel(f.length, i, 0), true)
      else arr
  }

  /** `readLine`: null for a line off the image, otherwise a fresh
      `ceil(length / 8)`-byte copy of the row or column. */
  function ReadLine(f: Frame, horizontal: bool, line: int): (r: Option<seq<bv8>>)
    requires Valid(f)
    ensures r.None? <==> !(0 <= line < f.length)
    ensures r.Some? ==> |r.value| == LineBytes(f.length)
  {
    if !ValidPixel(f, 0, line) then None
    else Some(PackLine(f, horizontal, line, f.length))
  }

  /** `getRow`: bit `i` of the extracted row is pixel `(i, row)`; the padding
      bits past the side are zero. */
  function GetRow(f: Frame, row: int): (r: Option<seq<bv8>>)
    requires Valid(f)
    ensures r.None? <==> !(0 <= row < f.length)
    ensures r.Some? ==> |r.value| == LineBytes(f.length)
    ensures r.Some? ==> forall i :: 0 <= i < 8 * |r.value| ==>
                          BitAt(r.value, i) == (i < f.length && GetPixel(f, i, row))
  {
    ReadLine(f, true, row)
  }

  /** `getCol`: bit `i` of the extracted column is pixel `(col, i)`; the
      padding bits past the side are zero. */
  function GetCol(f: Frame, col: int): (r: Option<seq<bv8>>)
    requires Valid(f)
    ensures r.None? <==> !(0 <= col < f.length)
    ensures r.Some? ==> |r.value| == LineBytes(f.length)
    ensures r.Some? ==> forall i :: 0 <= i < 8 * |r.value| ==>
                          BitAt(r.value, i) == (i < f.length && GetPixel(f, col, i))
  {
    ReadLine(f, false, col)
  }

  /** The value `getRow`/`getCol` return beside the buffer: its byte count,
      or 0 when the line is off the image. */
  function LineSize(line: Option<seq<bv8>>): int
  {
    if line.Some? then |line.value| else 0
  }

  /** `getRow`/`getCol` return `toIndex(length - 1, 0) + 1`, the
      `ceil(length / 8)` bytes of a line, for a line on the image and 0
      otherwise. */
  lemma LineSizeIsByteCount(f: Frame, horizontal: bool, line: int)
    requires Valid(f)
    ensures LineSize(ReadLine(f, horizontal, line))
            == if 0 <= line < f.length then ToIndex(f.length, f.length - 1, 0) + 1 else 0
    ensures 0 <= line < f.length ==>
              8 * (LineSize(ReadLine(f, horizontal, line)) - 1) < f.length <= 8 * LineSize(ReadLine(f, horizontal, line))
  {
    StorageIsCeiling(f.length);
  }
}
