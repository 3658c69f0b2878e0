# LCD sprite compositor, modelled in Dafny

A model of the core of the LCD-Animation-Library. The library keeps monochrome
sprites on a virtual screen made of character cells and composes, cell by
cell, the custom character an HD44780-style display would show. It has three
cooperating pieces.

- **Frame** (`frame.dfy`, module `Frames`). A square bitmap of side
  `length ≥ 1`, packed row-major into `ceil(length² / 8)` bytes.
  - Pixel `(x, y)` is flat index `y * length + x`. It is stored in byte
    `flat / 8` at bit `7 - flat % 8`, so the most significant bit comes first.
  - Operations: pixel get, set, draw and clear; clear-all; and extraction of
    a row or column as a fresh `ceil(length / 8)`-byte line.
  - The bit layout lives in `bits.dfy` (module `Bits`), together with a
    generic or-of-bytes.
- **Queue** (`queue.dfy`, module `Queues`). The insertion-ordered,
  `char`-keyed, rotatable collection. It serves as the sprite registry and as
  each sprite's animation cycle.
  - The circular doubly-linked list is modelled by its entries in traversal
    order, as a `seq<Entry<T>>` with the head first.
  - `rotate` is a cyclic shift by one.
- **LCDMap** (`lcdmap.dfy`, module `LCDMap`, and `compositor.dfy`, module
  `Compositor`). The sprite world: character geometry, four movement bounds,
  and the sprite registry.
  - Each sprite has a position, a size, a rotation in 45° steps, and two frame
    queues kept in lock-step. The "H" frames are drawn for 0/90/180/270 and
    the "D" frames for 45/135/225/315.
  - The compositor: `selectFrame`, `getLineNumber`, `getStartPosition`,
    `readBytePiece`, `readSprite` and `readCharacter`.

Shared result shapes live in `results.dfy` (module `Results`):
- `Option` stands for a nullable pointer.
- `Outcome(ok, state)` is the boolean a mutator returns together with the
  object state it leaves behind.

Every mutating member function of the C++ classes becomes a pure function
from the old state to the new one. Mutation through a pointer handed out by
`Queue::get(id)` becomes `Queues.UpdateItem`.

The compositor is proved against an independent description of what should
appear on screen:
- `Compositor.SpritePixel` says that a sprite lights a screen pixel when the
  pixel is in the sprite's box and the pixel of its current frame that the
  rotation carries there is on. A clockwise turn by `rotation / 90` quarter
  turns is applied, and the D frames are used for odd multiples of 45.
- `Compositor.ReadSpriteShowsRotatedFrame` proves that the row/column,
  direction and start-index table of `readSprite` realises exactly that
  turn.
- `Compositor.ReadCharacter` proves that the character returned is the
  or-overlay of all sprites. It is null exactly when no sprite lights any
  pixel in the rightmost `min(charWdth, 8)` columns of the cell (an
  `unsigned char` row holds only eight columns), and the registry is left
  as it was after `size()` rotations.

`scenarios.dfy` (module `Scenarios`) works three concrete examples:
- a diagonal sprite, built by the constructor, `setBounds`, `createSprite`,
  `addFrame` and five `drawFrameH` calls, in a 5 × 5 cell reads back as the glyph
  `0x10 0x08 0x04 0x02 0x01`;
- pushes of ±10 against zero bounds are clamped away;
- a turn by 10° is refused and a turn by 405° lands on 45°.

`Queue::id()` returns the queue's own member `ERROR`, which is `'~'`
(src/LCDMap/Queue.h:32), so the empty-queue id is `'~'` (`Queues.NotFound`).

## Model

| member | source | states |
|---|---|---|
| `Bits.SetBit` | src/LCDMap/Frame.cpp:113-117 | or-ing `1 << k` sets bit `k`, and and-ing with its complement clears it; every other bit of the byte keeps its value |
| `Bits.SetBitBack` | src/LCDMap/Frame.cpp:113-117 | writing bit `k` and then writing back its old value gives the original byte |
| `Bits.SetBitAt` | src/LCDMap/Frame.cpp:89 | setting bit `i` of an MSB-first packed line changes that one line bit and no other |
| `Bits.Zeros` | src/LCDMap/Frame.cpp:80-82 | the zero-filled buffer has the requested size and every bit of it off |
| `Bits.ShiftedBit` | src/LCDMap/LCDMap.cpp:358 | `(b >> k) & 1` is 1 exactly when bit `k` of `b` is set |
| `Bits.OrAllBits` | src/LCDMap/LCDMap.cpp:226 | a bit of an or of bytes is set iff it is set in at least one of them |
| `Frames.FlatInRange` | src/LCDMap/Frame.cpp:139-141 | the flat index of an in-range pixel lies in `[0, length² - 1]`, the index of the last pixel |
| `Frames.ToPixel` | src/LCDMap/Frame.cpp:138-141 | the row-order flat index `y * length + x`; no contract of its own: `Frames.FlatInjective` proves it one-to-one on the image and `Frames.FlatInRange` bounds it by `length² - 1` |
| `Frames.ToIndex` | src/LCDMap/Frame.cpp:133-135 | the byte whose eight bits cover the flat index: `8 * index ≤ flat < 8 * index + 8` |
| `Frames.ToOffset` | src/LCDMap/Frame.cpp:128-130 | a bit position in `0..7`, with `flat = 8 * toIndex + (7 - offset)`: the first pixel of a byte is its most significant bit |
| `Frames.ValidPixel` | src/LCDMap/Frame.cpp:123-125 | the on-image test `0 ≤ x, y < length`; no contract of its own: `Frames.AddressingIsExact` proves that exactly these pixels have their own byte and bit inside the store |
| `Frames.StorageIsCeiling` | src/LCDMap/Frame.cpp:20 | `toIndex(L-1, L-1) + 1` is `ceil(L² / 8)`, and `toIndex(L-1, 0) + 1` is `ceil(L / 8)` |
| `Frames.AddressingIsExact` | src/LCDMap/Frame.cpp:128-141 | an in-range pixel's byte is inside the store and its bit is in `0..7`; two in-range pixels share byte and bit iff they are the same pixel |
| `Frames.FlatInjective` | src/LCDMap/Frame.cpp:139-141 | distinct in-range positions have distinct flat indices |
| `Frames.NewFrame` | src/LCDMap/Frame.cpp:16-23 | the side is clamped to at least 1, the store holds `ceil(side² / 8)` bytes, and every pixel reads off |
| `Frames.GetPixel` | src/LCDMap/Frame.cpp:98-102 | false whenever `x` or `y` is outside `[0, length)`; otherwise the stored bit at the pixel's flat index |
| `Frames.SetPixel` | src/LCDMap/Frame.cpp:106-120 | fails and changes nothing off the image; otherwise `getPixel(x, y)` becomes `value` and every other pixel reads as before |
| `Frames.SetPixelBack` | src/LCDMap/Frame.cpp:106-120 | setting a pixel and then setting it back to the value it read before restores the frame exactly, store bytes included; off the image both calls are no-ops |
| `Frames.DrawPixel` | src/LCDMap/Frame.cpp:31-33 | succeeds iff the pixel is on the image, after which it reads on; all other pixels unchanged, nothing changes on failure |
| `Frames.ClearPixel` | src/LCDMap/Frame.cpp:37-39 | succeeds iff the pixel is on the image; the pixel then reads off; all other pixels unchanged, nothing changes on failure |
| `Frames.Clear` | src/LCDMap/Frame.cpp:42-47 | side and store size kept; every pixel reads off |
| `Frames.PackLine` | src/LCDMap/Frame.cpp:80-91 | after the copy loop has visited pixels `0..n-1`, line bit `i` is on iff `i < n` and pixel `i` of the row or column is on; padding stays zero |
| `Frames.ReadLine` | src/LCDMap/Frame.cpp:71-94 | null iff the line is outside `[0, length)`; otherwise a `ceil(length / 8)`-byte buffer |
| `Frames.GetRow` | src/LCDMap/Frame.cpp:57-59 | null iff the row is off the image; otherwise bit `7 - i % 8` of byte `i / 8` equals `getPixel(i, row)` for `i < length`, and padding bits are zero |
| `Frames.GetCol` | src/LCDMap/Frame.cpp:64-66 | null iff the column is off the image; otherwise line bit `i` equals `getPixel(col, i)` for `i < length`, and padding bits are zero |
| `Frames.LineSize` | src/LCDMap/Frame.cpp:57-66 | the `int` that `getRow`/`getCol` return beside the buffer; no contract of its own: `Frames.LineSizeIsByteCount` gives its value |
| `Frames.LineSizeIsByteCount` | src/LCDMap/Frame.cpp:71-94 | the count returned is `toIndex(length - 1, 0) + 1`, the `ceil(length / 8)` bytes of the buffer, for a line on the image, and 0 otherwise |
| `Queues.FindFrom` | LCDMap/Queue.cpp:174-179 | the scan from position `i` finds the first entry at or after `i` carrying the id, or reports that none does |
| `Queues.GetNode` | LCDMap/Queue.cpp:171-180 | absent iff no entry carries the id; otherwise the position of the first entry that does |
| `Queues.Contains` | LCDMap/Queue.cpp:29-31 | true iff some entry carries the id |
| `Queues.Get` | LCDMap/Queue.cpp:35-37 | null iff the queue is empty; otherwise the head item |
| `Queues.FrontId` | LCDMap/Queue.cpp:48-50 | `'~'` for an empty queue; otherwise the head's id, which the queue contains |
| `Queues.GetById` | LCDMap/Queue.cpp:41-44 | null iff the id is absent; otherwise an item stored under that id, the only one when ids are unique |
| `Queues.Rotate` | LCDMap/Queue.cpp:60-67 | size kept and entry `i` afterwards is entry `(i + 1) mod size` before: the head moves to the back, and a queue of size 0 or 1 is unchanged |
| `Queues.RotateN` | LCDMap/Queue.cpp:60-67 | `n` calls of `rotate()`; no contract of its own: `Queues.RotateNIsShift` proves it the cyclic shift by `n` and `Queues.RotateSizeTimesIsIdentity` the identity for `n = size()` |
| `Queues.RotateNIsShift` | LCDMap/Queue.cpp:60-67 | `n ≤ size` rotations shift the queue cyclically by `n`: `q[n..] + q[..n]` |
| `Queues.RotateShifted` | LCDMap/Queue.cpp:60-67 | one rotation of the queue shifted by `k` is the queue shifted by `k + 1` |
| `Queues.RotateSizeTimesIsIdentity` | src/LCDMap/LCDMap.cpp:221-230 | rotating exactly `size()` times restores the queue, as the sprite loop of `readCharacter` relies on |
| `Queues.RotatePreservesEntries` | LCDMap/Queue.cpp:60-67 | rotation keeps the same multiset of entries and keeps ids unique |
| `Queues.RotateKeepsIdsInStep` | src/LCDMap/LCDMap.cpp:201-202 | two queues with the same id sequence still have equal id sequences after each rotates once |
| `Queues.RotatePreservesLookup` | LCDMap/Queue.cpp:171-180 | `contains(id)` and `get(id)` give the same answers before and after a rotation |
| `Queues.Add` | LCDMap/Queue.cpp:82-99 | fails, changing nothing, iff the id is taken or the value is null; on success appends exactly `(id, value)` at the back, keeps the old entries in order, and keeps ids unique |
| `Queues.NextFreeId` | LCDMap/Queue.cpp:72-75 | the upward scan from 1 stops at the smallest id not taken, at most `size() + 1` |
| `Queues.TakenIdsAreBounded` | LCDMap/Queue.cpp:72-75 | if ids `1..n` are all taken there are at least `n` entries, so the scan terminates |
| `Queues.AddAuto` | LCDMap/Queue.cpp:71-78 | succeeds iff the value is non-null, appending it under the smallest id from 1 that was free; changes nothing on failure |
| `Queues.Without` | LCDMap/Queue.cpp:143-147 | unlinking position `i` leaves one entry fewer and the others in their relative order |
| `Queues.Remove` | LCDMap/Queue.cpp:103-149 | fails, changing nothing, iff the id is absent (including the empty queue); otherwise exactly the entry with that id is removed, others keep their order, the id is no longer contained, ids stay unique |
| `Queues.RemoveUndoesAdd` | LCDMap/Queue.cpp:82-149 | `remove(id)` right after a successful `add(id, value)` succeeds and gives back the queue as it was |
| `Queues.Dropped` | LCDMap/Queue.cpp:107-148 | each success branch of `remove` (sole, head, tail, interior) removes just that entry, and its id is then absent |
| `Queues.WithoutDrops` | LCDMap/Queue.cpp:143-147 | unlinking one entry from a queue with unique ids keeps them unique and drops that id |
| `Queues.Clear` | LCDMap/Queue.cpp:153-167 | afterwards the size is 0, `get()` is null and `id()` is `'~'` |
| `Queues.UpdateItem` | LCDMap/Queue.cpp:41-44 | writing through the pointer `get(id)` replaces only that entry's item: ids and order unchanged, lookups of other ids unchanged, absent id a no-op |
| `Queues.UpdateTwice` | LCDMap/Queue.cpp:41-44 | two writes through `get(id)` leave only the second one visible |
| `Queues.UpdateSame` | LCDMap/Queue.cpp:41-44 | writing back the item `get(id)` returned changes nothing |
| `LCDMap.NewWorld` | src/LCDMap/LCDMap.cpp:17-22 | the cell size is stored, there are no sprites, and every bound is `MAX` |
| `LCDMap.SetBounds` | src/LCDMap/LCDMap.cpp:30-35 | the four bounds take the given values; cell size and sprites are untouched |
| `LCDMap.RemoveBounds` | src/LCDMap/LCDMap.cpp:38-43 | the same as setting all four bounds to `MAX` |
| `LCDMap.AtTopBounds` | src/LCDMap/LCDMap.cpp:51-55 | false for an absent sprite; otherwise `y == -topBound` |
| `LCDMap.AtRigBounds` | src/LCDMap/LCDMap.cpp:58-62 | false for an absent sprite; otherwise `x + size == rightBound + charWdth` |
| `LCDMap.AtBotBounds` | src/LCDMap/LCDMap.cpp:65-69 | false for an absent sprite; otherwise `y + size == bottomBound + charHght` |
| `LCDMap.AtLefBounds` | src/LCDMap/LCDMap.cpp:72-76 | false for an absent sprite; otherwise `x == -leftBound` |
| `LCDMap.AtBounds` | src/LCDMap/LCDMap.cpp:46-48 | the disjunction of the four edge tests, false for an absent sprite |
| `LCDMap.Clamp` | src/LCDMap/LCDMap.cpp:109-110 | with `shiftLeft ≤ shiftRight` the displacement applied lies in `[shiftLeft, shiftRight]` and is the request clamped there; otherwise it is the lower limit when the request is below it, else the upper |
| `LCDMap.Shifted` | src/LCDMap/LCDMap.cpp:104-110 | the sprite moved by the clamped displacements; no contract of its own: `LCDMap.ShiftStaysInside` proves it stays inside the bounds and `LCDMap.ShiftPastRoomTouchesBound` that an overlong push lands on the bound |
| `LCDMap.ShiftSprite` | src/LCDMap/LCDMap.cpp:100-112 | an absent sprite is a no-op; otherwise only that sprite's position changes, by the clamped displacements; bounds, cell size, ids and the world invariant are kept |
| `LCDMap.ShiftStaysInside` | src/LCDMap/LCDMap.cpp:104-110 | a sprite inside the bounds is still inside them after any shift |
| `LCDMap.ShiftPastRoomTouchesBound` | src/LCDMap/LCDMap.cpp:104-110 | a push at least as far as the room to a bound leaves the sprite touching that bound (`atLefBounds`, `atRigBounds`, `atTopBounds`, `atBotBounds`) |
| `LCDMap.TruncMod` | src/LCDMap/LCDMap.cpp:122-123 | C++ `%` by a positive modulus: magnitude below the modulus, sign of the dividend |
| `LCDMap.TruncModCongruent` | src/LCDMap/LCDMap.cpp:117-122 | the C++ remainder by 360 is congruent to the dividend, and `degrees % 45 == 0` in C++ iff it holds mathematically |
| `LCDMap.Turned` | src/LCDMap/LCDMap.cpp:122-123 | the rotation after `rotation += 360 + degrees % 360; rotation %= 360`; no contract of its own: `LCDMap.TurnedIsAngleSum` proves it `(rotation + degrees) mod 360` and again a multiple of 45 |
| `LCDMap.TurnedIsAngleSum` | src/LCDMap/LCDMap.cpp:122-123 | from a rotation in `{0, 45, …, 315}`, `rotation += 360 + degrees % 360; rotation %= 360` is `(rotation + degrees) mod 360` and again in that set |
| `LCDMap.RotateSprite` | src/LCDMap/LCDMap.cpp:116-125 | a no-op unless `degrees % 45 == 0` and the sprite exists; otherwise only that sprite's rotation changes, and the world invariant (rotations in 45° steps) is kept |
| `LCDMap.TurnsCompose` | src/LCDMap/LCDMap.cpp:122-123 | for multiples of 45, turning by `a` and then by `b` lands on the rotation a single turn by `a + b` gives |
| `LCDMap.RotationsCompose` | src/LCDMap/LCDMap.cpp:116-125 | `rotateSprite(id, a)` then `rotateSprite(id, b)`, both multiples of 45, is the same world as `rotateSprite(id, a + b)` |
| `LCDMap.RotateBackRestores` | src/LCDMap/LCDMap.cpp:116-125 | `rotateSprite(id, d)` followed by `rotateSprite(id, -d)` gives back the world, for every multiple `d` of 45 |
| `LCDMap.NoTurn` | src/LCDMap/LCDMap.cpp:116-125 | a turn by 0 degrees leaves a well-formed world unchanged |
| `LCDMap.CreateSprite` | src/LCDMap/LCDMap.cpp:128-137 | fails, changing nothing, iff the id is taken; otherwise appends a sprite at `(0, 0)`, rotation 0, no frames, with the unclamped size given |
| `LCDMap.RemoveSprite` | src/LCDMap/LCDMap.cpp:140-142 | fails, changing nothing, iff the sprite is absent; otherwise exactly that sprite leaves the registry, the others keep their order, and the invariant is kept |
| `LCDMap.RemoveUndoesCreate` | src/LCDMap/LCDMap.cpp:128-142 | `removeSprite(id)` right after a successful `createSprite(id, size)` succeeds and gives back the world as it was |
| `LCDMap.WithoutKeepsWorldOk` | src/LCDMap/LCDMap.cpp:140-142 | dropping one sprite from a well-formed world leaves a well-formed world |
| `LCDMap.AppendKeepsFit` | src/LCDMap/LCDMap.cpp:149 | appending a valid frame of the sprite's side keeps every frame of the queue fitting the sprite |
| `LCDMap.AddFrame` | src/LCDMap/LCDMap.cpp:145-150 | fails, changing nothing, iff the sprite is absent or the frame id is taken (in H, equivalently in D); otherwise both queues gain a blank frame of the sprite's side under that id; other sprites untouched; H and D keep the same id sequence |
| `LCDMap.SameIdsSameLookup` | src/LCDMap/LCDMap.cpp:149 | queues with the same id sequence agree on `contains`, so the H and D adds of `addFrame` succeed or fail together |
| `LCDMap.SameIdsUnique` | src/LCDMap/LCDMap.cpp:149 | a queue with the same id sequence as one with unique ids has unique ids |
| `LCDMap.SpriteOfOk` | src/LCDMap/LCDMap.cpp:146 | every sprite `get(id)` returns from a well-formed world is well formed |
| `LCDMap.FrameOfFits` | src/LCDMap/LCDMap.cpp:157-158 | every frame `framesH/D.get(frameId)` returns is a valid image of the sprite's side |
| `LCDMap.UpdateKeepsFit` | src/LCDMap/LCDMap.cpp:160 | replacing a frame by a valid one of the same side keeps the queue's frames fitting |
| `LCDMap.ReplaceFrame` | src/LCDMap/LCDMap.cpp:157-160 | writing back through the frame pointer changes that frame and no other frame of any sprite; every other sprite is unchanged and the edited one keeps its position, rotation, size and frame ids; the invariant is kept |
| `LCDMap.ReplaceKeepsOthers` | src/LCDMap/LCDMap.cpp:157-160 | every frame other than the one written reads as before |
| `LCDMap.UpdateKeepsWorldOk` | src/LCDMap/LCDMap.cpp:101-111 | writing a well-formed sprite through `get(id)` keeps the world well formed |
| `LCDMap.EditFrame` | src/LCDMap/LCDMap.cpp:153-194 | fails, changing nothing, iff the sprite, the frame or the pixel does not exist; otherwise that pixel of that frame takes the value, every other pixel and frame is unchanged, every other sprite is unchanged and the edited one keeps its position, rotation, size and frame ids |
| `LCDMap.DrawFrameH` | src/LCDMap/LCDMap.cpp:153-161 | succeeds iff the sprite, its H frame and the pixel exist; then that pixel reads on and every other pixel, frame and sprite is as before (position, rotation, size and frame ids kept); nothing changes on failure |
| `LCDMap.DrawFrameD` | src/LCDMap/LCDMap.cpp:164-172 | succeeds iff the sprite, its D frame and the pixel exist; then that pixel reads on and every other pixel, frame and sprite is as before (position, rotation, size and frame ids kept); nothing changes on failure |
| `LCDMap.EraseFrameH` | src/LCDMap/LCDMap.cpp:175-183 | succeeds iff the sprite, its H frame and the pixel exist; then that pixel reads off and every other pixel, frame and sprite is as before (position, rotation, size and frame ids kept); nothing changes on failure |
| `LCDMap.EraseFrameD` | src/LCDMap/LCDMap.cpp:186-194 | succeeds iff the sprite, its D frame and the pixel exist; then that pixel reads off and every other pixel, frame and sprite is as before (position, rotation, size and frame ids kept); nothing changes on failure |
| `LCDMap.NextFrame` | src/LCDMap/LCDMap.cpp:197-205 | fails iff the sprite is absent; otherwise both frame queues of that sprite rotate once; with unique sprite ids every other sprite is unchanged; the world invariant (H and D with equal id sequences) is kept |
| `LCDMap.NextFrames` | src/LCDMap/LCDMap.cpp:197-205 | `n` calls of `nextFrame(id)` on a present sprite rotate both its frame queues `n` times and change nothing else in the world |
| `LCDMap.NextFrameOfUpdated` | src/LCDMap/LCDMap.cpp:197-205 | `nextFrame(id)` after the sprite was replaced by `x` leaves `x` with both queues rotated once in its place |
| `LCDMap.NextFrameCycle` | src/LCDMap/LCDMap.cpp:197-205 | `frames(id)` calls of `nextFrame(id)` bring a well-formed world back to where it started: the animation is a cycle |
| `LCDMap.AdvanceKeepsWorldOk` | src/LCDMap/LCDMap.cpp:201-202 | rotating both frame queues of a sprite keeps a well-formed world well formed |
| `LCDMap.AdvanceKeepsSpriteOk` | src/LCDMap/LCDMap.cpp:201-202 | lock-step rotation keeps the H and D id sequences equal and every frame fitting |
| `LCDMap.FrameCount` | src/LCDMap/LCDMap.cpp:379-385 | in a well-formed world the H and D queues have the same length, and that is the count returned |
| `Compositor.SelectFrame` | src/LCDMap/LCDMap.cpp:278-318 | with `q = rotation / 90`: rows are read iff `q` is even, forwards iff `q` is 0 or 3, the D queue's head for odd multiples of 45 and the H head otherwise; null iff the sprite is absent, the rotation is off the table, or that queue is empty |
| `Compositor.LineNumber` | src/LCDMap/LCDMap.cpp:321-327 | the line index lies inside the frame, `[0, size)`, exactly when the screen row lies within the sprite's rows; `Compositor.TurnGeometry` proves which line it is |
| `Compositor.StartPosition` | src/LCDMap/LCDMap.cpp:330-336 | the start index lies inside the line, `[0, size)`, exactly when the screen column lies within the sprite's columns; `Compositor.TurnGeometry` proves which pixel it is |
| `Compositor.StepIndex` | src/LCDMap/LCDMap.cpp:349 | step `i` reads line index `start + i` forwards and `start - i` backwards: the product `dir * i` with `dir = ±1` written out. `Compositor.TurnGeometry`, through `LineBit`, shows that this walk reads the quarter-turned frame pixel |
| `Compositor.Place` | src/LCDMap/LCDMap.cpp:354-358 | storing `bit << to` in an unsigned char sets only bit `to`, and only when `to < 8` |
| `Compositor.Piece` | src/LCDMap/LCDMap.cpp:347-360 | after the loop has run steps `0..n-1`, output bit `charWdth - 1 - i` is line bit `start ± i` for `i < n` when that index is in `[0, length)`, and every other bit is zero |
| `Compositor.CopiedBit` | src/LCDMap/LCDMap.cpp:353-358 | step `i` copies line bit `start ± i` when that index is in `[0, length)` and copies nothing otherwise |
| `Compositor.ReadBytePiece` | src/LCDMap/LCDMap.cpp:341-363 | zero for a null line; otherwise output bit `charWdth - 1 - i` equals bit `7 - from % 8` of `arr[from / 8]` for `from = start ± i` in `[0, length)`, and all other bits are zero |
| `Compositor.FullPiece` | src/LCDMap/LCDMap.cpp:348 | once all `charWdth` steps have run, every in-cell output bit has been copied |
| `Compositor.SpriteSizeFitsLine` | src/LCDMap/LCDMap.cpp:267 | with the sprite's size as `length`, `from / 8` stays within the `ceil(side / 8)`-byte line the frame returns |
| `Compositor.CurrentFrameFits` | src/LCDMap/LCDMap.cpp:286-314 | the head frame of the H or D queue is a valid image of the sprite's side |
| `Compositor.SelectedFrameFits` | src/LCDMap/LCDMap.cpp:250 | the frame `selectFrame` returns is a valid image of the sprite's side |
| `Compositor.ReadSpriteShowsRotatedFrame` | src/LCDMap/LCDMap.cpp:243-271 | bit `k` of `readSprite(id, posX, posY)` is on iff `k < charWdth` and the sprite, with its current frame turned by its rotation, lights screen pixel `(posX + charWdth - 1 - k, posY)` |
| `Compositor.ReadSpriteBitAt` | src/LCDMap/LCDMap.cpp:243-271 | the same for one output bit `k`, covering the missing-frame, in-cell and above-cell cases |
| `Compositor.ReadSprite` | src/LCDMap/LCDMap.cpp:243-271 | `readSprite`; no contract of its own: `Compositor.ReadSpriteShowsRotatedFrame` proves bit `k` on iff `k < charWdth` and the turned frame lights screen pixel `(posX + charWdth - 1 - k, posY)` |
| `Compositor.ReadSelected` | src/LCDMap/LCDMap.cpp:253-270 | the part of `readSprite` after the frame is chosen; no contract of its own: `Compositor.ReadSelectedBit` gives each output bit |
| `Compositor.NothingSelected` | src/LCDMap/LCDMap.cpp:250-251 | with no frame selected `readSprite` returns 0 and the sprite lights no pixel |
| `Compositor.ReadSpriteHighBit` | src/LCDMap/LCDMap.cpp:348-354 | bits at or above `charWdth` of the glyph row are zero |
| `Compositor.TurnGeometry` | src/LCDMap/LCDMap.cpp:321-336 | `getLineNumber` and `getStartPosition` pick, for each entry of the selection table, exactly the frame pixel a clockwise quarter-turn carries to the screen pixel |
| `Compositor.RotationKeepsWorld` | src/LCDMap/LCDMap.cpp:229 | rotating the registry keeps the world well formed and every sprite found by `get(id)` as before |
| `Compositor.ReadSpriteById` | src/LCDMap/LCDMap.cpp:243-245 | `readSprite` depends only on the sprite stored under the id and the cell width |
| `Compositor.SpriteRows` | src/LCDMap/LCDMap.cpp:221-228 | one glyph row per visited sprite, in registry order |
| `Compositor.OverlayStep` | src/LCDMap/LCDMap.cpp:226 | or-ing in the next sprite's glyph row extends the overlay by that sprite |
| `Compositor.OverlayShowsLit` | src/LCDMap/LCDMap.cpp:221-228 | bit `k` of the overlay of all sprites is on iff `k < charWdth` and some sprite lights the screen pixel under it |
| `Compositor.CellShowsLit` | src/LCDMap/LCDMap.cpp:217-228 | bit `k` of row `i` of the cell at `(charX, charY)` is on iff `k < charWdth` and some sprite lights pixel `(charX + charWdth - 1 - k, charY + i)` |
| `Compositor.BlankCell` | src/LCDMap/LCDMap.cpp:232-238 | all rows of a cell are zero iff no sprite lights any pixel in the rightmost `min(charWdth, 8)` columns of the cell |
| `Compositor.OrInto` | src/LCDMap/LCDMap.cpp:225-227 | each row `i` of the character becomes its old value or-ed with `readSprite(id, charX, charY + i)` |
| `Compositor.AllZero` | src/LCDMap/LCDMap.cpp:233-235 | the final scan finds no nonzero row iff every row is zero |
| `Compositor.ShiftKeepsWorld` | src/LCDMap/LCDMap.cpp:221-230 | the registry after `t` rotations is well formed and stores every sprite under its id as before |
| `Compositor.VisitNext` | src/LCDMap/LCDMap.cpp:222-229 | at step `t` the head id is that of the `t`-th sprite, found as in the original registry, and the next rotation yields the shift by `t + 1` |
| `Compositor.OrStep` | src/LCDMap/LCDMap.cpp:225-227 | or-ing in the head sprite's rows, read from the rotated registry, extends the overlay of the first `t` sprites to `t + 1` |
| `Compositor.Composite` | src/LCDMap/LCDMap.cpp:210-230 | the sprite loop yields, row by row, the overlay of every sprite's glyph row and leaves the registry exactly as it was |
| `Compositor.ReadCharacter` | src/LCDMap/LCDMap.cpp:209-239 | the registry is unchanged; a non-null result is the cell at `(col * charWdth, row * charHght)`; the result is null iff no sprite lights any pixel in the rightmost `min(charWdth, 8)` columns of that cell |
| `Scenarios.DrawDiagonal` | src/LCDMap/Frame.cpp:31-33 | drawing `(k, k)` for `k` in `0..4` on a blank side-5 frame gives exactly the diagonal |
| `Scenarios.BlankSpriteBuilt` | src/LCDMap/LCDMap.cpp:17-150 | the constructor, `setBounds(0, 0, 0, 0)`, `createSprite(1, 5)` and `addFrame(1, 1)` give one side-5 sprite at `(0, 0)` with blank H and D frames under id 1 |
| `Scenarios.DrawStep` | src/LCDMap/LCDMap.cpp:153-161 | `drawFrameH(1, 1, k, k)` on that world succeeds, adds pixel `(k, k)` to the H frame and keeps everything else |
| `Scenarios.DiagonalWorldIsBuilt` | src/LCDMap/LCDMap.cpp:17-161 | the diagonal world the other scenarios read is exactly what that call sequence, ending with `drawFrameH(1, 1, k, k)` for `k` = 0 .. 4, builds |
| `Scenarios.DiagonalWorldOk` | src/LCDMap/LCDMap.cpp:128-150 | the world with one side-5 sprite, id 1, one frame, rotation 0, at `(0, 0)` is well formed |
| `Scenarios.DiagonalLit` | src/LCDMap/LCDMap.cpp:243-271 | that sprite lights exactly the screen pixels `(k, k)` for `k` in `0..4` |
| `Scenarios.DiagonalCell` | src/LCDMap/LCDMap.cpp:221-228 | row `i` of the cell at `(0, 0)` has only bit `4 - i` set |
| `Scenarios.DiagonalCellNotBlank` | src/LCDMap/LCDMap.cpp:232-235 | the diagonal cell has a lit pixel, so it is not blank |
| `Scenarios.DiagonalCharacter` | src/LCDMap/LCDMap.cpp:209-239 | `readCharacter(0, 0)` on a 5 × 5 cell returns `0x10 0x08 0x04 0x02 0x01` |
| `Scenarios.ShiftIsClamped` | src/LCDMap/LCDMap.cpp:100-112 | with all bounds 0, `charWdth = charHght = 5` and a size-5 sprite at `(0, 0)`, shifts by ±10 on either axis leave the world unchanged |
| `Scenarios.TurnExamples` | src/LCDMap/LCDMap.cpp:116-125 | `rotateSprite(1, 10)` changes nothing, and `rotateSprite(1, 405)` from 0 gives rotation 45 |

## Left out

- Pointer-level list mechanics of `Queue` are left out; the queue is its traversal sequence. The source has link defects the abstract sequence does not reproduce:
  - The first node's `next`/`prev` are initialised from the still-indeterminate `node` (LCDMap/Queue.cpp:88).
  - `add` never updates `head->prev` (LCDMap/Queue.cpp:91-92).
  - `rotate` never updates any `prev` link (LCDMap/Queue.cpp:60-67).
  - Front removal leaves `tail->next` at the deleted node (LCDMap/Queue.cpp:117-124).
  - Back removal leaves `head->prev` at the deleted node (LCDMap/Queue.cpp:128-135).
  - Example: `add(1, a)`, `add(2, b)`, `rotate()`, `remove(1)` takes the tail branch and reads node 1's indeterminate `prev`.
  - Within the library this sequence does not arise. The sprite registry is rotated only in whole cycles by `readCharacter`. Such a cycle brings `head` and `tail` back and never writes a `prev` link. At most it re-points `tail->next` at the head (LCDMap/Queue.cpp:64), which repairs the link a front removal left dangling. Frames are never removed.
- Memory management (`new`/`delete`, destructors) is left out. Ownership is implicit in a value model. This also covers the `Frame` leaked when the first `add` of `addFrame` fails (src/LCDMap/LCDMap.cpp:149).
- Queues.NextFreeId: ids are unbounded integers, so the `char` wrap-around of the upward scan once 127 ids are taken (LCDMap/Queue.cpp:72-75) is not modelled.
- Queues.AddAuto: the same `char` wrap-around is not modelled.
- `short`/`int` overflow of coordinates, sizes, bounds and rotations is not modelled; all are unbounded integers.
- Compositor.Place: a shift `1 << to` with `to` of 32 or more is undefined in C++. The model drops that bit, as it (correctly) drops bits 8 to 31 when the result is stored in an `unsigned char`. Such a `to` needs a cell wider than 32 pixels.
- Queues.Remove, Queues.NextFreeId, Queues.AddAuto and LCDMap.RemoveSprite require unique ids. That is the invariant `add` establishes, and the public operations cannot build a queue with repeated ids.
- LCDMap.AddFrame, LCDMap.EditFrame, LCDMap.ReplaceFrame, the draw/erase functions, Compositor.ReadSprite and Compositor.ReadCharacter require the world invariant. That invariant is established by the constructor and kept by every operation: unique ids, rotations in 45° steps, H and D queues with equal id sequences, and frames of the sprite's side.
- LCDMap.FrameCount requires the sprite to exist. `frames(id)` dereferences `sprites.get(id)` without a null check (src/LCDMap/LCDMap.cpp:380).
- Compositor.ReadCharacter requires `charHght ≥ 0`. With a negative size, `new unsigned char[charHght]` throws `std::bad_array_new_length` (C++11 and later), or aborts on a build without exceptions. The model leaves this error path out through the requires.
- Trivial getters are left out: `getSpriteX`, `getSpriteY`, `getSpriteRot`, `size(id)` and `contains(id)` (src/LCDMap/LCDMap.cpp:79-97, 366-376), plus `Frame::size` and `Queue::size`. Each returns a field, a sequence length, or −1 when the sprite is absent.
- The hand-off of the character to the Arduino LiquidCrystal `createChar`, and any display hardware, are outside this model. They are I/O.
- The headers contribute only field names and constants. These are `ERROR = -1` and `MAX = 10000` (src/LCDMap/LCDMap.h:51-52) and the queue's own `'~'` (src/LCDMap/Queue.h:32).
