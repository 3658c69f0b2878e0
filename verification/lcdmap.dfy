/** The sprite world: character-cell geometry, the four movement bounds, and
    a registry of sprites, each with a position, a rotation in 45° steps and
    two frame queues advanced in lock-step — "H" frames drawn for the upright
    rotations and "D" frames for the diagonal ones. */
module LCDMap {
  import opened Results
  import opened Frames
  import opened Queues

  /** What the getters report for an absent sprite. */
  const ERROR: int := -1
  /** The bound `removeBounds` uses for "unbounded". */
  const MAX: int := 10000

  datatype Sprite = Sprite(
    x: int,
    y: int,
    rotation: int,
    size: int,
    framesH: Queue<Frame>,
    framesD: Queue<Frame>)

  /** The state of one `LCDMap` object. */
  datatype World = World(
    charWdth: int,
    charHght: int,
    topBound: int,
    rightBound: int,
    bottomBound: int,
    leftBound: int,
    sprites: Queue<Sprite>)

  /** 0, 45, ..., 315. */
  predicate ValidRotation(rotation: int)
  {
    0 <= rotation < 360 && rotation % 45 == 0
  }

  /** Every frame of a queue is a well-formed image of the sprite's side. */
  predicate FramesFit(q: Queue<Frame>, size: int)
  {
    forall i :: 0 <= i < |q| ==> Valid(q[i].item) && q[i].item.length == Side(size)
  }

  /** What `createSprite`, `addFrame` and `nextFrame` keep of a sprite: both
      frame queues hold the same ids in the same order. */
  predicate SpriteOk(s: Sprite)
  {
    && ValidRotation(s.rotation)
    && Unique(s.framesH)
    && Ids(s.framesH) == Ids(s.framesD)
    && FramesFit(s.framesH, s.size)
    && FramesFit(s.framesD, s.size)
  }

  /** The invariant every world reachable from the constructor satisfies. */
  predicate WorldOk(w: World)
  {
    Unique(w.sprites) && forall i :: 0 <= i < |w.sprites| ==> SpriteOk(w.sprites[i].item)
  }

  /** The constructor: a character cell of `charWidth` × `charHeight` pixels,
      no sprites, and every bound at `MAX`. */
  function NewWorld(charWidth: int, charHeight: int): (w: World)
    ensures WorldOk(w) && |w.sprites| == 0
    ensures w.charWdth == charWidth && w.charHght == charHeight
    ensures w.topBound == w.rightBound == w.bottomBound == w.leftBound == MAX
  {
    RemoveBounds(World(charWidth, charHeight, 0, 0, 0, 0, []))
  }

  /** `setBounds`: only the four bounds change. */
  function SetBounds(w: World, top: int, right: int, bottom: int, left: int): (r: World)
    ensures r.sprites == w.sprites && r.charWdth == w.charWdth && r.charHght == w.charHght
    ensures r.topBound == top && r.rightBound == right
    ensures r.bottomBound == bottom && r.leftBound == left
  {
    w.(topBound := top, rightBound := right, bottomBound := bottom, leftBound := left)
  }

  /** `removeBounds`: every bound back at `MAX`, nothing else changes. */
  function RemoveBounds(w: World): (r: World)
    ensures r == SetBounds(w, MAX, MAX, MAX, MAX)
  {
    w.(topBound := MAX, rightBound := MAX, bottomBound := MAX, leftBound := MAX)
  }

  /** The sprite stored under `id`, when there is one. */
  function SpriteOf(w: World, id: Id): Option<Sprite>
  {
    GetById(w.sprites, id)
  }

  /** `atTopBounds`: the sprite's top edge lies on the top bound. */
  function AtTopBounds(w: World, id: Id): (b: bool)
    ensures !Contains(w.sprites, id) ==> !b
    ensures Unique(w.sprites) ==> forall i :: 0 <= i < |w.sprites| && w.sprites[i].id == id ==>
              (b <==> w.sprites[i].item.y == -w.topBound)
  {
    var s := SpriteOf(w, id);
    if s.None? then false else s.value.y == -w.topBound
  }

  /** `atRigBounds`: the sprite's right edge lies on the right bound. */
  function AtRigBounds(w: World, id: Id): (b: bool)
    ensures !Contains(w.sprites, id) ==> !b
    ensures Unique(w.sprites) ==> forall i :: 0 <= i < |w.sprites| && w.sprites[i].id == id ==>
              (b <==> w.sprites[i].item.x + w.sprites[i].item.size == w.rightBound + w.charWdth)
  {
    var s := SpriteOf(w, id);
    if s.None? then false else s.value.x + s.value.size == w.rightBound + w.charWdth
  }

  /** `atBotBounds`: the sprite's bottom edge lies on the bottom bound. */
  function AtBotBounds(w: World, id: Id): (b: bool)
    ensures !Contains(w.sprites, id) ==> !b
    ensures Unique(w.sprites) ==> forall i :: 0 <= i < |w.sprites| && w.sprites[i].id == id ==>
              (b <==> w.sprites[i].item.y + w.sprites[i].item.size == w.bottomBound + w.charHght)
  {
    var s := SpriteOf(w, id);
    if s.None? then false else s.value.y + s.value.size == w.bottomBound + w.charHght
  }

  /** `atLefBounds`: the sprite's left edge lies on the left bound. */
  function AtLefBounds(w: World, id: Id): (b: bool)
    ensures !Contains(w.sprites, id) ==> !b
    ensures Unique(w.sprites) ==> forall i :: 0 <= i < |w.sprites| && w.sprites[i].id == id ==>
              (b <==> w.sprites[i].item.x == -w.leftBound)
  {
    var s := SpriteOf(w, id);
    if s.None? then false else s.value.x == -w.leftBound
  }

  /** `atBounds`: touching any of the four bounds; false for an absent sprite. */
  function AtBounds(w: World, id: Id): (b: bool)
    ensures !Contains(w.sprites, id) ==> !b
    ensures b <==> AtTopBounds(w, id) || AtRigBounds(w, id) || AtBotBounds(w, id) || AtLefBounds(w, id)
  {
    AtTopBounds(w, id) || AtRigBounds(w, id) || AtBotBounds(w, id) || AtLefBounds(w, id)
  }

  /** The selection `shiftSprite` applies to a requested displacement `d`:
      `lo` when `lo > d`, else `hi` when `hi < d`, else `d`. When the interval
      is not empty this is `d` clamped into `[lo, hi]`. */
  function Clamp(lo: int, hi: int, d: int): (r: int)
    ensures lo <= hi ==> lo <= r <= hi
    ensures lo <= hi ==> r == Max(lo, Min(hi, d))
    ensures hi < lo ==> r == if d < lo then lo else hi
  {
    if lo > d then lo else if hi < d then hi else d
  }

  function Min(a: int, b: int): int { if a <= b then a else b }
  function Max(a: int, b: int): int { if a <= b then b else a }

  /** The sprite after `shiftSprite` has moved it inside world `w`. */
  function Shifted(w: World, s: Sprite, dx: int, dy: int): Sprite
  {
    var shiftLeft := -w.leftBound - s.x;
    var shiftTop := -w.topBound - s.y;
    var shiftRight := (w.charWdth + w.rightBound) - (s.x + s.size);
    var shiftBottom := (w.charHght + w.bottomBound) - (s.y + s.size);
    s.(x := s.x + Clamp(shiftLeft, shiftRight, dx), y := s.y + Clamp(shiftTop, shiftBottom, dy))
  }

  /** The sprite's bounding box lies within the four bounds. */
  predicate Inside(w: World, s: Sprite)
  {
    && -w.leftBound <= s.x && s.x + s.size <= w.charWdth + w.rightBound
    && -w.topBound <= s.y && s.y + s.size <= w.charHght + w.bottomBound
  }

  /** `shiftSprite`: moves the sprite by the clamped displacement; an absent
      sprite is a no-op and no other sprite or setting changes. */
  function ShiftSprite(w: World, id: Id, dx: int, dy: int): (r: World)
    ensures !Contains(w.sprites, id) ==> r == w
    ensures r.(sprites := w.sprites) == w && Ids(r.sprites) == Ids(w.sprites)
    ensures Unique(w.sprites) ==> forall i :: 0 <= i < |w.sprites| ==>
              r.sprites[i].item == if w.sprites[i].id == id then Shifted(w, w.sprites[i].item, dx, dy)
                                   else w.sprites[i].item
    ensures WorldOk(w) ==> WorldOk(r)
  {
    var s := SpriteOf(w, id);
    if s.None? then w
    else w.(sprites := UpdateItem(w.sprites, id, Shifted(w, s.value, dx, dy)))
  }

  /** A sprite inside the bounds stays inside, whatever the displacement. */
  lemma ShiftStaysInside(w: World, s: Sprite, dx: int, dy: int)
    requires Inside(w, s)
    ensures Inside(w, Shifted(w, s, dx, dy))
    ensures s.size == Shifted(w, s, dx, dy).size
  {
  }

  /** Pushing a sprite that is inside the bounds further than the room it has
      leaves it exactly touching the corresponding bound. */
  lemma ShiftPastRoomTouchesBound(w: World, id: Id, dx: int, dy: int)
    requires Unique(w.sprites)
    requires SpriteOf(w, id).Some? && Inside(w, SpriteOf(w, id).value)
    ensures var s := SpriteOf(w, id).value;
            dx <= -w.leftBound - s.x ==> AtLefBounds(ShiftSprite(w, id, dx, dy), id)
    ensures var s := SpriteOf(w, id).value;
            dx >= (w.charWdth + w.rightBound) - (s.x + s.size) ==> AtRigBounds(ShiftSprite(w, id, dx, dy), id)
    ensures var s := SpriteOf(w, id).value;
            dy <= -w.topBound - s.y ==> AtTopBounds(ShiftSprite(w, id, dx, dy), id)
    ensures var s := SpriteOf(w, id).value;
            dy >= (w.charHght + w.bottomBound) - (s.y + s.size) ==> AtBotBounds(ShiftSprite(w, id, dx, dy), id)
  {
    var s := SpriteOf(w, id).value;
    var r := ShiftSprite(w, id, dx, dy);
    assert SpriteOf(r, id) == Some(Shifted(w, s, dx, dy));
  }

  /** C++ `%` for a positive modulus: the remainder takes the dividend's sign. */
  function TruncMod(a: int, m: int): (r: int)
    requires m > 0
    ensures -m < r < m
    ensures a >= 0 ==> 0 <= r
    ensures a <= 0 ==> r <= 0
  {
    if a >= 0 then a % m else -((-a) % m)
  }

  /** With the moduli `rotateSprite` uses, the C++ remainder is congruent to
      the dividend, and it is zero exactly when Dafny's is. */
  lemma TruncModCongruent(a: int)
    ensures (TruncMod(a, 360) - a) % 360 == 0
    ensures TruncMod(a, 45) == 0 <==> a % 45 == 0
  {
    TruncModCongruent360(a);
    TruncModZero45(a);
  }

  lemma TruncModCongruent360(a: int)
    ensures (TruncMod(a, 360) - a) % 360 == 0
  {
    var b := if a < 0 then -a else a;
    var n := b / 360;
    assert b == n * 360 + b % 360;
    if a < 0 {
      assert TruncMod(a, 360) - a == n * 360;
    } else {
      assert TruncMod(a, 360) - a == (-n) * 360;
    }
  }

  lemma TruncModZero45(a: int)
    ensures TruncMod(a, 45) == 0 <==> a % 45 == 0
  {
    if a < 0 {
      var b := -a;
      assert b == (b / 45) * 45 + b % 45;
      if b % 45 == 0 {
        assert a == (-(b / 45)) * 45;
      }
      if a % 45 == 0 {
        assert a == (a / 45) * 45;
        assert b == (-(a / 45)) * 45;
      }
    }
  }

  /** The rotation `rotateSprite` computes from the current one:
      `rotation += 360 + degrees % 360; rotation %= 360`. */
  function Turned(rotation: int, degrees: int): int
  {
    TruncMod(rotation + (360 + TruncMod(degrees, 360)), 360)
  }

  /** From a valid rotation, turning by a multiple of 45 is adding the angle
      modulo 360 and gives a valid rotation again. */
  lemma TurnedIsAngleSum(rotation: int, degrees: int)
    requires ValidRotation(rotation) && degrees % 45 == 0
    ensures Turned(rotation, degrees) == (rotation + degrees) % 360
    ensures ValidRotation(Turned(rotation, degrees))
  {
    var t := TruncMod(degrees, 360);
    TruncModCongruent360(degrees);
    var m := (t - degrees) / 360;
    assert t - degrees == 360 * m;
    var sum := rotation + (360 + t);
    assert sum == (rotation + degrees) + 360 * (m + 1);
    ShiftBy360(rotation + degrees, m + 1);
    assert (rotation + degrees) % 45 == 0 by {
      ShiftBy45(degrees, rotation / 45);
    }
    RemainderKeeps45(rotation + degrees);
  }

  /** Adding whole turns leaves the remainder modulo 360 alone. */
  lemma ShiftBy360(x: int, k: int)
    ensures (x + 360 * k) % 360 == x % 360
  {
    var d := x / 360;
    assert x == 360 * d + x % 360;
    assert x + 360 * k == 360 * (d + k) + x % 360;
  }

  /** Adding multiples of 45 leaves the remainder modulo 45 alone. */
  lemma ShiftBy45(x: int, k: int)
    ensures (x + 45 * k) % 45 == x % 45
  {
    var d := x / 45;
    assert x == 45 * d + x % 45;
    assert x + 45 * k == 45 * (d + k) + x % 45;
  }

  /** A multiple of 45 reduced modulo 360 is still a multiple of 45. */
  lemma RemainderKeeps45(x: int)
    requires x % 45 == 0
    ensures (x % 360) % 45 == 0
  {
    var d := x / 360;
    assert x % 360 == x + 45 * (-8 * d);
    ShiftBy45(x, -8 * d);
  }


  /** `rotateSprite`: a no-op unless `degrees` is a multiple of 45 and the
      sprite exists; otherwise only that sprite's rotation changes. */
  function RotateSprite(w: World, id: Id, degrees: int): (r: World)
    ensures degrees % 45 != 0 || !Contains(w.sprites, id) ==> r == w
    ensures r.(sprites := w.sprites) == w && Ids(r.sprites) == Ids(w.sprites)
    ensures Unique(w.sprites) ==> forall i :: 0 <= i < |w.sprites| ==>
              r.sprites[i].item == if w.sprites[i].id == id && degrees % 45 == 0
                                   then w.sprites[i].item.(rotation := Turned(w.sprites[i].item.rotation, degrees))
                                   else w.sprites[i].item
    ensures WorldOk(w) ==> WorldOk(r)
  {
    TruncModCongruent(degrees);
    if TruncMod(degrees, 45) != 0 then w
    else
      var s := SpriteOf(w, id);
      if s.None? then w
      else
        var s' := s.value.(rotation := Turned(s.value.rotation, degrees));
        assert WorldOk(w) ==> SpriteOk(s') by {
          TruncModCongruent(degrees);
          if WorldOk(w) {
            assert SpriteOk(s.value);
            TurnedIsAngleSum(s.value.rotation, degrees);
          }
        }
        w.(sprites := UpdateItem(w.sprites, id, s'))
  }

  /** From a valid rotation, turning by `a` and then by `b` is turning by
      `a + b`, when both are multiples of 45. */
  lemma TurnsCompose(rotation: int, a: int, b: int)
    requires ValidRotation(rotation) && a % 45 == 0 && b % 45 == 0
    ensures Turned(Turned(rotation, a), b) == Turned(rotation, a + b)
  {
    TurnedIsAngleSum(rotation, a);
    var r1 := Turned(rotation, a);
    TurnedIsAngleSum(r1, b);
    assert a + b == 45 * (a / 45 + b / 45);
    ShiftBy45(0, a / 45 + b / 45);
    TurnedIsAngleSum(rotation, a + b);
    var k := (rotation + a) / 360;
    assert r1 + b == (rotation + a + b) + 360 * (-k);
    ShiftBy360(rotation + a + b, -k);
  }

  /** Two turns of a sprite by multiples of 45 are one turn by their sum. */
  lemma RotationsCompose(w: World, id: Id, a: int, b: int)
    requires WorldOk(w) && a % 45 == 0 && b % 45 == 0
    ensures RotateSprite(RotateSprite(w, id, a), id, b) == RotateSprite(w, id, a + b)
  {
    TruncModCongruent(a);
    TruncModCongruent(b);
    assert a + b == 45 * (a / 45 + b / 45);
    ShiftBy45(0, a / 45 + b / 45);
    TruncModCongruent(a + b);
    var s := SpriteOf(w, id);
    if s.Some? {
      var sp := s.value;
      SpriteOfOk(w, id);
      var s1 := sp.(rotation := Turned(sp.rotation, a));
      var s2 := s1.(rotation := Turned(s1.rotation, b));
      assert SpriteOf(RotateSprite(w, id, a), id) == Some(s1);
      UpdateTwice(w.sprites, id, s1, s2);
      TurnsCompose(sp.rotation, a, b);
    }
  }

  /** Turning a sprite by `d` and back by `-d` restores the world. */
  lemma RotateBackRestores(w: World, id: Id, d: int)
    requires WorldOk(w) && d % 45 == 0
    ensures RotateSprite(RotateSprite(w, id, d), id, -d) == w
  {
    NegatedTurn(d);
    RotationsCompose(w, id, d, -d);
    assert d + -d == 0;
    NoTurn(w, id);
  }

  lemma NegatedTurn(d: int)
    requires d % 45 == 0
    ensures -d % 45 == 0
  {
    assert -d == 45 * (-(d / 45));
    ShiftBy45(0, -(d / 45));
  }

  /** A turn by 0 degrees changes nothing. */
  lemma NoTurn(w: World, id: Id)
    requires WorldOk(w)
    ensures RotateSprite(w, id, 0) == w
  {
    var s := SpriteOf(w, id);
    if s.Some? {
      SpriteOfOk(w, id);
      TurnedIsAngleSum(s.value.rotation, 0);
      UpdateSame(w.sprites, id);
    }
  }

  /** `createSprite`: fails if the id is taken; otherwise registers a sprite
      at (0, 0), rotation 0, no frames, of the given (unclamped) size at the
      back of the registry. */
  function CreateSprite(w: World, id: Id, sideLength: int): (r: Outcome<World>)
    ensures r.ok <==> !Contains(w.sprites, id)
    ensures !r.ok ==> r.state == w
    ensures r.ok ==> r.state == w.(sprites := w.sprites + [Entry(id, Sprite(0, 0, 0, sideLength, [], []))])
    ensures WorldOk(w) ==> WorldOk(r.state)
  {
    if Contains(w.sprites, id) then Outcome(false, w)
    else
      var added := Add(w.sprites, id, Some(Sprite(0, 0, 0, sideLength, [], [])));
      assert added.state == w.sprites + [Entry(id, Sprite(0, 0, 0, sideLength, [], []))];
      Outcome(added.ok, w.(sprites := added.state))
  }

  /** `removeSprite`: fails for an absent id; otherwise the registry loses
      exactly that sprite and keeps the others in order. */
  function RemoveSprite(w: World, id: Id): (r: Outcome<World>)
    requires Unique(w.sprites)
    ensures r.ok <==> Contains(w.sprites, id)
    ensures !r.ok ==> r.state == w
    ensures r.state.(sprites := w.sprites) == w && !Contains(r.state.sprites, id)
    ensures r.ok ==> exists i :: 0 <= i < |w.sprites| && w.sprites[i].id == id
                                 && r.state.sprites == Without(w.sprites, i)
    ensures WorldOk(w) ==> WorldOk(r.state)
  {
    var removed := Remove(w.sprites, id);
    if removed.ok && WorldOk(w) then
      var i :| 0 <= i < |w.sprites| && w.sprites[i].id == id && removed.state == Without(w.sprites, i);
      WithoutKeepsWorldOk(w, i);
      Outcome(true, w.(sprites := removed.state))
    else
      Outcome(removed.ok, w.(sprites := removed.state))
  }

  /** Removing a sprite just created gives back the world as it was. */
  lemma RemoveUndoesCreate(w: World, id: Id, sideLength: int)
    requires WorldOk(w) && CreateSprite(w, id, sideLength).ok
    ensures RemoveSprite(CreateSprite(w, id, sideLength).state, id) == Outcome(true, w)
  {
    var sp := Sprite(0, 0, 0, sideLength, [], []);
    assert CreateSprite(w, id, sideLength).state.sprites == Add(w.sprites, id, Some(sp)).state;
    RemoveUndoesAdd(w.sprites, id, Some(sp));
  }

  /** Dropping one sprite keeps every remaining sprite well formed. */
  lemma WithoutKeepsWorldOk(w: World, i: nat)
    requires WorldOk(w) && i < |w.sprites|
    ensures WorldOk(w.(sprites := Without(w.sprites, i)))
  {
    var r := Without(w.sprites, i);
    forall j, k | 0 <= j < k < |r|
      ensures r[j].id != r[k].id
    {
      assert r[j] == w.sprites[if j < i then j else j + 1];
      assert r[k] == w.sprites[if k < i then k else k + 1];
    }
  }

  /** The frame stored under `frameId` in the H (`diagonal` false) or D queue. */
  function FrameOf(w: World, id: Id, frameId: Id, diagonal: bool): Option<Frame>
  {
    var s := SpriteOf(w, id);
    if s.None? then None
    else GetById(if diagonal then s.value.framesD else s.value.framesH, frameId)
  }

  lemma AppendKeepsFit(q: Queue<Frame>, size: int, e: Entry<Frame>)
    requires FramesFit(q, size) && Valid(e.item) && e.item.length == Side(size)
    ensures FramesFit(q + [e], size)
  {
    assert forall i :: 0 <= i < |q + [e]| ==> (q + [e])[i] == if i < |q| then q[i] else e;
  }

  /** `addFrame`: appends a blank frame of the sprite's side under `frameId`
      to the H queue and then to the D queue. Fails when the sprite is absent
      or the id is taken; since both queues hold the same ids, the two adds
      succeed or fail together and a failure changes nothing. */
  function AddFrame(w: World, id: Id, frameId: Id): (r: Outcome<World>)
    requires WorldOk(w)
    ensures r.ok <==> Contains(w.sprites, id) && FrameOf(w, id, frameId, false).None?
    ensures r.ok <==> Contains(w.sprites, id) && FrameOf(w, id, frameId, true).None?
    ensures !r.ok ==> r.state == w
    ensures r.state.(sprites := w.sprites) == w && Ids(r.state.sprites) == Ids(w.sprites)
    ensures r.ok ==> var s := SpriteOf(w, id).value;
                     SpriteOf(r.state, id) == Some(s.(framesH := s.framesH + [Entry(frameId, NewFrame(s.size))],
                                                       framesD := s.framesD + [Entry(frameId, NewFrame(s.size))]))
    ensures forall k :: k != id ==> SpriteOf(r.state, k) == SpriteOf(w, k)
    ensures WorldOk(r.state)
  {
    var s := SpriteOf(w, id);
    if s.None? then Outcome(false, w)
    else
      var sp := s.value;
      var i := GetNode(w.sprites, id).value;
      assert SpriteOk(w.sprites[i].item);
      var h := Add(sp.framesH, frameId, Some(NewFrame(sp.size)));
      if !h.ok then Outcome(false, w)
      else
        SameIdsSameLookup(sp.framesH, sp.framesD, frameId);
        var d := Add(sp.framesD, frameId, Some(NewFrame(sp.size)));
        var sp' := sp.(framesH := h.state, framesD := d.state);
        assert h.state == sp.framesH + [Entry(frameId, NewFrame(sp.size))] by {
          assert h.state == h.state[..|sp.framesH|] + [h.state[|sp.framesH|]];
        }
        assert d.state == sp.framesD + [Entry(frameId, NewFrame(sp.size))] by {
          assert d.state == d.state[..|sp.framesD|] + [d.state[|sp.framesD|]];
        }
        AppendKeepsFit(sp.framesH, sp.size, Entry(frameId, NewFrame(sp.size)));
        AppendKeepsFit(sp.framesD, sp.size, Entry(frameId, NewFrame(sp.size)));
        assert Ids(h.state) == Ids(sp.framesH) + [frameId];
        assert Ids(d.state) == Ids(sp.framesD) + [frameId];
        assert SpriteOk(sp');
        Outcome(d.ok, w.(sprites := UpdateItem(w.sprites, id, sp')))
  }

  /** Queues with the same id sequence agree on which ids they contain. */
  lemma SameIdsSameLookup<T, U>(a: Queue<T>, b: Queue<U>, id: Id)
    requires Ids(a) == Ids(b)
    ensures Contains(a, id) == Contains(b, id)
  {
    if Contains(a, id) {
      var i :| 0 <= i < |a| && a[i].id == id;
      assert Ids(a)[i] == Ids(b)[i];
    }
    if Contains(b, id) {
      var i :| 0 <= i < |b| && b[i].id == id;
      assert Ids(a)[i] == Ids(b)[i];
    }
  }

  /** A sprite of a well-formed world is well-formed. */
  lemma SpriteOfOk(w: World, id: Id)
    requires WorldOk(w) && SpriteOf(w, id).Some?
    ensures SpriteOk(SpriteOf(w, id).value)
  {
    var i := GetNode(w.sprites, id).value;
    assert SpriteOk(w.sprites[i].item);
  }

  /** Equal id sequences carry the invariant over. */
  lemma SameIdsUnique<T, U>(a: Queue<T>, b: Queue<U>)
    requires Ids(a) == Ids(b) && Unique(a)
    ensures Unique(b)
  {
    forall i, j | 0 <= i < j < |b| ensures b[i].id != b[j].id {
      assert Ids(a)[i] == Ids(b)[i] && Ids(a)[j] == Ids(b)[j];
    }
  }

  /** Every frame of a well-formed world is a valid image of its sprite's side. */
  lemma FrameOfFits(w: World, id: Id, frameId: Id, diagonal: bool)
    requires WorldOk(w) && FrameOf(w, id, frameId, diagonal).Some?
    ensures Valid(FrameOf(w, id, frameId, diagonal).value)
    ensures FrameOf(w, id, frameId, diagonal).value.length == Side(SpriteOf(w, id).value.size)
  {
    var sp := SpriteOf(w, id).value;
    SpriteOfOk(w, id);
    var frames := if diagonal then sp.framesD else sp.framesH;
    var j := GetNode(frames, frameId).value;
    assert frames[j].item == FrameOf(w, id, frameId, diagonal).value;
  }

  /** The sprite with frame `frameId` of one style replaced by `g`. */
  function WithFrame(sp: Sprite, frameId: Id, diagonal: bool, g: Frame): Sprite
  {
    if diagonal then sp.(framesD := UpdateItem(sp.framesD, frameId, g))
    else sp.(framesH := UpdateItem(sp.framesH, frameId, g))
  }

  lemma UpdateKeepsFit(q: Queue<Frame>, size: int, frameId: Id, g: Frame)
    requires FramesFit(q, size) && Unique(q) && Valid(g) && g.length == Side(size)
    ensures FramesFit(UpdateItem(q, frameId, g), size)
  {
  }

  /** Two sprites agree on everything but the contents of their frames:
      position, rotation, size and the id sequences of both queues. */
  predicate SameLayout(a: Sprite, b: Sprite)
  {
    && a.x == b.x && a.y == b.y && a.rotation == b.rotation && a.size == b.size
    && Ids(a.framesH) == Ids(b.framesH) && Ids(a.framesD) == Ids(b.framesD)
  }

  /** Writing a frame back through the pointer `get(frameId)` hands out:
      that one frame changes and every other frame of every sprite stays. */
  function ReplaceFrame(w: World, id: Id, frameId: Id, diagonal: bool, g: Frame): (r: World)
    requires WorldOk(w) && FrameOf(w, id, frameId, diagonal).Some?
    requires Valid(g) && g.length == FrameOf(w, id, frameId, diagonal).value.length
    ensures WorldOk(r)
    ensures r.(sprites := w.sprites) == w && Ids(r.sprites) == Ids(w.sprites)
    ensures FrameOf(r, id, frameId, diagonal) == Some(g)
    ensures forall k, fk, dk :: (k, fk, dk) != (id, frameId, diagonal) ==>
              FrameOf(r, k, fk, dk) == FrameOf(w, k, fk, dk)
    ensures SpriteOf(r, id).Some? && SameLayout(SpriteOf(r, id).value, SpriteOf(w, id).value)
    ensures forall k :: k != id ==> SpriteOf(r, k) == SpriteOf(w, k)
  {
    var sp := SpriteOf(w, id).value;
    SpriteOfOk(w, id);
    FrameOfFits(w, id, frameId, diagonal);
    SameIdsUnique(sp.framesH, sp.framesD);
    var sp' := WithFrame(sp, frameId, diagonal, g);
    UpdateKeepsFit(if diagonal then sp.framesD else sp.framesH, sp.size, frameId, g);
    assert SpriteOk(sp');
    var r := w.(sprites := UpdateItem(w.sprites, id, sp'));
    UpdateKeepsWorldOk(w, id, sp');
    assert SpriteOf(r, id) == Some(sp');
    ReplaceKeepsOthers(w, id, frameId, diagonal, g, sp, sp');
    r
  }

  /** Replacing one frame of sprite `id` leaves every other frame of every
      sprite where it was. */
  lemma ReplaceKeepsOthers(w: World, id: Id, frameId: Id, diagonal: bool, g: Frame, sp: Sprite, sp': Sprite)
    requires Unique(w.sprites) && SpriteOf(w, id) == Some(sp)
    requires Unique(sp.framesH) && Unique(sp.framesD) && sp' == WithFrame(sp, frameId, diagonal, g)
    ensures forall k, fk, dk :: (k, fk, dk) != (id, frameId, diagonal) ==>
              FrameOf(w.(sprites := UpdateItem(w.sprites, id, sp')), k, fk, dk) == FrameOf(w, k, fk, dk)
  {
  }

  /** Replacing one sprite by a well-formed one keeps the world well formed. */
  lemma UpdateKeepsWorldOk(w: World, id: Id, sp: Sprite)
    requires WorldOk(w) && SpriteOk(sp)
    ensures WorldOk(w.(sprites := UpdateItem(w.sprites, id, sp)))
  {
  }

  /** What setting pixel `(x, y)` of the named frame to `value` promises:
      success exactly when the sprite, the frame and the pixel exist; on
      failure nothing changes; on success that pixel reads `value`, every
      other pixel of the frame and every other frame of every sprite reads as
      before, every sprite keeps its position, rotation, size and frame ids,
      and the bounds, cell size, sprite ids and the world invariant are
      kept. */
  ghost predicate PixelEdited(w: World, r: Outcome<World>, id: Id, frameId: Id, diagonal: bool, x: int, y: int, value: bool)
  {
    && (r.ok <==> FrameOf(w, id, frameId, diagonal).Some?
                  && 0 <= x < Side(SpriteOf(w, id).value.size) && 0 <= y < Side(SpriteOf(w, id).value.size))
    && (!r.ok ==> r.state == w)
    && WorldOk(r.state)
    && r.state.(sprites := w.sprites) == w && Ids(r.state.sprites) == Ids(w.sprites)
    && (r.ok ==> var before := FrameOf(w, id, frameId, diagonal);
                 var after := FrameOf(r.state, id, frameId, diagonal);
                 && before.Some? && after.Some? && Valid(before.value) && Valid(after.value)
                 && GetPixel(after.value, x, y) == value
                 && (forall a, b :: (a, b) != (x, y) ==> GetPixel(after.value, a, b) == GetPixel(before.value, a, b))
                 && SpriteOf(r.state, id).Some? && SameLayout(SpriteOf(r.state, id).value, SpriteOf(w, id).value)
                 && forall k :: k != id ==> SpriteOf(r.state, k) == SpriteOf(w, k))
    && forall k, fk, dk :: (k, fk, dk) != (id, frameId, diagonal) ==>
         FrameOf(r.state, k, fk, dk) == FrameOf(w, k, fk, dk)
  }

  /** The shared body of `drawFrameH/D` and `eraseFrameH/D`: set pixel
      `(x, y)` of the named frame to `value`. */
  function EditFrame(w: World, id: Id, frameId: Id, diagonal: bool, x: int, y: int, value: bool): (r: Outcome<World>)
    requires WorldOk(w)
    ensures PixelEdited(w, r, id, frameId, diagonal, x, y, value)
  {
    var f := FrameOf(w, id, frameId, diagonal);
    if f.None? then Outcome(false, w)
    else
      FrameOfFits(w, id, frameId, diagonal);
      var e := SetPixel(f.value, x, y, value);
      if !e.ok then Outcome(false, w)
      else Outcome(true, ReplaceFrame(w, id, frameId, diagonal, e.state))
  }

  /** `drawFrameH`: turns the pixel of the H frame on. */
  function DrawFrameH(w: World, id: Id, frameId: Id, x: int, y: int): (r: Outcome<World>)
    requires WorldOk(w)
    ensures PixelEdited(w, r, id, frameId, false, x, y, true)
  {
    EditFrame(w, id, frameId, false, x, y, true)
  }

  /** `drawFrameD`: turns the pixel of the D frame on. */
  function DrawFrameD(w: World, id: Id, frameId: Id, x: int, y: int): (r: Outcome<World>)
    requires WorldOk(w)
    ensures PixelEdited(w, r, id, frameId, true, x, y, true)
  {
    EditFrame(w, id, frameId, true, x, y, true)
  }

  /** `eraseFrameH`: turns the pixel of the H frame off. */
  function EraseFrameH(w: World, id: Id, frameId: Id, x: int, y: int): (r: Outcome<World>)
    requires WorldOk(w)
    ensures PixelEdited(w, r, id, frameId, false, x, y, false)
  {
    EditFrame(w, id, frameId, false, x, y, false)
  }

  /** `eraseFrameD`: turns the pixel of the D frame off. */
  function EraseFrameD(w: World, id: Id, frameId: Id, x: int, y: int): (r: Outcome<World>)
    requires WorldOk(w)
    ensures PixelEdited(w, r, id, frameId, true, x, y, false)
  {
    EditFrame(w, id, frameId, true, x, y, false)
  }

  /** `nextFrame`: advances both frame queues of the sprite by one rotation.
      Fails only for an absent sprite. */
  function NextFrame(w: World, id: Id): (r: Outcome<World>)
    ensures r.ok <==> Contains(w.sprites, id)
    ensures !r.ok ==> r.state == w
    ensures r.state.(sprites := w.sprites) == w && Ids(r.state.sprites) == Ids(w.sprites)
    ensures r.ok ==> var s := SpriteOf(w, id).value;
                     SpriteOf(r.state, id) == Some(s.(framesH := Rotate(s.framesH), framesD := Rotate(s.framesD)))
    ensures Unique(w.sprites) ==> forall k :: k != id ==> SpriteOf(r.state, k) == SpriteOf(w, k)
    ensures WorldOk(w) ==> WorldOk(r.state)
  {
    var s := SpriteOf(w, id);
    if s.None? then Outcome(false, w)
    else
      var sp := s.value;
      var sp' := Advanced(sp);
      AdvanceKeepsWorldOk(w, id);
      Outcome(true, w.(sprites := UpdateItem(w.sprites, id, sp')))
  }

  /** A sprite with both frame queues rotated `n` times. */
  function Cycled(sp: Sprite, n: nat): Sprite
  {
    sp.(framesH := RotateN(sp.framesH, n), framesD := RotateN(sp.framesD, n))
  }

  /** The world with sprite `id` replaced by `x`. */
  function Replaced(w: World, id: Id, x: Sprite): World
  {
    w.(sprites := UpdateItem(w.sprites, id, x))
  }

  /** `n` consecutive calls of `nextFrame(id)`: they rotate both frame
      queues of sprite `id` `n` times and change nothing else. */
  function NextFrames(w: World, id: Id, n: nat): (r: World)
    ensures Unique(w.sprites) && SpriteOf(w, id).Some? ==> r == Replaced(w, id, Cycled(SpriteOf(w, id).value, n))
    decreases n
  {
    if n == 0 then
      CycleStart(w, id);
      w
    else
      CycleStep(w, id, n);
      NextFrame(NextFrames(w, id, n - 1), id).state
  }

  /** Zero turns of the cycle leave the world as it is. */
  lemma CycleStart(w: World, id: Id)
    ensures Unique(w.sprites) && SpriteOf(w, id).Some? ==> Replaced(w, id, Cycled(SpriteOf(w, id).value, 0)) == w
  {
    if Unique(w.sprites) && SpriteOf(w, id).Some? {
      var sp := SpriteOf(w, id).value;
      assert Cycled(sp, 0) == sp;
      UpdateSame(w.sprites, id);
    }
  }

  /** `nextFrame(id)` after `n - 1` turns of the cycle gives `n` turns. */
  lemma CycleStep(w: World, id: Id, n: nat)
    requires 0 < n
    ensures Unique(w.sprites) && SpriteOf(w, id).Some? ==>
              var sp := SpriteOf(w, id).value;
              NextFrame(Replaced(w, id, Cycled(sp, n - 1)), id).state == Replaced(w, id, Cycled(sp, n))
  {
    if Unique(w.sprites) && SpriteOf(w, id).Some? {
      var sp := SpriteOf(w, id).value;
      NextFrameOfUpdated(w, id, Cycled(sp, n - 1));
      CycledStep(sp, n);
    }
  }

  lemma CycledStep(sp: Sprite, n: nat)
    requires 0 < n
    ensures Advanced(Cycled(sp, n - 1)) == Cycled(sp, n)
  {
  }

  /** `nextFrame(id)` after sprite `id` was replaced by `x` leaves the
      world with `x` advanced in its place. */
  lemma NextFrameOfUpdated(w: World, id: Id, x: Sprite)
    requires Unique(w.sprites) && SpriteOf(w, id).Some?
    ensures NextFrame(Replaced(w, id, x), id).state == Replaced(w, id, Advanced(x))
  {
    var u := Replaced(w, id, x);
    assert SpriteOf(u, id) == Some(x);
    UpdateTwice(w.sprites, id, x, Advanced(x));
  }

  /** Calling `nextFrame(id)` `frames(id)` times shows the first frame again:
      the animation is a cycle and the world comes back unchanged. */
  lemma NextFrameCycle(w: World, id: Id)
    requires WorldOk(w) && Contains(w.sprites, id)
    ensures NextFrames(w, id, FrameCount(w, id)) == w
  {
    var sp := SpriteOf(w, id).value;
    RotateSizeTimesIsIdentity(sp.framesH);
    RotateSizeTimesIsIdentity(sp.framesD);
    UpdateSame(w.sprites, id);
  }

  /** A sprite with both frame queues rotated once. */
  function Advanced(sp: Sprite): Sprite
  {
    sp.(framesH := Rotate(sp.framesH), framesD := Rotate(sp.framesD))
  }

  /** Rotating both frame queues of a sprite of a well-formed world in
      lock-step keeps the world well formed. */
  lemma AdvanceKeepsWorldOk(w: World, id: Id)
    requires SpriteOf(w, id).Some?
    ensures WorldOk(w) ==> WorldOk(w.(sprites := UpdateItem(w.sprites, id, Advanced(SpriteOf(w, id).value))))
  {
    if WorldOk(w) {
      var sp := SpriteOf(w, id).value;
      SpriteOfOk(w, id);
      AdvanceKeepsSpriteOk(sp);
      UpdateKeepsWorldOk(w, id, Advanced(sp));
    }
  }

  /** Lock-step rotation keeps a sprite well formed. */
  lemma AdvanceKeepsSpriteOk(sp: Sprite)
    requires SpriteOk(sp)
    ensures SpriteOk(Advanced(sp))
  {
    RotatePreservesEntries(sp.framesH);
    RotateKeepsIdsInStep(sp.framesH, sp.framesD);
    forall k | 0 <= k < |sp.framesH|
      ensures Rotate(sp.framesH)[k] == sp.framesH[(k + 1) % |sp.framesH|]
    {
      NextIndex(k, |sp.framesH|);
    }
    forall k | 0 <= k < |sp.framesD|
      ensures Rotate(sp.framesD)[k] == sp.framesD[(k + 1) % |sp.framesD|]
    {
      NextIndex(k, |sp.framesD|);
    }
  }

  /** `frames(id)`: the frame count, or `ERROR` if the two queues disagree,
      which the invariant rules out. The source dereferences the sprite
      without a null check, so the sprite must exist. */
  function FrameCount(w: World, id: Id): (n: int)
    requires Contains(w.sprites, id)
    ensures WorldOk(w) ==> n == |SpriteOf(w, id).value.framesH| == |SpriteOf(w, id).value.framesD|
  {
    var s := SpriteOf(w, id).value;
    if |s.framesH| == |s.framesD| then |s.framesH| else ERROR
  }
}
