/** The insertion-ordered, id-keyed, rotatable collection that serves both as
    the sprite registry and as each sprite's animation cycle. The circular
    doubly-linked list of the source is modelled by the sequence of its
    entries in traversal order, the head (the "current" entry) first. */
module Queues {
  import opened Results

  /** A one-byte identifier (a C++ `char`). */
  type Id = int

  /** The id `id()` reports for an empty queue. */
  const NotFound: Id := '~' as int

  datatype Entry<T> = Entry(id: Id, item: T)

  type Queue<T> = seq<Entry<T>>

  /** The ids in traversal order. */
  function Ids<T>(q: Queue<T>): (ids: seq<Id>)
    ensures |ids| == |q|
    ensures forall i :: 0 <= i < |q| ==> ids[i] == q[i].id
  {
    seq(|q|, i requires 0 <= i < |q| => q[i].id)
  }

  /** The class invariant `add` maintains: no id occurs twice. */
  predicate Unique<T>(q: Queue<T>)
  {
    forall i, j :: 0 <= i < j < |q| ==> q[i].id != q[j].id
  }

  /** Some entry carries `id`. */
  predicate Present<T>(q: Queue<T>, id: Id)
  {
    exists i :: 0 <= i < |q| && q[i].id == id
  }

  /** The scan of `getNode` from position `i` on. */
  function FindFrom<T>(q: Queue<T>, id: Id, i: nat): (r: Option<nat>)
    requires i <= |q|
    ensures r.Some? ==> i <= r.value < |q| && q[r.value].id == id
    ensures r.Some? ==> forall j :: i <= j < r.value ==> q[j].id != id
    ensures r.None? ==> forall j :: i <= j < |q| ==> q[j].id != id
    decreases |q| - i
  {
    if i == |q| then None
    else if q[i].id == id then Some(i)
    else FindFrom(q, id, i + 1)
  }

  /** `getNode`: the position of the first entry with `id`, scanning all
      `length` entries from the head; absent when there is none. */
  function GetNode<T>(q: Queue<T>, id: Id): (r: Option<nat>)
    ensures r.None? <==> !Present(q, id)
    ensures r.Some? ==> r.value < |q| && q[r.value].id == id
    ensures r.Some? ==> forall j :: 0 <= j < r.value ==> q[j].id != id
  {
    FindFrom(q, id, 0)
  }

  /** `contains`. */
  function Contains<T>(q: Queue<T>, id: Id): (b: bool)
    ensures b <==> exists i :: 0 <= i < |q| && q[i].id == id
  {
    GetNode(q, id).Some?
  }

  /** `get()`: the head item, or null for an empty queue. */
  function Get<T>(q: Queue<T>): (r: Option<T>)
    ensures r.None? <==> |q| == 0
    ensures r.Some? ==> q[0].item == r.value
  {
    if |q| == 0 then None else Some(q[0].item)
  }

  /** `id()`: the head id, or `'~'` for an empty queue. */
  function FrontId<T>(q: Queue<T>): (id: Id)
    ensures |q| == 0 ==> id == NotFound
    ensures |q| > 0 ==> id == q[0].id && Contains(q, id)
  {
    if |q| == 0 then NotFound else q[0].id
  }

  /** `get(id)`: the item stored under `id`, or null. */
  function GetById<T>(q: Queue<T>, id: Id): (r: Option<T>)
    ensures r.None? <==> !Contains(q, id)
    ensures r.Some? ==> exists i :: 0 <= i < |q| && q[i] == Entry(id, r.value)
    ensures Unique(q) ==> forall i :: 0 <= i < |q| && q[i].id == id ==> r == Some(q[i].item)
  {
    var node := GetNode(q, id);
    if node.None? then None else Some(q[node.value].item)
  }

  /** `rotate()`: with two or more entries the head moves to the back; the
      queue is a cyclic shift of itself by one. */
  function Rotate<T>(q: Queue<T>): (r: Queue<T>)
    ensures |r| == |q|
    ensures forall i :: 0 <= i < |q| ==> r[i] == q[(i + 1) % |q|]
  {
    var r := if |q| > 1 then q[1..] + [q[0]] else q;
    forall i | 0 <= i < |q|
      ensures r[i] == q[(i + 1) % |q|]
    {
      NextIndex(i, |q|);
    }
    r
  }

  /** The position after `i` on a ring of `n` places. */
  lemma NextIndex(i: int, n: int)
    requires 0 <= i < n
    ensures (i + 1) % n == if i + 1 < n then i + 1 else 0
  {
  }

  /** `n` consecutive calls of `rotate()`. */
  function RotateN<T>(q: Queue<T>, n: nat): (r: Queue<T>)
    decreases n
  {
    if n == 0 then q else Rotate(RotateN(q, n - 1))
  }

  /** `n` rotations shift the queue cyclically by `n`. */
  lemma {:induction false} RotateNIsShift<T>(q: Queue<T>, n: nat)
    requires n <= |q|
    ensures RotateN(q, n) == q[n..] + q[..n]
    decreases n
  {
    if n == 0 {
      assert q[0..] + q[..0] == q;
    } else {
      RotateNIsShift(q, n - 1);
      RotateShifted(q, n - 1);
    }
  }

  /** One more rotation of `q` shifted cyclically by `k` shifts it by
      `k + 1`. */
  lemma RotateShifted<T>(q: Queue<T>, k: nat)
    requires k < |q|
    ensures Rotate(q[k..] + q[..k]) == q[k + 1..] + q[..k + 1]
  {
    var n := |q|;
    var s := q[k..] + q[..k];
    var r := Rotate(s);
    var u := q[k + 1..] + q[..k + 1];
    forall i | 0 <= i < n
      ensures r[i] == u[i]
    {
      NextIndex(i, n);
      if i + 1 < n - k {
        assert r[i] == s[i + 1] == q[k + 1 + i];
        assert u[i] == q[k + 1 + i];
      } else if i + 1 < n {
        assert r[i] == s[i + 1] == q[i + 1 - (n - k)];
        assert u[i] == q[i - (n - k - 1)];
      } else {
        assert r[i] == s[0] == q[k];
        assert u[i] == q[k];
      }
    }
  }

  /** Rotating a queue exactly `size()` times restores it; the compositor
      depends on this to leave the sprite registry as it found it. */
  lemma RotateSizeTimesIsIdentity<T>(q: Queue<T>)
    ensures RotateN(q, |q|) == q
  {
    RotateNIsShift(q, |q|);
    assert q[|q|..] + q[..|q|] == q;
  }

  /** Rotation keeps the entries and the invariant. */
  lemma RotatePreservesEntries<T>(q: Queue<T>)
    requires Unique(q)
    ensures Unique(Rotate(q))
    ensures multiset(Rotate(q)) == multiset(q)
  {
    if |q| > 1 {
      var r := q[1..] + [q[0]];
      assert q == [q[0]] + q[1..];
      forall i, j | 0 <= i < j < |r| ensures r[i].id != r[j].id {
        assert r[i] == q[i + 1];
        assert r[j] == if j < |q| - 1 then q[j + 1] else q[0];
      }
    }
  }

  /** Two queues holding the same id sequence still do after each rotates:
      the lock-step rotation of a sprite's two frame queues. */
  lemma RotateKeepsIdsInStep<T, U>(a: Queue<T>, b: Queue<U>)
    requires Ids(a) == Ids(b)
    ensures Ids(Rotate(a)) == Ids(Rotate(b))
  {
    assert |a| == |b|;
    forall i | 0 <= i < |a| ensures Rotate(a)[i].id == Rotate(b)[i].id {
      assert Ids(a)[(i + 1) % |a|] == Ids(b)[(i + 1) % |a|];
    }
  }

  /** What every id looks up does not depend on the rotation state:
      `get(id)` and `contains` scan all `length` entries. */
  lemma RotatePreservesLookup<T>(q: Queue<T>, id: Id)
    requires Unique(q)
    ensures Contains(Rotate(q), id) == Contains(q, id)
    ensures GetById(Rotate(q), id) == GetById(q, id)
  {
    if |q| > 1 {
      var r := Rotate(q);
      RotatePreservesEntries(q);
      if Contains(q, id) {
        var i :| 0 <= i < |q| && q[i].id == id;
        var k := if i == 0 then |q| - 1 else i - 1;
        assert r[k] == q[i];
        assert GetById(r, id) == Some(q[i].item);
      } else {
        forall k | 0 <= k < |r| ensures r[k].id != id {
          assert r[k] == q[(k + 1) % |q|];
        }
      }
    }
  }

  /** `add(id, value)`: fails, leaving the queue as it was, when the id is
      taken or the value is null; otherwise appends the entry at the back. */
  function Add<T>(q: Queue<T>, id: Id, value: Option<T>): (r: Outcome<Queue<T>>)
    ensures r.ok <==> !Contains(q, id) && value.Some?
    ensures !r.ok ==> r.state == q
    ensures r.ok ==> |r.state| == |q| + 1 && r.state[..|q|] == q
                     && r.state[|q|] == Entry(id, value.value)
    ensures Unique(q) ==> Unique(r.state)
  {
    if Contains(q, id) || value.None? then Outcome(false, q)
    else Outcome(true, q + [Entry(id, value.value)])
  }

  /** The upward scan of `add(value)` for the smallest id from 1 that is not
      taken. */
  method NextFreeId<T>(q: Queue<T>) returns (id: Id)
    requires Unique(q)
    ensures 1 <= id <= |q| + 1
    ensures !Contains(q, id)
    ensures forall k :: 1 <= k < id ==> Contains(q, k)
  {
    id := 1;
    while Contains(q, id)
      invariant 1 <= id <= |q| + 1
      invariant forall k :: 1 <= k < id ==> Contains(q, k)
      decreases |q| + 1 - id
    {
      TakenIdsAreBounded(q, id);
      id := id + 1;
    }
  }

  /** If ids `1 .. n` are all taken, the queue has at least `n` entries
      (so the upward scan stops by `size() + 1`). */
  lemma {:induction false} TakenIdsAreBounded<T>(q: Queue<T>, n: int)
    requires Unique(q) && 0 <= n
    requires forall k :: 1 <= k <= n ==> Contains(q, k)
    ensures n <= |q|
    decreases n
  {
    if n > 0 {
      assert Contains(q, n);
      var i :| 0 <= i < |q| && q[i].id == n;
      var q' := Without(q, i);
      assert forall k :: 0 <= k < |q'| ==> q'[k] == if k < i then q[k] else q[k + 1];
      forall k | 1 <= k <= n - 1 ensures Contains(q', k) {
        assert Contains(q, k);
        var j :| 0 <= j < |q| && q[j].id == k;
        assert j != i;
        assert q'[if j < i then j else j - 1].id == k;
      }
      TakenIdsAreBounded(q', n - 1);
    }
  }

  /** `add(value)`: stores a non-null value under the smallest id from 1
      upward that is not yet taken. */
  method AddAuto<T>(q: Queue<T>, value: Option<T>) returns (r: Outcome<Queue<T>>, id: Id)
    requires Unique(q)
    ensures r.ok <==> value.Some?
    ensures !r.ok ==> r.state == q
    ensures r.ok ==> r.state == q + [Entry(id, value.value)]
    ensures 1 <= id && !Contains(q, id) && forall k :: 1 <= k < id ==> Contains(q, k)
    ensures Unique(r.state)
  {
    id := NextFreeId(q);
    r := Add(q, id, value);
    assert r.ok ==> r.state == q + [Entry(id, value.value)] by {
      if r.ok {
        assert r.state == r.state[..|q|] + [r.state[|q|]];
      }
    }
  }

  /** `q` without the entry at position `i`. */
  function Without<T>(q: Queue<T>, i: nat): (r: Queue<T>)
    requires i < |q|
    ensures |r| == |q| - 1
    ensures forall k :: 0 <= k < |r| ==> r[k] == q[if k < i then k else k + 1]
  {
    q[..i] + q[i + 1..]
  }

  /** `remove(id)`: the four cases of the source (sole entry, head, tail,
      interior). Fails on an empty queue or an absent id. */
  function Remove<T>(q: Queue<T>, id: Id): (r: Outcome<Queue<T>>)
    requires Unique(q)
    ensures r.ok == Contains(q, id)
    ensures if r.ok then |r.state| == |q| - 1 && exists i :: 0 <= i < |q| && q[i].id == id && r.state == Without(q, i)
            else r.state == q
    ensures Unique(r.state)
    ensures !Contains(r.state, id)
  {
    if |q| == 0 then Outcome(false, q)
    else if q[0].id == id && q[|q| - 1].id == id then
      assert |q| == 1 && [] == Without(q, 0);
      Dropped(q, 0)
    else if q[0].id == id then
      assert q[1..] == Without(q, 0);
      Dropped(q, 0)
    else if q[|q| - 1].id == id then
      assert q[..|q| - 1] == Without(q, |q| - 1);
      Dropped(q, |q| - 1)
    else
      var node := GetNode(q, id);
      if node.None? then Outcome(false, q)
      else Dropped(q, node.value)
  }

  /** A successful removal of the entry at `i`. */
  function Dropped<T>(q: Queue<T>, i: nat): (r: Outcome<Queue<T>>)
    requires Unique(q) && i < |q|
    ensures r.ok && r.state == Without(q, i) && |r.state| == |q| - 1
    ensures Unique(r.state) && !Contains(r.state, q[i].id)
  {
    WithoutDrops(q, i);
    Outcome(true, Without(q, i))
  }

  /** Dropping the entry at `i` from a queue without repeated ids leaves a
      queue without repeated ids in which that entry's id is absent. */
  lemma WithoutDrops<T>(q: Queue<T>, i: nat)
    requires Unique(q) && i < |q|
    ensures Unique(Without(q, i))
    ensures !Contains(Without(q, i), q[i].id)
  {
    var r := Without(q, i);
    forall j, k | 0 <= j < k < |r|
      ensures r[j].id != r[k].id
    {
      assert r[j] == q[if j < i then j else j + 1];
      assert r[k] == q[if k < i then k else k + 1];
    }
    forall k | 0 <= k < |r|
      ensures r[k].id != q[i].id
    {
      assert r[k] == q[if k < i then k else k + 1];
    }
  }

  /** Removing the id just added gives back the queue as it was. */
  lemma RemoveUndoesAdd<T>(q: Queue<T>, id: Id, value: Option<T>)
    requires Unique(q) && Add(q, id, value).ok
    ensures Remove(Add(q, id, value).state, id) == Outcome(true, q)
  {
    var q' := Add(q, id, value).state;
    var r := Remove(q', id);
    var i :| 0 <= i < |q'| && q'[i].id == id && r.state == Without(q', i);
    assert i == |q|;
    assert Without(q', |q|) == q'[..|q|];
  }

  /** `clear()`: every entry destroyed; nothing is current any more. */
  function Clear<T>(q: Queue<T>): (r: Queue<T>)
    ensures |r| == 0 && Get(r).None? && FrontId(r) == NotFound
  {
    []
  }

  /** Replaces the item stored under `id`, in place: how the source mutates
      an object through the pointer `get(id)` hands out. */
  function UpdateItem<T>(q: Queue<T>, id: Id, item: T): (r: Queue<T>)
    ensures |r| == |q| && Ids(r) == Ids(q)
    ensures Unique(q) ==> Unique(r)
    ensures Unique(q) ==> forall i :: 0 <= i < |q| ==>
              r[i] == (if q[i].id == id then Entry(id, item) else q[i])
    ensures Unique(q) ==>
              forall k :: GetById(r, k) == if k == id && Contains(q, id) then Some(item) else GetById(q, k)
  {
    var node := GetNode(q, id);
    if node.None? then q
    else
      var r := q[node.value := Entry(id, item)];
      assert forall k :: Contains(r, k) == Contains(q, k) by {
        forall k ensures Contains(r, k) == Contains(q, k) {
          if Contains(q, k) {
            var i :| 0 <= i < |q| && q[i].id == k;
            assert r[i].id == k;
          }
          if Contains(r, k) {
            var i :| 0 <= i < |r| && r[i].id == k;
            assert q[i].id == k;
          }
        }
      }
      r
  }

  /** A second write through `get(id)` overrides the first. */
  lemma UpdateTwice<T>(q: Queue<T>, id: Id, a: T, b: T)
    requires Unique(q)
    ensures UpdateItem(UpdateItem(q, id, a), id, b) == UpdateItem(q, id, b)
  {
    var r := UpdateItem(UpdateItem(q, id, a), id, b);
    assert |r| == |UpdateItem(q, id, b)|;
    forall i | 0 <= i < |q|
      ensures r[i] == UpdateItem(q, id, b)[i]
    {
    }
  }

  /** Writing back the item `get(id)` returned changes nothing. */
  lemma UpdateSame<T>(q: Queue<T>, id: Id)
    requires Unique(q) && GetById(q, id).Some?
    ensures UpdateItem(q, id, GetById(q, id).value) == q
  {
    var r := UpdateItem(q, id, GetById(q, id).value);
    forall i | 0 <= i < |q|
      ensures r[i] == q[i]
    {
    }
  }
}
