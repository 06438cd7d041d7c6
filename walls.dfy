/**
 * The wall field: an insertion-ordered list of wall rectangles that scrolls left by five each
 * tick, drops walls that have left the screen, and grows by one top/bottom pair per spawn.
 * The random gap height is a parameter of `Create`.
 */
module WallField {
  import opened Geometry

  /** Vertical size of the opening between the two walls of a pair. */
  const Gap: int := 300
  /** Width of every wall. */
  const WallWidth: int := 70
  /** Horizontal distance every wall moves per tick. */
  const ScrollStep: int := 5
  /** Smallest height of a top wall, and smallest distance from the gap to the screen bottom. */
  const Margin: int := 100

  /** A wall one tick later. */
  function Scrolled(w: Rect): (r: Rect)
    ensures r.Right() == w.Right() - ScrollStep && r.Top() == w.Top() && r.Bottom() == w.Bottom()
  {
    w.(x := w.x - ScrollStep)
  }

  /** The position of the first element of `s` equal to `x`. */
  function FirstIndex(s: seq<Rect>, x: Rect): (k: nat)
    requires x in s
    ensures k < |s| && s[k] == x && x !in s[..k]
    decreases |s|
  {
    if s[0] == x then 0
    else
      var k := FirstIndex(s[1..], x);
      assert s[..k + 1] == [s[0]] + s[1..][..k];
      k + 1
  }

  /** `list.remove`: delete the first element equal to `x` (rectangles compare by value). */
  function RemoveFirst(s: seq<Rect>, x: Rect): (r: seq<Rect>)
    requires x in s
    ensures |r| == |s| - 1
    ensures multiset(r) == multiset(s) - multiset{x}
    decreases |s|
  {
    assert s == [s[0]] + s[1..];
    if s[0] == x then s[1..]
    else [s[0]] + RemoveFirst(s[1..], x)
  }

  /** Skipping position `k + 1` of `s` is putting `s[0]` in front of its tail with position `k` skipped. */
  lemma ConsSkip<T>(s: seq<T>, k: nat)
    requires k + 1 < |s|
    ensures [s[0]] + (s[1..][..k] + s[1..][k + 1..]) == s[..k + 1] + s[k + 2..]
  {
    assert s[..k + 1] == [s[0]] + s[1..][..k];
    assert s[k + 2..] == s[1..][k + 1..];
  }

  /** When the head differs from `x`, both searches continue in the tail. */
  lemma TailStep(s: seq<Rect>, x: Rect)
    requires x in s && s[0] != x
    ensures x in s[1..]
    ensures FirstIndex(s, x) == FirstIndex(s[1..], x) + 1
    ensures RemoveFirst(s, x) == [s[0]] + RemoveFirst(s[1..], x)
  {
    var j :| 0 <= j < |s| && s[j] == x;
    assert s[1..][j - 1] == x;
  }

  /** `list.remove` deletes the first equal element and keeps every other element in order. */
  lemma {:induction false} RemoveFirstDeletesFirst(s: seq<Rect>, x: Rect)
    requires x in s
    ensures RemoveFirst(s, x) == s[..FirstIndex(s, x)] + s[FirstIndex(s, x) + 1..]
    decreases |s|
  {
    if s[0] == x {
      assert FirstIndex(s, x) == 0;
      assert s[..0] + s[1..] == s[1..];
    } else {
      TailStep(s, x);
      var k := FirstIndex(s[1..], x);
      RemoveFirstDeletesFirst(s[1..], x);
      ConsSkip(s, k);
    }
  }

  /**
   * The first loop of `Walls.update` from list position `i` on: Python's list iterator reads
   * the element at position `i` and moves to `i + 1`, whatever the loop body removed, so the
   * element that slides into position `i` after a removal is never looked at.
   */
  function RemovePass(s: seq<Rect>, i: nat): seq<Rect>
    decreases |s|, |s| - i
  {
    if i >= |s| then s
    else if s[i].Right() < 0 then RemovePass(RemoveFirst(s, s[i]), i + 1)
    else RemovePass(s, i + 1)
  }

  /** `t` is `s` with some walls deleted, each deleted wall off the screen (`right < 0`), order kept. */
  predicate DropsOffscreen(t: seq<Rect>, s: seq<Rect>)
    decreases |s|
  {
    if s == [] then t == []
    else
      (t != [] && t[0] == s[0] && DropsOffscreen(t[1..], s[1..])) ||
      (s[0].Right() < 0 && DropsOffscreen(t, s[1..]))
  }

  lemma {:induction false} DropsNothing(s: seq<Rect>)
    ensures DropsOffscreen(s, s)
    decreases |s|
  {
    if s != [] {
      DropsNothing(s[1..]);
    }
  }

  lemma {:induction false} DropsTransitive(a: seq<Rect>, b: seq<Rect>, c: seq<Rect>)
    requires DropsOffscreen(a, b) && DropsOffscreen(b, c)
    ensures DropsOffscreen(a, c)
    decreases |c|
  {
    if c != [] {
      if b != [] && b[0] == c[0] && DropsOffscreen(b[1..], c[1..]) {
        if a != [] && a[0] == b[0] && DropsOffscreen(a[1..], b[1..]) {
          DropsTransitive(a[1..], b[1..], c[1..]);
        } else {
          DropsTransitive(a, b[1..], c[1..]);
        }
      } else {
        DropsTransitive(a, b, c[1..]);
      }
    }
  }

  lemma {:induction false} RemoveFirstDrops(s: seq<Rect>, x: Rect)
    requires x in s && x.Right() < 0
    ensures DropsOffscreen(RemoveFirst(s, x), s)
    decreases |s|
  {
    if s[0] == x {
      DropsNothing(s[1..]);
    } else {
      RemoveFirstDrops(s[1..], x);
      assert RemoveFirst(s, x)[1..] == RemoveFirst(s[1..], x);
    }
  }

  lemma {:induction false} RemovePassDrops(s: seq<Rect>, i: nat)
    ensures DropsOffscreen(RemovePass(s, i), s)
    decreases |s|, |s| - i
  {
    if i >= |s| {
      DropsNothing(s);
    } else if s[i].Right() < 0 {
      RemovePassDrops(RemoveFirst(s, s[i]), i + 1);
      RemoveFirstDrops(s, s[i]);
      DropsTransitive(RemovePass(s, i), RemoveFirst(s, s[i]), s);
    } else {
      RemovePassDrops(s, i + 1);
    }
  }

  /** Dropping only off-screen walls keeps every on-screen wall, with its multiplicity, and adds nothing. */
  lemma {:induction false} DropsKeepsOnscreen(t: seq<Rect>, s: seq<Rect>)
    requires DropsOffscreen(t, s)
    ensures |t| <= |s| && multiset(t) <= multiset(s)
    ensures forall w: Rect :: w.Right() >= 0 ==> multiset(t)[w] == multiset(s)[w]
    decreases |s|
  {
    if s != [] {
      assert s == [s[0]] + s[1..];
      if t != [] && t[0] == s[0] && DropsOffscreen(t[1..], s[1..]) {
        DropsKeepsOnscreen(t[1..], s[1..]);
        assert t == [t[0]] + t[1..];
      } else {
        DropsKeepsOnscreen(t, s[1..]);
      }
    }
  }

  /**
   * What the removal loop of `update` guarantees: it adds no wall, removes only walls whose
   * right edge is below zero, never one with `right >= 0`, and keeps the survivors in order.
   */
  lemma RemovalOnlyDropsOffscreen(s: seq<Rect>)
    ensures DropsOffscreen(RemovePass(s, 0), s)
    ensures |RemovePass(s, 0)| <= |s| && multiset(RemovePass(s, 0)) <= multiset(s)
    ensures forall w: Rect :: w.Right() >= 0 ==> multiset(RemovePass(s, 0))[w] == multiset(s)[w]
  {
    RemovePassDrops(s, 0);
    DropsKeepsOnscreen(RemovePass(s, 0), s);
  }

  /**
   * The removal loop can skip a wall: when both walls of a pair leave the screen on the same
   * tick, removing the top wall slides the bottom wall into the visited slot, and it survives.
   */
  lemma SkippedWallSurvives(top: Rect, bottom: Rect)
    requires top.Right() < 0 && bottom.Right() < 0 && top != bottom
    ensures RemovePass([top, bottom], 0) == [bottom]
  {
    assert RemoveFirst([top, bottom], top) == [bottom];
  }

  /** The two walls `create` appends for a top-wall height drawn from `[100, screenHeight - 400]`. */
  function NewPair(screenWidth: int, screenHeight: int, height: int): (p: seq<Rect>)
    requires Margin <= height <= screenHeight - Margin - Gap
    ensures |p| == 2
    ensures p[0].x == p[1].x == screenWidth + ScrollStep && p[0].w == p[1].w == WallWidth
    ensures p[0].Top() == 0 && Margin <= p[0].Bottom() <= screenHeight - Margin - Gap
    ensures p[1].Top() - p[0].Bottom() == Gap
    ensures p[1].Bottom() > screenHeight && p[1].h == screenHeight
    ensures p[0].h == height && p[1].y == height + Gap
  {
    [Rect(screenWidth + ScrollStep, 0, WallWidth, height),
     Rect(screenWidth + ScrollStep, height + Gap, WallWidth, screenHeight)]
  }

  class Walls {
    var walls: seq<Rect>
    const screenWidth: int
    const screenHeight: int

    constructor (screenWidth: int, screenHeight: int)
      ensures walls == [] && this.screenWidth == screenWidth && this.screenHeight == screenHeight
    {
      walls := [];
      this.screenWidth := screenWidth;
      this.screenHeight := screenHeight;
    }

    /**
     * `Walls.update`: the removal loop over the live list (see `RemovePass`), then every
     * remaining wall moves left by five.
     */
    method Update()
      modifies this
      ensures |walls| == |RemovePass(old(walls), 0)|
      ensures forall k :: 0 <= k < |walls| ==> walls[k] == Scrolled(RemovePass(old(walls), 0)[k])
    {
      var i := 0;
      while i < |walls|
        invariant RemovePass(walls, i) == RemovePass(old(walls), 0)
        decreases |walls|, |walls| - i
      {
        var wall := walls[i];
        i := i + 1;
        if wall.Right() < 0 {
          walls := RemoveFirst(walls, wall);
        }
      }
      ghost var kept := walls;
      for k := 0 to |walls|
        invariant |walls| == |kept|
        invariant forall j :: 0 <= j < k ==> walls[j] == Scrolled(kept[j])
        invariant forall j :: k <= j < |walls| ==> walls[j] == kept[j]
      {
        walls := walls[k := walls[k].(x := walls[k].x - ScrollStep)];
      }
    }

    /** `Walls.create`, given the value `randint(100, screenHeight - 400)` drew. */
    method Create(height: int)
      requires Margin <= height <= screenHeight - Margin - Gap
      modifies this
      ensures walls == old(walls) + NewPair(screenWidth, screenHeight, height)
    {
      var wall1 := Rect(screenWidth + ScrollStep, 0, WallWidth, height);
      walls := walls + [wall1];
      var wall2 := Rect(screenWidth + ScrollStep, height + Gap, WallWidth, screenHeight);
      walls := walls + [wall2];
    }
  }
}
