/**
  The cursor trail of the page's glow overlay: a bounded first-in-first-out
  buffer of pointer samples. A pointer move appends a fresh sample (age 0)
  and evicts the oldest one once the buffer holds more than 50; every
  animation frame ages each sample by one and then drops every sample whose
  age has reached 40. Drawing the trail on the canvas is not modelled.
 */
module CursorGlow {

  /** Most samples the trail keeps after a pointer move. */
  const MaxPoints: nat := 50

  /** Age (in frames) at which a sample is culled. */
  const MaxAge: nat := 40

  /** One pointer sample: viewport coordinates and age in frames. */
  datatype Sample = Sample(x: int, y: int, age: int)

  /** The last known pointer position, drawn as the main glow. */
  datatype Position = Position(x: int, y: int)

  /** The position the overlay starts from, off screen. */
  const OffScreen := Position(-100, -100)

  // ---------------------------------------------------------------------
  // Specification of the two event handlers, on values
  // ---------------------------------------------------------------------

  /** The trail after one pointer move to (x, y). */
  function Pushed(s: seq<Sample>, x: int, y: int): (r: seq<Sample>)
    ensures |r| > 0 && r[|r| - 1] == Sample(x, y, 0)
    ensures r[..|r| - 1] == if |s| < MaxPoints then s else s[1..]
    ensures |r| == if |s| < MaxPoints then |s| + 1 else |s|
  {
    var grown := s + [Sample(x, y, 0)];
    if |grown| > MaxPoints then grown[1..] else grown
  }

  /** Every sample of `s` aged by `n` frames, in the same order. */
  function AgedBy(s: seq<Sample>, n: nat): (r: seq<Sample>)
    ensures |r| == |s|
    ensures forall i :: 0 <= i < |s| ==> r[i] == s[i].(age := s[i].age + n)
  {
    if s == [] then [] else [s[0].(age := s[0].age + n)] + AgedBy(s[1..], n)
  }

  /** The samples of `s` that are still alive, in their original order. */
  function Survivors(s: seq<Sample>): (r: seq<Sample>)
    ensures |r| <= |s|
    ensures AllAlive(r)
  {
    if s == [] then []
    else if s[0].age < MaxAge then [s[0]] + Survivors(s[1..])
    else Survivors(s[1..])
  }

  /** The trail after one animation frame: age everything, then cull. */
  function Frame(s: seq<Sample>): seq<Sample>
  {
    Survivors(AgedBy(s, 1))
  }

  /** The trail after `n` animation frames with no pointer input. */
  function Frames(s: seq<Sample>, n: nat): seq<Sample>
    decreases n
  {
    if n == 0 then s else Frames(Frame(s), n - 1)
  }

  predicate AllAlive(s: seq<Sample>)
  {
    forall i :: 0 <= i < |s| ==> s[i].age < MaxAge
  }

  predicate AllExpired(s: seq<Sample>)
  {
    forall i :: 0 <= i < |s| ==> MaxAge <= s[i].age
  }

  /** Older samples come first: ages never increase from front to back. */
  ghost predicate AgesDescending(s: seq<Sample>)
  {
    forall i, j :: 0 <= i < j < |s| ==> s[j].age <= s[i].age
  }

  /** What holds of the trail between any two events. */
  ghost predicate WellFormed(s: seq<Sample>)
  {
    && |s| <= MaxPoints
    && (forall i :: 0 <= i < |s| ==> 0 <= s[i].age < MaxAge)
    && AgesDescending(s)
  }

  // ---------------------------------------------------------------------
  // Properties of the specification
  // ---------------------------------------------------------------------

  /** The cull keeps exactly the samples younger than 40. */
  lemma {:induction false} SurvivorsMembers(s: seq<Sample>)
    ensures forall p :: p in Survivors(s) <==> p in s && p.age < MaxAge
  {
    if s != [] {
      SurvivorsMembers(s[1..]);
      assert s == [s[0]] + s[1..];
    }
  }

  /**
    The cull keeps every live sample as often as it occurs and drops every
    expired one: it loses no duplicate.
   */
  lemma {:induction false} SurvivorsCounts(s: seq<Sample>, p: Sample)
    ensures multiset(Survivors(s))[p] == if p.age < MaxAge then multiset(s)[p] else 0
  {
    if s != [] {
      SurvivorsCounts(s[1..], p);
      assert s == [s[0]] + s[1..];
    }
  }

  /** The cull changes nothing when every sample is alive. */
  lemma {:induction false} SurvivorsOfAlive(s: seq<Sample>)
    requires AllAlive(s)
    ensures Survivors(s) == s
  {
    if s != [] {
      SurvivorsOfAlive(s[1..]);
    }
  }

  /** The cull leaves nothing when every sample has expired. */
  lemma {:induction false} SurvivorsOfExpired(s: seq<Sample>)
    requires AllExpired(s)
    ensures Survivors(s) == []
  {
    if s != [] {
      SurvivorsOfExpired(s[1..]);
    }
  }

  lemma SurvivorsCons(p: Sample, s: seq<Sample>)
    ensures Survivors([p] + s) == if p.age < MaxAge then [p] + Survivors(s) else Survivors(s)
  {
  }

  lemma AgedByCons(p: Sample, s: seq<Sample>, n: nat)
    ensures AgedBy([p] + s, n) == [p.(age := p.age + n)] + AgedBy(s, n)
  {
  }

  /** A pointer move keeps the length bound, the age bound and FIFO order. */
  lemma PushPreservesWellFormed(s: seq<Sample>, x: int, y: int)
    requires WellFormed(s)
    ensures WellFormed(Pushed(s, x, y))
  {
  }

  /** When ages descend, the cull removes exactly a prefix: the oldest samples. */
  lemma {:induction false} CullIsSuffix(s: seq<Sample>)
    requires AgesDescending(s)
    ensures Survivors(s) == s[|s| - |Survivors(s)|..]
    ensures forall i :: 0 <= i < |s| - |Survivors(s)| ==> MaxAge <= s[i].age
  {
    if s == [] {
    } else if s[0].age < MaxAge {
      SurvivorsOfAlive(s);
    } else {
      assert AgesDescending(s[1..]);
      CullIsSuffix(s[1..]);
      assert Survivors(s) == Survivors(s[1..]);
    }
  }

  /**
    A frame keeps the trail well formed, never grows it, and leaves the
    aged trail with only its oldest samples removed.
   */
  lemma FramePreservesWellFormed(s: seq<Sample>)
    requires WellFormed(s)
    ensures WellFormed(Frame(s))
    ensures |Frame(s)| <= |s|
    ensures Frame(s) == AgedBy(s, 1)[|s| - |Frame(s)|..]
    ensures forall i :: 0 <= i < |s| - |Frame(s)| ==> s[i].age + 1 == MaxAge
  {
    var aged := AgedBy(s, 1);
    AgeingKeepsOrder(s);
    CullIsSuffix(aged);
    var r := Frame(s);
    forall i | 0 <= i < |r| ensures 0 <= r[i].age {
      assert r[i] == aged[|s| - |r| + i];
    }
    forall i | 0 <= i < |s| - |r| ensures s[i].age + 1 == MaxAge {
      assert aged[i].age == s[i].age + 1;
    }
  }

  lemma AgeingKeepsOrder(s: seq<Sample>)
    requires WellFormed(s)
    ensures AgesDescending(AgedBy(s, 1))
    ensures forall i :: 0 <= i < |s| ==> 0 <= AgedBy(s, 1)[i].age
  {
  }

  /** Culling commutes with later ageing: a culled sample could only get older. */
  lemma {:induction false} CullBeforeAgeing(t: seq<Sample>, n: nat)
    ensures Survivors(AgedBy(Survivors(t), n)) == Survivors(AgedBy(t, n))
  {
    if t != [] {
      var a, rest := t[0], t[1..];
      var older := a.(age := a.age + n);
      assert t == [a] + rest;
      CullBeforeAgeing(rest, n);
      AgedByCons(a, rest, n);
      SurvivorsCons(older, AgedBy(rest, n));
      SurvivorsCons(a, rest);
      if a.age < MaxAge {
        AgedByCons(a, Survivors(rest), n);
        SurvivorsCons(older, AgedBy(Survivors(rest), n));
      }
    }
  }

  lemma AgedByAdds(s: seq<Sample>, m: nat, n: nat)
    ensures AgedBy(AgedBy(s, m), n) == AgedBy(s, m + n)
  {
    var l, r := AgedBy(AgedBy(s, m), n), AgedBy(s, m + n);
    forall i | 0 <= i < |s| ensures l[i] == r[i] {
    }
  }

  /** One frame followed by ageing by `n` culls like ageing by `n + 1`. */
  lemma FrameThenAge(s: seq<Sample>, n: nat)
    ensures Survivors(AgedBy(Frame(s), n)) == Survivors(AgedBy(s, n + 1))
  {
    var later := AgedBy(AgedBy(s, 1), n);
    CullBeforeAgeing(AgedBy(s, 1), n);
    AgedByAdds(s, 1, n);
    assert later == AgedBy(s, n + 1);
  }

  /** `n` frames without input equal ageing by `n` and culling once. */
  lemma {:induction false} FramesAgeAtOnce(s: seq<Sample>, n: nat)
    requires AllAlive(s)
    ensures Frames(s, n) == Survivors(AgedBy(s, n))
    decreases n
  {
    if n == 0 {
      assert AgedBy(s, 0) == s;
      SurvivorsOfAlive(s);
    } else {
      FramesAgeAtOnce(Frame(s), n - 1);
      FrameThenAge(s, n - 1);
    }
  }

  /**
    A sample of the trail is still there, `n` frames older, after `n`
    frames without input exactly when its age plus `n` is below 40; so a
    freshly pushed sample survives at most 39 frames.
   */
  lemma SampleLifetime(s: seq<Sample>, i: nat, n: nat)
    requires AllAlive(s) && i < |s|
    ensures s[i].(age := s[i].age + n) in Frames(s, n) <==> s[i].age + n < MaxAge
  {
    FramesAgeAtOnce(s, n);
    SurvivorsMembers(AgedBy(s, n));
    assert AgedBy(s, n)[i] in AgedBy(s, n);
  }

  /** With no further input the trail is empty after 40 frames. */
  lemma EmptyAfterMaxAgeFrames(s: seq<Sample>)
    requires WellFormed(s)
    ensures Frames(s, MaxAge) == []
  {
    FramesAgeAtOnce(s, MaxAge);
    SurvivorsOfExpired(AgedBy(s, MaxAge));
  }

  // ---------------------------------------------------------------------
  // The overlay's mutable state and its two event handlers
  // ---------------------------------------------------------------------

  class Trail {
    /** The trail buffer, oldest sample first. */
    var points: seq<Sample>
    /** Where the main glow is drawn. */
    var mouse: Position

    ghost predicate Valid()
      reads this
    {
      WellFormed(points)
    }

    constructor ()
      ensures Valid() && points == [] && mouse == OffScreen
    {
      points := [];
      mouse := OffScreen;
    }

    /** The pointer-move handler. */
    method OnMouseMove(clientX: int, clientY: int)
      requires Valid()
      modifies this
      ensures Valid()
      ensures mouse == Position(clientX, clientY)
      ensures points == Pushed(old(points), clientX, clientY)
      ensures |points| <= MaxPoints
    {
      PushPreservesWellFormed(points, clientX, clientY);
      mouse := Position(clientX, clientY);
      points := points + [Sample(clientX, clientY, 0)];
      if |points| > MaxPoints {
        points := points[1..];
      }
    }

    /** One animation frame: age every sample in place, then cull the dead ones. */
    method Animate()
      requires Valid()
      modifies this`points
      ensures Valid()
      ensures points == Frame(old(points))
      ensures |points| <= |old(points)|
      ensures forall i :: 0 <= i < |points| ==> points[i].age < MaxAge
    {
      // the samples are values here, so ageing them one by one in a copy and
      // storing the filtered copy back is the source's in-place `p.age++`
      var aged := points;
      var i := 0;
      while i < |aged|
        invariant 0 <= i <= |aged| == |points|
        invariant forall k :: 0 <= k < i ==> aged[k] == points[k].(age := points[k].age + 1)
        invariant forall k :: i <= k < |aged| ==> aged[k] == points[k]
      {
        aged := aged[i := aged[i].(age := aged[i].age + 1)];
        i := i + 1;
      }
      assert aged == AgedBy(points, 1);
      FramePreservesWellFormed(points);
      points := Survivors(aged);
    }
  }
}
