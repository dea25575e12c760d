/** When a host time zone's calendar date differs from UTC's, and the hours no zone of a list covers. */
module TimeZoneWindows {
  import opened Options

  /** Whole hours, as every offset is a whole number. */
  datatype Window = Window(lo: int, hi: int)

  function DiffWindow(offset: int): Option<Window> {
    if offset == 0 then None
    else if offset < 0 then Some(Window(0, -offset))
    else Some(Window(24 - offset, 24))
  }

  predicate Inside(t: real, w: Option<Window>) {
    w.Some? && w.value.lo as real <= t < w.value.hi as real
  }

  /** The number of the day in which an instant, in hours, falls. */
  function Day(hours: real): int {
    (hours / 24.0).Floor
  }

  /** At time of day `t` on UTC day `day`, a clock `offset` hours ahead shows another date. */
  predicate DatesDiffer(day: int, t: real, offset: int) {
    Day((24 * day) as real + t + offset as real) != Day((24 * day) as real + t)
  }

  lemma DayIs(day: int, t: real, shift: int)
    requires 0.0 <= t < 24.0
    ensures Day((24 * day) as real + t + shift as real) >= day + 1 <==> t + shift as real >= 24.0
    ensures Day((24 * day) as real + t + shift as real) < day <==> t + shift as real < 0.0
  {
    var x := (t + shift as real) / 24.0;
    assert ((24 * day) as real + t + shift as real) / 24.0 == day as real + x;
    assert (day as real + x).Floor == day + x.Floor;
  }

  /** The window is exactly the times at which the dates differ, for every offset and every day. */
  lemma WindowExact(day: int, t: real, offset: int)
    requires 0.0 <= t < 24.0
    ensures Inside(t, DiffWindow(offset)) <==> DatesDiffer(day, t, offset)
  {
    DayIs(day, t, offset);
    DayIs(day, t, 0);
  }

  /** A window is a stretch of the day. */
  lemma WindowInDay(offset: int)
    requires -24 <= offset <= 24
    ensures DiffWindow(offset).Some? ==> var w := DiffWindow(offset).value; 0 <= w.lo < w.hi <= 24
  {
  }

  // ---------- The hours no zone covers ----------

  /** The largest offset in each direction. */
  function West(offsets: seq<int>): (w: int)
    ensures w >= 0 && forall off <- offsets :: -off <= w
    ensures w == 0 || -w in offsets
  {
    if offsets == [] then 0
    else
      assert offsets == [offsets[0]] + offsets[1..];
      var rest := West(offsets[1..]);
      if -offsets[0] > rest then -offsets[0] else rest
  }

  function East(offsets: seq<int>): (e: int)
    ensures e >= 0 && forall off <- offsets :: off <= e
    ensures e == 0 || e in offsets
  {
    if offsets == [] then 0
    else
      assert offsets == [offsets[0]] + offsets[1..];
      var rest := East(offsets[1..]);
      if offsets[0] > rest then offsets[0] else rest
  }

  /** The only gap there can be lies between the westmost and the eastmost windows. */
  function GapOf(offsets: seq<int>): seq<(int, int)> {
    if West(offsets) + East(offsets) >= 24 then [] else [(West(offsets), 24 - East(offsets))]
  }

  predicate Covers(offsets: seq<int>, h: int) {
    h < West(offsets) || h >= 24 - East(offsets)
  }

  lemma CoversOne(offsets: seq<int>, n: nat, h: int)
    requires n < |offsets| && 0 <= h < 24
    ensures Covers(offsets[..n + 1], h) <==> Covers(offsets[..n], h) || Inside(h as real, DiffWindow(offsets[n]))
  {
    var more, less := offsets[..n + 1], offsets[..n];
    assert more == less + [offsets[n]];
    assert forall off <- less :: off in more;
    assert offsets[n] in more;
  }

  method SensitivityGap(offsets: seq<int>) returns (gap: seq<(int, int)>)
    ensures gap == GapOf(offsets)
  {
    var covered := new bool[24](_ => false);
    for n := 0 to |offsets|
      invariant forall h :: 0 <= h < 24 ==> (covered[h] <==> Covers(offsets[..n], h))
    {
      forall h | 0 <= h < 24
        ensures Covers(offsets[..n + 1], h) <==> Covers(offsets[..n], h) || Inside(h as real, DiffWindow(offsets[n]))
      {
        CoversOne(offsets, n, h);
      }
      var w := DiffWindow(offsets[n]);
      if w == None { continue; }
      MarkWindow(covered, w);
    }
    assert offsets[..|offsets|] == offsets;
    gap := Runs(covered, West(offsets), 24 - East(offsets));
  }

  method MarkWindow(covered: array<bool>, w: Option<Window>)
    requires covered.Length == 24 && w.Some?
    modifies covered
    ensures forall h :: 0 <= h < 24 ==> (covered[h] <==> old(covered[h]) || Inside(h as real, w))
  {
    for h := 0 to 24
      invariant forall k :: 0 <= k < h ==> (covered[k] <==> old(covered[k]) || Inside(k as real, w))
      invariant forall k :: h <= k < 24 ==> covered[k] == old(covered[k])
    {
      if w.value.lo as real <= h as real < w.value.hi as real { covered[h] := true; }
    }
  }

  /** The run-length scan for the stretches that are not covered. */
  method Runs(covered: array<bool>, west: int, east: int) returns (gap: seq<(int, int)>)
    requires covered.Length == 24 && 0 <= west && east <= 24
    requires forall h :: 0 <= h < 24 ==> (covered[h] <==> h < west || h >= east)
    ensures gap == if west >= east then [] else [(west, east)]
  {
    gap := [];
    var start := None;
    for h := 0 to 24
      invariant start == if west < h && h <= east then Some(west) else None
      invariant gap == if west < east < h then [(west, east)] else []
    {
      if !covered[h] && start == None {
        start := Some(h);
      } else if covered[h] && start != None {
        gap := gap + [(start.value, h)];
        start := None;
      }
    }
    if start != None { gap := gap + [(start.value, 24)]; }
  }

  predicate InGap(t: real, gap: seq<(int, int)>) {
    exists g <- gap :: g.0 as real <= t < g.1 as real
  }

  /** At every instant, not only at whole hours: all the zones show UTC's date exactly inside the gap. */
  lemma GapMeaning(offsets: seq<int>, day: int, t: real)
    requires 0.0 <= t < 24.0
    ensures InGap(t, GapOf(offsets)) <==> forall off <- offsets :: !DatesDiffer(day, t, off)
  {
    hide DatesDiffer;
    var w, e := West(offsets), East(offsets);
    var low, high := t < w as real, t >= (24 - e) as real;
    GapHolds(offsets, t);
    forall off | off in offsets && DatesDiffer(day, t, off) ensures low || high {
      WindowExact(day, t, off);
      assert -off <= w && off <= e;
    }
    if low {
      assert -w in offsets;
      WindowExact(day, t, -w);
    } else if high {
      assert e in offsets;
      WindowExact(day, t, e);
    }
  }

  lemma GapHolds(offsets: seq<int>, t: real)
    ensures InGap(t, GapOf(offsets)) <==> West(offsets) as real <= t < (24 - East(offsets)) as real
  {
    var w, e := West(offsets), East(offsets);
    if w + e < 24 { assert GapOf(offsets)[0] == (w, 24 - e) && (w, 24 - e) in GapOf(offsets); }
  }

  /** There is no gap exactly when at every time of day some zone shows another date than UTC. */
  lemma NoGapIff(offsets: seq<int>, day: int)
    ensures GapOf(offsets) == [] <==> forall t: real :: 0.0 <= t < 24.0 ==> SomeZoneDiffers(offsets, day, t)
  {
    hide DatesDiffer, Covers;
    forall t: real | 0.0 <= t < 24.0 ensures SomeZoneDiffers(offsets, day, t) <==> !InGap(t, GapOf(offsets)) {
      GapMeaning(offsets, day, t);
    }
    if GapOf(offsets) != [] {
      var t := West(offsets) as real;
      GapHolds(offsets, t);
      assert !SomeZoneDiffers(offsets, day, t);
    }
  }

  predicate SomeZoneDiffers(offsets: seq<int>, day: int, t: real) {
    exists off <- offsets :: DatesDiffer(day, t, off)
  }
}
