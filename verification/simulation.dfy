/** The decision logic of `simulate`: the bouncing seed, the pot snapped
    above it, three droplets checked against the seed column on their last
    row, and the choice between growing a tree and the "WASTED" message. */
module Simulation {
  import opened Maybe
  import opened Grid

  const SEED_MOVE_STEPS := 20
  const START_SEED := Seed(2, 1)
  const START_POT_COL := 1
  /** Number of droplets the pot drops in one run. */
  const DROPS := 3
  /** A droplet falls through rows FIRST_DROP_ROW .. LAST_DROP_ROW, one row
      per frame. The last droplet row is the row the seed sits in
      (Drawing.SEED_ROW), so a droplet there in the seed's column hits it. */
  const FIRST_DROP_ROW := 1
  const LAST_DROP_ROW := 6
  const FALL_FRAMES := LAST_DROP_ROW - FIRST_DROP_ROW + 1
  /** The seed bounces off these columns. */
  const LEFT_BOUNCE := 1
  const RIGHT_BOUNCE := 6

  // ---------- Seed oscillation ----------

  /** The moving seed: its column and its direction (+1 right, -1 left). */
  datatype Seed = Seed(col: int, dir: int)

  /** The oscillation invariant: the seed is inside [1, 6], moves one column
      at a time, and at either bounce column it already points back inward. */
  predicate Bouncing(s: Seed) {
    && LEFT_BOUNCE <= s.col <= RIGHT_BOUNCE
    && (s.dir == 1 || s.dir == -1)
    && (s.col == LEFT_BOUNCE ==> s.dir == 1)
    && (s.col == RIGHT_BOUNCE ==> s.dir == -1)
  }

  /** One iteration of the seed loop (`seed_moving` is never cleared, so
      every iteration moves): step one column, and reverse when the new
      column is at or beyond a bounce column. */
  function Step(s: Seed): (t: Seed)
    ensures t.col == s.col + s.dir
    ensures Bouncing(s) ==> Bouncing(t)
    ensures Bouncing(s) ==> (t.dir != s.dir <==> t.col <= LEFT_BOUNCE || t.col >= RIGHT_BOUNCE)
  {
    var col := s.col + s.dir;
    if col <= LEFT_BOUNCE || col >= RIGHT_BOUNCE then Seed(col, -s.dir) else Seed(col, s.dir)
  }

  /** The seed after n iterations of the loop. */
  function Oscillate(s: Seed, n: nat): Seed
    decreases n
  {
    if n == 0 then s else Oscillate(Step(s), n - 1)
  }

  /** The invariant holds after any number of steps. */
  lemma {:induction false} OscillateKeepsBouncing(s: Seed, n: nat)
    requires Bouncing(s)
    ensures Bouncing(Oscillate(s, n))
    decreases n
  {
    if n > 0 {
      OscillateKeepsBouncing(Step(s), n - 1);
    }
  }

  /** Running a steps and then b steps is running a + b steps. */
  lemma {:induction false} OscillateAdd(s: Seed, a: nat, b: nat)
    ensures Oscillate(s, a + b) == Oscillate(Oscillate(s, a), b)
    decreases a
  {
    if a > 0 {
      OscillateAdd(Step(s), a - 1, b);
    }
  }

  /** A bouncing seed is back where it started, heading the same way, after
      ten steps: five to one wall and five back. */
  lemma OscillatePeriod(s: Seed)
    requires Bouncing(s)
    ensures Oscillate(s, 10) == s
  {
    if s.dir == 1 {
      RightwardPeriod(s);
    } else {
      LeftwardPeriod(s);
    }
  }

  /** Five steps take a seed heading right to the mirrored column, heading
      left: it bounces once off the right wall on the way. One start column
      at a time. */
  lemma RightwardHalfPeriod(s: Seed)
    requires Bouncing(s) && s.dir == 1
    ensures Oscillate(s, 5) == Seed(LEFT_BOUNCE + RIGHT_BOUNCE - s.col, -1)
  {
    if s.col == 1 {
      assert Oscillate(Seed(1, 1), 5) == Seed(6, -1);
    } else if s.col == 2 {
      assert Oscillate(Seed(2, 1), 5) == Seed(5, -1);
    } else if s.col == 3 {
      assert Oscillate(Seed(3, 1), 5) == Seed(4, -1);
    } else if s.col == 4 {
      assert Oscillate(Seed(4, 1), 5) == Seed(3, -1);
    } else {
      assert Oscillate(Seed(5, 1), 5) == Seed(2, -1);
    }
  }

  /** Five steps take a seed heading left to the mirrored column, heading
      right: it bounces once off the left wall on the way. */
  lemma LeftwardHalfPeriod(s: Seed)
    requires Bouncing(s) && s.dir == -1
    ensures Oscillate(s, 5) == Seed(LEFT_BOUNCE + RIGHT_BOUNCE - s.col, 1)
  {
    if s.col == 2 {
      assert Oscillate(Seed(2, -1), 5) == Seed(5, 1);
    } else if s.col == 3 {
      assert Oscillate(Seed(3, -1), 5) == Seed(4, 1);
    } else if s.col == 4 {
      assert Oscillate(Seed(4, -1), 5) == Seed(3, 1);
    } else if s.col == 5 {
      assert Oscillate(Seed(5, -1), 5) == Seed(2, 1);
    } else {
      assert Oscillate(Seed(6, -1), 5) == Seed(1, 1);
    }
  }

  /** The ten-step period for a seed heading right: out to the mirrored
      column and back. */
  lemma RightwardPeriod(s: Seed)
    requires Bouncing(s) && s.dir == 1
    ensures Oscillate(s, 10) == s
  {
    OscillateAdd(s, 5, 5);
    RightwardHalfPeriod(s);
    LeftwardHalfPeriod(Oscillate(s, 5));
  }

  /** The ten-step period for a seed heading left: out to the mirrored
      column and back. */
  lemma LeftwardPeriod(s: Seed)
    requires Bouncing(s) && s.dir == -1
    ensures Oscillate(s, 10) == s
  {
    OscillateAdd(s, 5, 5);
    LeftwardHalfPeriod(s);
    RightwardHalfPeriod(Oscillate(s, 5));
  }

  /** After SEED_MOVE_STEPS = 20 steps from column 2 heading right, the
      seed is back in column 2 heading right. */
  lemma SeedAfterMoving()
    ensures Oscillate(START_SEED, SEED_MOVE_STEPS) == START_SEED
  {
    OscillateAdd(START_SEED, 10, 10);
    OscillatePeriod(START_SEED);
  }

  // ---------- Alignment ----------

  /** Pot alignment: the pot sits just left of
      the seed, clamped so that both of its cells are on the top row. */
  function Align(seedCol: int): (pot: int)
    ensures 0 <= pot && pot + 1 < COLS
    ensures 1 <= seedCol <= COLS - 1 ==> pot == seedCol - 1
    ensures seedCol < 1 ==> pot == 0
    ensures seedCol > COLS - 1 ==> pot == COLS - 2
  {
    var m := if seedCol - 1 < COLS - 2 then seedCol - 1 else COLS - 2;
    if 0 > m then 0 else m
  }

  /** The droplet column, one right of the pot, is the seed column exactly when the
      seed column is in 1 .. COLS - 1; a bouncing seed always is. */
  lemma {:induction false} DropMeetsSeed(seedCol: int)
    ensures Align(seedCol) + 1 == seedCol <==> 1 <= seedCol <= COLS - 1
  {
    if seedCol < 1 {
      assert Align(seedCol) + 1 == 1;
    } else if seedCol > COLS - 1 {
      assert Align(seedCol) + 1 == COLS - 1;
    }
  }

  // ---------- Hit detection ----------

  /** One hit test: the droplet's row y and column, and the seed column. */
  datatype DropCheck = DropCheck(y: int, dropCol: int, seedCol: int)

  /** What the drop loop records: `hits` and `hit_position`. */
  datatype Hits = Hits(count: nat, position: Option<int>)

  /** A hit: the droplet is on its last row, which is the seed's row, and
      in the seed's column. */
  predicate Qualifies(d: DropCheck) {
    d.y == LAST_DROP_ROW && d.dropCol == d.seedCol
  }

  /** The body of the hit test: a qualifying check counts one hit, and
      records the seed column only if no hit was recorded before. */
  function Record(h: Hits, d: DropCheck): (h': Hits)
    ensures Qualifies(d) ==> h'.count == h.count + 1
    ensures !Qualifies(d) ==> h' == h
    ensures h.position.Some? ==> h'.position == h.position
    ensures Qualifies(d) && h.position.None? ==> h'.position == Some(d.seedCol)
  {
    if Qualifies(d) then
      Hits(h.count + 1, if h.position.None? then Some(d.seedCol) else h.position)
    else h
  }

  /** The hit tests in the order the loops perform them: hits are only
      ever added, and a recorded position is never overwritten. */
  function RecordAll(h: Hits, ds: seq<DropCheck>): (r: Hits)
    ensures r.count >= h.count
    ensures h.position.Some? ==> r.position == h.position
    decreases |ds|
  {
    if |ds| == 0 then h else RecordAll(Record(h, ds[0]), ds[1..])
  }

  /** How many checks qualify. */
  function CountQualifying(ds: seq<DropCheck>): nat
    decreases |ds|
  {
    if |ds| == 0 then 0 else (if Qualifies(ds[0]) then 1 else 0) + CountQualifying(ds[1..])
  }

  /** The seed column of the earliest qualifying check, if any. */
  function FirstQualifying(ds: seq<DropCheck>): Option<int>
    decreases |ds|
  {
    if |ds| == 0 then None
    else if Qualifies(ds[0]) then Some(ds[0].seedCol)
    else FirstQualifying(ds[1..])
  }

  /** FirstQualifying is the first hit: None exactly when nothing
      qualifies, otherwise the seed column of the lowest-indexed
      qualifying check, even if later checks qualify too. */
  lemma {:induction false} FirstQualifyingIsFirst(ds: seq<DropCheck>)
    ensures FirstQualifying(ds).None? <==> forall k :: 0 <= k < |ds| ==> !Qualifies(ds[k])
    ensures forall k :: (0 <= k < |ds| && Qualifies(ds[k]) &&
      (forall j :: 0 <= j < k ==> !Qualifies(ds[j]))) ==> FirstQualifying(ds) == Some(ds[k].seedCol)
    decreases |ds|
  {
    if |ds| > 0 {
      FirstQualifyingIsFirst(ds[1..]);
      assert forall k :: 1 <= k < |ds| ==> ds[k] == ds[1..][k - 1];
      if !Qualifies(ds[0]) {
        forall k | 0 <= k < |ds| && Qualifies(ds[k]) && (forall j :: 0 <= j < k ==> !Qualifies(ds[j]))
          ensures FirstQualifying(ds) == Some(ds[k].seedCol)
        {
          assert k >= 1;
          assert forall j :: 0 <= j < k - 1 ==> !Qualifies(ds[1..][j]) by {
            forall j | 0 <= j < k - 1 ensures !Qualifies(ds[1..][j]) {
              assert ds[1..][j] == ds[j + 1];
            }
          }
        }
      }
    }
  }

  /** Recording a run of checks counts every qualifying check and keeps an
      already recorded position, else takes the first qualifying one. */
  lemma {:induction false} RecordAllSummary(h: Hits, ds: seq<DropCheck>)
    ensures RecordAll(h, ds).count == h.count + CountQualifying(ds)
    ensures RecordAll(h, ds).position ==
      if h.position.Some? then h.position else FirstQualifying(ds)
    decreases |ds|
  {
    if |ds| > 0 {
      RecordAllSummary(Record(h, ds[0]), ds[1..]);
    }
  }

  /** Counting and finding the first hit split over concatenation. */
  lemma {:induction false} QualifyingAppend(a: seq<DropCheck>, b: seq<DropCheck>)
    ensures CountQualifying(a + b) == CountQualifying(a) + CountQualifying(b)
    ensures FirstQualifying(a + b) == if FirstQualifying(a).Some? then FirstQualifying(a) else FirstQualifying(b)
    decreases |a|
  {
    if |a| > 0 {
      assert (a + b)[0] == a[0];
      assert (a + b)[1..] == a[1..] + b;
      QualifyingAppend(a[1..], b);
    } else {
      assert a + b == b;
    }
  }

  /** The checks of one droplet's fall from row y down to LAST_DROP_ROW. */
  function FallChecks(seedCol: int, dropCol: int, y: int): (ds: seq<DropCheck>)
    requires FIRST_DROP_ROW <= y <= LAST_DROP_ROW + 1
    ensures |ds| == LAST_DROP_ROW + 1 - y
    ensures forall k :: 0 <= k < |ds| ==> ds[k] == DropCheck(y + k, dropCol, seedCol)
    decreases LAST_DROP_ROW + 1 - y
  {
    if y == LAST_DROP_ROW + 1 then []
    else [DropCheck(y, dropCol, seedCol)] + FallChecks(seedCol, dropCol, y + 1)
  }

  /** The checks of n droplets, one full fall after another. */
  function DropChecks(seedCol: int, dropCol: int, n: nat): (ds: seq<DropCheck>)
    ensures |ds| == FALL_FRAMES * n
    decreases n
  {
    if n == 0 then [] else FallChecks(seedCol, dropCol, FIRST_DROP_ROW) + DropChecks(seedCol, dropCol, n - 1)
  }

  /** Each droplet is tested once on its last row: n droplets give n hits
      at the seed column when the droplet column is the seed column, and
      none otherwise. */
  lemma {:induction false} DropChecksHits(seedCol: int, dropCol: int, n: nat)
    ensures CountQualifying(DropChecks(seedCol, dropCol, n)) == if dropCol == seedCol then n else 0
    ensures FirstQualifying(DropChecks(seedCol, dropCol, n)) ==
      if dropCol == seedCol && n > 0 then Some(seedCol) else None
    decreases n
  {
    if n > 0 {
      var fall := FallChecks(seedCol, dropCol, FIRST_DROP_ROW);
      DropChecksHits(seedCol, dropCol, n - 1);
      QualifyingAppend(fall, DropChecks(seedCol, dropCol, n - 1));
      FirstQualifyingIsFirst(fall);
      var last := |fall| - 1;
      assert fall[last] == DropCheck(LAST_DROP_ROW, dropCol, seedCol);
      assert forall j :: 0 <= j < last ==> !Qualifies(fall[j]);
      assert fall == fall[..last] + [fall[last]];
      QualifyingAppend(fall[..last], [fall[last]]);
      QualifyingAppend([fall[last]], []);
      FirstQualifyingIsFirst(fall[..last]);
      NoneQualifyingCountsZero(fall[..last]);
    }
  }

  /** No qualifying check means a count of zero. */
  lemma {:induction false} NoneQualifyingCountsZero(ds: seq<DropCheck>)
    requires forall k :: 0 <= k < |ds| ==> !Qualifies(ds[k])
    ensures CountQualifying(ds) == 0
    decreases |ds|
  {
    if |ds| > 0 {
      assert forall k :: 0 <= k < |ds| - 1 ==> ds[1..][k] == ds[k + 1];
      NoneQualifyingCountsZero(ds[1..]);
    }
  }

  // ---------- The whole run ----------

  /** Which way the run ends: the tree grows when a hit was recorded, and
      "WASTED" scrolls otherwise. */
  datatype Branch = GrowAndCelebrate | Wasted

  /** The values `simulate` ends with. */
  datatype Outcome = Outcome(seed: Seed, potCol: int, dropCol: int, hits: nat, hitPosition: Option<int>, branch: Branch)

  /** `simulate` from a given seed for a given number of moves: move the
      seed, align the pot, test three droplets, pick the branch. The result
      depends on nothing but these two arguments, so a restart, which
      starts over from the same constants, behaves exactly like the first
      run. Either every droplet hits and the tree grows at the seed column,
      or none does and the run ends in "WASTED"; the first happens exactly
      when the final seed column is in 1 .. COLS - 1. */
  function SimulateFrom(start: Seed, steps: nat): (o: Outcome)
    ensures o.seed == Oscillate(start, steps)
    ensures o.potCol == Align(o.seed.col) && o.dropCol == o.potCol + 1
    ensures o.branch == GrowAndCelebrate <==> o.hitPosition.Some?
    ensures o.branch == GrowAndCelebrate ==> o.hits == DROPS && o.hitPosition == Some(o.seed.col)
    ensures o.branch == Wasted ==> o.hits == 0
    ensures o.branch == GrowAndCelebrate <==> 1 <= o.seed.col <= COLS - 1
  {
    var seed := Oscillate(start, steps);
    var pot := Align(seed.col);
    var drop := pot + 1;
    var checks := DropChecks(seed.col, drop, DROPS);
    var h := RecordAll(Hits(0, None), checks);
    RecordAllSummary(Hits(0, None), checks);
    DropChecksHits(seed.col, drop, DROPS);
    DropMeetsSeed(seed.col);
    Outcome(seed, pot, drop, h.count, h.position, if h.position.Some? then GrowAndCelebrate else Wasted)
  }

  /** `simulate` as the program runs it: the seed ends where it started,
      every droplet hits it, and the tree grows in its column. */
  function Simulate(): (o: Outcome)
    ensures o.seed == START_SEED
    ensures o.hits == DROPS && o.hitPosition == Some(START_SEED.col)
    ensures o.branch == GrowAndCelebrate
  {
    SeedAfterMoving();
    BouncingSeedIsAlwaysHit(START_SEED, SEED_MOVE_STEPS);
    SimulateFrom(START_SEED, SEED_MOVE_STEPS)
  }

  /** A bouncing seed is always under the droplet column, whatever the
      number of moves, so every droplet hits and the "WASTED" branch is
      never taken. */
  lemma {:induction false} BouncingSeedIsAlwaysHit(start: Seed, steps: nat)
    requires Bouncing(start)
    ensures SimulateFrom(start, steps).dropCol == SimulateFrom(start, steps).seed.col
    ensures SimulateFrom(start, steps).hits == DROPS
    ensures SimulateFrom(start, steps).hitPosition == Some(SimulateFrom(start, steps).seed.col)
    ensures SimulateFrom(start, steps).branch == GrowAndCelebrate
  {
    OscillateKeepsBouncing(start, steps);
  }

  /** The program's own run: the seed ends in column 2 heading right, the
      pot in column 1, all three droplets hit column 2, and the tree grows. */
  lemma SimulateOutcome()
    ensures Simulate() == Outcome(Seed(2, 1), 1, 2, 3, Some(2), GrowAndCelebrate)
  {
    SeedAfterMoving();
    BouncingSeedIsAlwaysHit(START_SEED, SEED_MOVE_STEPS);
  }

  /** The "WASTED" branch is reachable from a seed that is not bouncing: a
      seed left in column 0 is missed, because the pot is clamped to column
      0 and the droplets fall in column 1. */
  lemma WastedFromColumnZero()
    ensures SimulateFrom(Seed(0, -1), 0).branch == Wasted
    ensures SimulateFrom(Seed(0, -1), 0).dropCol == 1
  {
  }

  /** Starting inside columns 1 .. 6 is not enough to be hit: a seed in
      column 1 heading left is not bouncing, steps off to column 0 and is
      missed. Only the whole of Bouncing, direction included, rules out
      "WASTED" (BouncingSeedIsAlwaysHit). */
  lemma WastedFromColumnOneHeadingLeft()
    ensures !Bouncing(Seed(1, -1))
    ensures Oscillate(Seed(1, -1), 1) == Seed(0, 1)
    ensures SimulateFrom(Seed(1, -1), 1).branch == Wasted
  {
  }
}
