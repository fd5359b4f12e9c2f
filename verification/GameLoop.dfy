/** The main loop of the typing game (game.c) as a state machine: main-program steps between the
    points where shared variables are touched, interleaved with timer and keyboard interrupts
    whenever interrupts are enabled. */
module GameLoop {
  import opened Int32
  import opened Letters
  import opened Keyboard
  import Effect

  /** Where the main program is.  Panicked is a failed assertion. */
  datatype PC =
    | Waiting | Checking | HittingKeys | Testing
    | Creating | Updating | Flagging | Advancing | Drawing | Panicked

  /** What has happened so far: the birth tick of each letter on the screen, the ticks at which a
      letter was created, at which the positions were updated, and those simulated completely; the
      tick at which the current catch-up started; and the ticks reached when the screen was redrawn. */
  datatype History = History(
    births: seq<nat>, creations: seq<nat>, updates: seq<nat>, simulated: seq<nat>,
    started: nat, draws: seq<nat>)

  datatype State = State(
    pc: PC, interrupts: bool,
    tick: nat, now: nat, target: nat,
    redraw: bool, numDraw: nat, fps: nat,
    letters: seq<Letter>, keys: Keys, hit: nat, miss: nat,
    history: History)

  /** One event: a timer interrupt, a keyboard interrupt, or a step of the main program with the
      values rand() would return in it. */
  datatype Event = Timer | Key(scanCode: int) | Main(ry: nat, rv: nat, rt: nat)

  /** Ticks per second of the timer hardware; game.h sets 100. */
  type Frequency = hz: int | hz >= 100 witness 100

  function CreatePeriod(hz: Frequency): (p: nat)
    ensures p >= 33
  {
    hz / 3
  }

  function UpdatePeriod(hz: Frequency): (p: nat)
    ensures p >= 1
  {
    hz / 100
  }

  function NoKeys(): Keys {
    seq(26, _ => false)
  }

  const INITIAL: State :=
    State(Waiting, true, 0, 0, 0, false, 0, 0, [], NoKeys(), 0, 0, History([], [], [], [], 0, []))

  /** The births of the letters that stay on the screen, in step with Survivors. */
  function SurvivingBirths(ls: seq<Letter>, births: seq<nat>): (r: seq<nat>)
    requires |ls| == |births|
    ensures |r| == |Survivors(ls)|
  {
    if ls == [] then []
    else
      var n := |ls| - 1;
      SurvivingBirths(ls[..n], births[..n]) + if OnScreen(Advanced(ls[n])) then [births[n]] else []
  }

  function Panic(s: State): State {
    s.(pc := Panicked, interrupts := false)
  }

  /** Lines 43-51: the check under disabled interrupts whether there is anything to do. */
  function Check(s: State): State {
    if s.now == s.tick then s.(interrupts := true, pc := Waiting)
    else if s.now > s.tick then Panic(s)
    else
      s.(target := s.tick, interrupts := true, redraw := false, pc := HittingKeys,
         history := s.history.(started := s.now))
  }

  /** One call of update_keypress, with its assertion on the letters. */
  function HitKey(s: State): State {
    if exists i :: 0 <= i < |s.letters| && !(0 <= s.letters[i].text < 26) then Panic(s)
    else
      var h := HitOnce(Hitting(s.letters, s.keys));
      if Target(s.letters, s.keys) == -1 then s.(interrupts := true, pc := Testing)
      else s.(interrupts := false, letters := h.letters, keys := h.keys)
  }

  /** create_new_letter when its tick has come, with the assertion in the allocation. */
  function Create(hz: Frequency, s: State, ry: nat, rv: nat, rt: nat): State {
    if s.now % CreatePeriod(hz) != 0 then s.(pc := Updating)
    else if |s.letters| >= Effect.POOL_SIZE then Panic(s)
    else
      s.(pc := Updating,
         letters := [Effect.NewLetter(ry, rv, rt)] + s.letters,
         keys := Released(s.keys, rt % 26),
         history := s.history.(births := [s.now] + s.history.births, creations := s.history.creations + [s.now]))
  }

  /** update_letter_pos when its tick has come. */
  function Update(hz: Frequency, s: State): State
    requires |s.history.births| == |s.letters|
  {
    if s.now % UpdatePeriod(hz) != 0 then s.(pc := Flagging)
    else
      s.(pc := Flagging,
         letters := Survivors(s.letters), hit := s.hit + Hits(s.letters), miss := s.miss + Misses(s.letters),
         history := s.history.(births := SurvivingBirths(s.letters, s.history.births),
                               updates := s.history.updates + [s.now]))
  }

  function Min(a: nat, b: nat): nat {
    if a < b then a else b
  }

  /** Lines 73-82: the redraw flag and the frame statistics. */
  function Flag(hz: Frequency, s: State): State {
    var redraw := s.redraw || s.now % (hz / 30) == 0;
    if s.now % (hz / 2) == 0 then
      s.(pc := Advancing, redraw := redraw, fps := Min(s.numDraw * 2 + 1, 30), numDraw := 0)
    else
      s.(pc := Advancing, redraw := redraw)
  }

  /** Lines 86-89. */
  function Draw(s: State): State {
    if s.redraw then s.(pc := Waiting, numDraw := s.numDraw + 1, history := s.history.(draws := s.history.draws + [s.now]))
    else s.(pc := Waiting)
  }

  function MainStep(hz: Frequency, s: State, ry: nat, rv: nat, rt: nat): (r: State)
    requires |s.history.births| == |s.letters|
    ensures |r.history.births| == |r.letters|
  {
    match s.pc
    case Waiting => s.(interrupts := false, pc := Checking)
    case Checking => Check(s)
    case HittingKeys => HitKey(s)
    case Testing => if s.now < s.target then s.(pc := Creating) else s.(pc := Drawing)
    case Creating => Create(hz, s, ry, rv, rt)
    case Updating => Update(hz, s)
    case Flagging => Flag(hz, s)
    case Advancing =>
      s.(now := s.now + 1, pc := Testing,
         history := s.history.(simulated := s.history.simulated + [s.now]))
    case Drawing => Draw(s)
    case Panicked => s
  }

  function GameStep(hz: Frequency, s: State, e: Event): (r: State)
    requires |s.history.births| == |s.letters|
    ensures |r.history.births| == |r.letters|
  {
    match e
    case Timer => if s.interrupts then s.(tick := s.tick + 1) else s
    case Key(scanCode) => if s.interrupts then s.(keys := Pressed(s.keys, scanCode)) else s
    case Main(ry, rv, rt) => MainStep(hz, s, ry, rv, rt)
  }

  /** The state after a sequence of events. */
  function Run(hz: Frequency, es: seq<Event>): (s: State)
    ensures |s.history.births| == |s.letters|
  {
    if es == [] then INITIAL else GameStep(hz, Run(hz, es[..|es| - 1]), es[|es| - 1])
  }

  // ----- invariants -----

  /** The number of multiples of p below t: how often something done every p ticks was done. */
  function Times(t: nat, p: nat): nat
    requires p >= 1
  {
    (t + p - 1) / p
  }

  lemma TimesNext(t: nat, p: nat)
    requires p >= 1
    ensures Times(t + 1, p) == Times(t, p) + if t % p == 0 then 1 else 0
    ensures t % p == 0 ==> t == Times(t, p) * p
  {
    var q, r := t / p, t % p;
    assert t == q * p + r;
    if r == 0 {
      assert t + p - 1 == q * p + (p - 1);
      QuotientIs(t + p - 1, p, q, p - 1);
      assert t + 1 + p - 1 == (q + 1) * p + 0;
      QuotientIs(t + p, p, q + 1, 0);
    } else {
      assert t + p - 1 == (q + 1) * p + (r - 1);
      QuotientIs(t + p - 1, p, q + 1, r - 1);
      assert t + 1 + p - 1 == (q + 1) * p + r;
      QuotientIs(t + p, p, q + 1, r);
    }
  }

  lemma QuotientIs(n: nat, d: nat, q: nat, r: nat)
    requires d >= 1 && n == q * d + r && r < d
    ensures n / d == q
  {
    var k := n / d;
    assert n == k * d + n % d;
    if k < q {
      MulMonotone(k + 1, q, d);
    } else if q < k {
      MulMonotone(q + 1, k, d);
    }
  }

  /** The ticks done are 0, p, 2p, ... below t. */
  ghost predicate EveryPeriod(log: seq<nat>, t: nat, p: nat)
    requires p >= 1
  {
    |log| == Times(t, p) && forall i :: 0 <= i < |log| ==> log[i] == i * p
  }

  /** Ticks whose creation is done. */
  function CreatedUpTo(s: State): nat {
    if s.pc in {Updating, Flagging, Advancing} then s.now + 1 else s.now
  }

  /** Ticks whose update is done. */
  function UpdatedUpTo(s: State): nat {
    if s.pc in {Flagging, Advancing} then s.now + 1 else s.now
  }

  /** How many updates a letter has been through. */
  function Age(birth: nat, updated: nat, period: nat): int
    requires period >= 1
  {
    Times(updated, period) - Times(birth, period)
  }

  /** A falling letter has come down by its velocity per update, which is at least 0.5; a hit letter has come down and gone up
      again, by 3.0 per update; neither is below the bottom. */
  ghost predicate LetterAges(l: Letter, age: int) {
    && LetterOk(l)
    && (Falling(l) ==> 0x8000 * age <= l.x && l.x == l.v * age)
    && 0x3_0000 * age + l.x <= 7 * MAX_X
  }

  ghost predicate LettersAge(hz: Frequency, letters: seq<Letter>, births: seq<nat>, updated: nat) {
    && |letters| == |births|
    && forall i :: 0 <= i < |letters| ==> LetterAges(letters[i], Age(births[i], updated, UpdatePeriod(hz)))
  }

  /** Newest first, all at creation ticks before t. */
  ghost predicate BirthsOk(hz: Frequency, births: seq<nat>, t: nat) {
    && (forall i :: 0 <= i < |births| ==> births[i] < t && births[i] % CreatePeriod(hz) == 0)
    && forall i, j :: 0 <= i < j < |births| ==> births[j] < births[i]
  }

  /** now never overtakes tick, and the catch-up target lies between. */
  ghost predicate ClockOk(s: State) {
    && s.now <= s.tick
    && (s.pc in {HittingKeys, Testing, Creating, Updating, Flagging, Advancing} ==> s.now <= s.target <= s.tick)
    && (s.pc in {Creating, Updating, Flagging, Advancing} ==> s.now < s.target)
    && (s.pc == Drawing ==> s.now == s.target)
    && s.pc != Panicked
    && (s.interrupts || s.pc in {Checking, HittingKeys})
    && (s.pc == Checking ==> !s.interrupts)
  }

  /** A frame is due at one of the ticks from a to b. */
  ghost predicate FrameDue(hz: Frequency, a: nat, b: nat) {
    exists t :: a <= t < b && t % (hz / 30) == 0
  }

  /** The redraw flag is set exactly if a frame was due in the ticks simulated in this catch-up. */
  ghost predicate RedrawOk(hz: Frequency, s: State) {
    s.pc in {HittingKeys, Testing, Creating, Updating, Flagging, Advancing, Drawing} ==>
      && s.history.started <= s.now
      && (s.redraw <==> FrameDue(hz, s.history.started, if s.pc == Advancing then s.now + 1 else s.now))
      && (s.pc == HittingKeys ==> s.history.started == s.now)
  }

  ghost predicate Core(hz: Frequency, s: State) {
    && ClockOk(s)
    && RedrawOk(hz, s)
    && LettersAge(hz, s.letters, s.history.births, UpdatedUpTo(s))
    && BirthsOk(hz, s.history.births, CreatedUpTo(s))
    && EveryPeriod(s.history.creations, CreatedUpTo(s), CreatePeriod(hz))
    && EveryPeriod(s.history.updates, UpdatedUpTo(s), UpdatePeriod(hz))
    && s.history.simulated == seq(s.now, i => i)
    && |s.history.creations| == s.hit + s.miss + |s.letters|
  }

  /** The tick of the last half second before `flagged`, or a negative number. */
  function LastHalf(flagged: nat, half: nat): int
    requires half >= 1
  {
    ((flagged - 1) / half) * half
  }

  /** Ticks whose frame statistics are done. */
  function FlaggedUpTo(s: State): nat {
    if s.pc == Advancing then s.now + 1 else s.now
  }

  /** The redraws after tick a, up to tick b. */
  ghost function DrawsIn(draws: seq<nat>, a: int, b: int): set<int> {
    set i | 0 <= i < |draws| && a < draws[i] <= b
  }

  /** numDraw counts the redraws since the last half second, and the rate shown is that of the half
      second before. */
  ghost predicate Statistics(half: nat, draws: seq<nat>, now: nat, flagged: nat, numDraw: nat, fps: nat)
    requires half >= 1
  {
    var last := LastHalf(flagged, half);
    && (forall i :: 0 <= i < |draws| ==> draws[i] <= now)
    && numDraw == |DrawsIn(draws, last, now)|
    && fps == if flagged == 0 then 0 else Min(2 * |DrawsIn(draws, last - half, last)| + 1, 30)
  }

  ghost predicate DrawsOk(half: nat, s: State)
    requires half >= 1
  {
    Statistics(half, s.history.draws, s.now, FlaggedUpTo(s), s.numDraw, s.fps)
  }

  ghost predicate Inv(hz: Frequency, s: State) {
    Core(hz, s) && DrawsOk(hz / 2, s)
  }

  // ----- each kind of main step keeps the invariant -----

  lemma EveryPeriodNext(log: seq<nat>, t: nat, p: nat)
    requires p >= 1 && EveryPeriod(log, t, p)
    ensures EveryPeriod(if t % p == 0 then log + [t] else log, t + 1, p)
  {
    TimesNext(t, p);
  }

  /** A creation adds a letter of age 0 in front. */
  lemma CreateKeeps(hz: Frequency, s: State, ry: nat, rv: nat, rt: nat)
    requires Core(hz, s) && s.pc == Creating && |s.letters| < Effect.POOL_SIZE
    ensures Core(hz, Create(hz, s, ry, rv, rt))
  {
    EveryPeriodNext(s.history.creations, s.now, CreatePeriod(hz));
    hide EveryPeriod, Times;
    if s.now % CreatePeriod(hz) == 0 {
      var l := Effect.NewLetter(ry, rv, rt);
      var births := [s.now] + s.history.births;
      assert forall i :: 0 < i < |births| ==> births[i] == s.history.births[i - 1];
      assert LetterAges(l, Age(s.now, s.now, UpdatePeriod(hz)));
    }
  }

  /** A surviving letter is one update older. */
  lemma SurvivorAges(l: Letter, age: int)
    requires LetterAges(l, age) && OnScreen(Advanced(l))
    ensures LetterAges(Advanced(l), age + 1)
  {
    assert l.v * (age + 1) == l.v * age + l.v;
  }

  lemma {:induction false} SurvivorsAge(hz: Frequency, letters: seq<Letter>, births: seq<nat>, now: nat)
    requires LettersAge(hz, letters, births, now) && now % UpdatePeriod(hz) == 0
    ensures LettersAge(hz, Survivors(letters), SurvivingBirths(letters, births), now + 1)
  {
    if letters != [] {
      var n := |letters| - 1;
      SurvivorsAge(hz, letters[..n], births[..n], now);
      TimesNext(now, UpdatePeriod(hz));
      hide Times, LetterAges;
      if OnScreen(Advanced(letters[n])) {
        SurvivorAges(letters[n], Age(births[n], now, UpdatePeriod(hz)));
      }
    }
  }

  lemma {:induction false} BirthsSurvive(hz: Frequency, letters: seq<Letter>, births: seq<nat>, t: nat)
    requires |letters| == |births| && BirthsOk(hz, births, t)
    ensures BirthsOk(hz, SurvivingBirths(letters, births), t)
    ensures forall b :: b in SurvivingBirths(letters, births) ==> b in births
  {
    hide Survivors, OnScreen, Advanced, CreatePeriod;
    if letters != [] {
      var n := |letters| - 1;
      BirthsSurvive(hz, letters[..n], births[..n], t);
      var rest := SurvivingBirths(letters[..n], births[..n]);
      forall i | 0 <= i < |rest|
        ensures births[n] < rest[i]
      {
        assert rest[i] in births[..n];
      }
    }
  }

  lemma UpdateKeeps(hz: Frequency, s: State)
    requires Core(hz, s) && s.pc == Updating
    ensures Core(hz, Update(hz, s))
  {
    hide EveryPeriod, Times, Survivors, SurvivingBirths, Hits, Misses, LetterAges;
    EveryPeriodNext(s.history.updates, s.now, UpdatePeriod(hz));
    TimesNext(s.now, UpdatePeriod(hz));
    Conservation(s.letters);
    if s.now % UpdatePeriod(hz) == 0 {
      SurvivorsAge(hz, s.letters, s.history.births, s.now);
      BirthsSurvive(hz, s.letters, s.history.births, s.now + 1);
    }
  }

  /** A hit changes the velocity of one letter only. */
  lemma HitKeeps(hz: Frequency, s: State)
    requires Core(hz, s) && s.pc == HittingKeys
    ensures Core(hz, HitKey(s))
  {
    hide EveryPeriod, Times;
    var k := Target(s.letters, s.keys);
    if k != -1 {
      assert LetterAges(s.letters[k], Age(s.history.births[k], s.now, UpdatePeriod(hz)));
    }
  }

  /** Interrupts touch the tick counter and the key flags only. */
  lemma InterruptKeeps(hz: Frequency, s: State, e: Event)
    requires Core(hz, s) && !e.Main?
    ensures Core(hz, GameStep(hz, s, e))
  {
  }

  /** One more tick is one more chance for a frame to be due. */
  lemma FrameDueNext(hz: Frequency, a: nat, b: nat)
    requires a <= b
    ensures FrameDue(hz, a, b + 1) <==> FrameDue(hz, a, b) || b % (hz / 30) == 0
    ensures !FrameDue(hz, a, a)
  {
    if FrameDue(hz, a, b) {
      var t :| a <= t < b && t % (hz / 30) == 0;
      assert a <= t < b + 1;
    }
    if b % (hz / 30) == 0 {
      assert a <= b < b + 1;
    }
  }

  lemma OtherStepsKeep(hz: Frequency, s: State, e: Event)
    requires Core(hz, s) && e.Main? && s.pc !in {HittingKeys, Creating, Updating}
    ensures Core(hz, GameStep(hz, s, e))
  {
    if s.history.started <= s.now {
      FrameDueNext(hz, s.history.started, s.now);
    }
    FrameDueNext(hz, s.now, s.now);
    hide EveryPeriod, Times, LettersAge, BirthsOk, FrameDue;
  }

  // ----- the frame statistics -----

  lemma LastHalfNext(t: nat, half: nat)
    requires half >= 1
    ensures LastHalf(t + 1, half) == if t % half == 0 then t else LastHalf(t, half)
    ensures t % half == 0 ==> LastHalf(t, half) == t - half
    ensures LastHalf(t, half) < t
  {
    var q := t / half;
    assert t == q * half + t % half;
    if t % half == 0 {
      assert t - 1 == (q - 1) * half + (half - 1);
      FloorIs(t - 1, half, q - 1, half - 1);
      assert (q - 1) * half == q * half - half;
    } else {
      FloorIs(t - 1, half, q, t % half - 1);
    }
  }

  lemma FloorIs(n: int, d: nat, q: int, r: int)
    requires d >= 1 && n == q * d + r && 0 <= r < d
    ensures n / d == q
  {
    var k := n / d;
    assert n == k * d + n % d;
    if k < q {
      MulMonotone(k + 1, q, d);
    } else if q < k {
      MulMonotone(q + 1, k, d);
    }
  }

  lemma FlagStatistics(half: nat, draws: seq<nat>, now: nat, numDraw: nat, fps: nat)
    requires half >= 1 && Statistics(half, draws, now, now, numDraw, fps)
    ensures Statistics(half, draws, now, now + 1, if now % half == 0 then 0 else numDraw,
                       if now % half == 0 then Min(2 * numDraw + 1, 30) else fps)
  {
    LastHalfNext(now, half);
    NoDrawsIn(draws, now);
    hide LastHalf, DrawsIn;
  }

  lemma FlagKeepsDraws(hz: Frequency, s: State)
    requires DrawsOk(hz / 2, s) && s.pc == Flagging
    ensures DrawsOk(hz / 2, Flag(hz, s))
  {
    FlagStatistics(hz / 2, s.history.draws, s.now, s.numDraw, s.fps);
    hide Statistics;
  }

  lemma NoDrawsIn(draws: seq<nat>, t: int)
    ensures DrawsIn(draws, t, t) == {}
  {
  }

  lemma AdvanceKeepsDraws(draws: seq<nat>, a: int, now: nat)
    requires forall i :: 0 <= i < |draws| ==> draws[i] <= now
    ensures DrawsIn(draws, a, now + 1) == DrawsIn(draws, a, now)
  {
  }

  lemma OneMoreDraw(draws: seq<nat>, a: int, b: int, now: nat)
    requires a < now && b < now
    ensures DrawsIn(draws + [now], a, now) == DrawsIn(draws, a, now) + {|draws|} && |draws| !in DrawsIn(draws, a, now)
    ensures forall c :: DrawsIn(draws + [now], c, b) == DrawsIn(draws, c, b)
  {
  }

  lemma DrawKeepsDraws(half: nat, s: State)
    requires half >= 1 && DrawsOk(half, s) && s.pc == Drawing
    ensures DrawsOk(half, Draw(s))
  {
    var last := LastHalf(s.now, half);
    LastHalfNext(s.now, half);
    hide LastHalf;
    OneMoreDraw(s.history.draws, last, last, s.now);
    hide DrawsIn;
  }

  /** The other steps keep the statistics, except that one goes on to the next tick. */
  lemma StatisticsKept(half: nat, s: State, r: State)
    requires half >= 1 && DrawsOk(half, s)
    requires r.numDraw == s.numDraw && r.fps == s.fps && r.history.draws == s.history.draws
    requires FlaggedUpTo(r) == FlaggedUpTo(s) && (r.now == s.now || r.now == s.now + 1)
    ensures DrawsOk(half, r)
  {
    AdvanceKeepsDraws(s.history.draws, LastHalf(FlaggedUpTo(s), half), s.now);
    hide LastHalf, DrawsIn, FlaggedUpTo;
  }

  lemma OtherStepStatistics(hz: Frequency, s: State, e: Event)
    requires |s.history.births| == |s.letters| && !(e.Main? && s.pc in {Flagging, Drawing})
    ensures var r := GameStep(hz, s, e);
            && r.numDraw == s.numDraw && r.fps == s.fps && r.history.draws == s.history.draws
            && FlaggedUpTo(r) == FlaggedUpTo(s) && (r.now == s.now || r.now == s.now + 1)
  {
    hide HitOnce, Target, Survivors, SurvivingBirths, Hits, Misses, Released, Pressed, Flag, Draw;
    if e.Main? && s.pc in {HittingKeys, Creating, Updating} {
      hide Check;
    } else {
      hide HitKey, Create, Update;
    }
  }

  lemma DrawsKeep(hz: Frequency, s: State, e: Event)
    requires |s.history.births| == |s.letters| && DrawsOk(hz / 2, s)
    ensures DrawsOk(hz / 2, GameStep(hz, s, e))
  {
    if e.Main? && s.pc == Flagging {
      FlagKeepsDraws(hz, s);
    } else if e.Main? && s.pc == Drawing {
      DrawKeepsDraws(hz / 2, s);
    } else {
      OtherStepStatistics(hz, s, e);
      hide GameStep;
      StatisticsKept(hz / 2, s, GameStep(hz, s, e));
    }
    hide DrawsOk, Flag, Draw;
  }

  // ----- the pool is never exhausted -----

  lemma {:induction false} BirthSpacing(hz: Frequency, births: seq<nat>, t: nat, k: nat)
    requires BirthsOk(hz, births, t) && k < |births|
    ensures births[0] - births[k] >= k * CreatePeriod(hz)
  {
    if k > 0 {
      BirthSpacing(hz, births, t, k - 1);
      MultiplesApart(births[k], births[k - 1], CreatePeriod(hz));
    }
  }

  lemma MultiplesApart(a: nat, b: nat, p: nat)
    requires p >= 1 && a < b && a % p == 0 && b % p == 0
    ensures b - a >= p
  {
    var i, j := a / p, b / p;
    assert a == i * p && b == j * p;
    if i >= j {
      MulMonotone(j, i, p);
    } else {
      MulMonotone(i + 1, j, p);
    }
  }

  lemma TimesBounds(t: nat, p: nat)
    requires p >= 1
    ensures t <= Times(t, p) * p <= t + p - 1
  {
    DivBounds(t + p - 1, p);
  }

  /** A letter on the screen was created less than 449 update periods ago. */
  lemma LifeSpan(birth: nat, updated: nat, m: nat, l: Letter)
    requires m >= 1 && LetterAges(l, Age(birth, updated, m))
    ensures updated - birth < 449 * m
  {
    var age := Age(birth, updated, m);
    assert age <= 448;
    TimesBounds(updated, m);
    TimesBounds(birth, m);
    assert age * m == Times(updated, m) * m - Times(birth, m) * m;
    MulMonotone(age, 448, m);
  }

  /** There are never more than 14 letters, whatever the frequency. */
  lemma FewLetters(hz: Frequency, s: State)
    requires Inv(hz, s)
    ensures |s.letters| <= 14
  {
    var n, m := |s.letters|, UpdatePeriod(hz);
    if n > 0 {
      LifeSpan(s.history.births[n - 1], UpdatedUpTo(s), m, s.letters[n - 1]);
      BirthSpacing(hz, s.history.births, CreatedUpTo(s), n - 1);
      SpacingLeavesRoom(n - 1, m, CreatePeriod(hz));
    }
  }

  lemma SpacingLeavesRoom(k: nat, m: nat, p: nat)
    requires 33 * m <= p && k * p < 449 * m
    ensures k <= 13
  {
    MulMonotone(33 * m, p, k);
    if k >= 14 {
      MulMonotone(14, k, 33 * m);
    }
  }

  // ----- every run -----

  lemma StepKeeps(hz: Frequency, s: State, e: Event)
    requires Inv(hz, s)
    ensures Inv(hz, GameStep(hz, s, e))
  {
    FewLetters(hz, s);
    DrawsKeep(hz, s, e);
    hide DrawsOk;
    if e.Main? && s.pc == Creating {
      CreateKeeps(hz, s, e.ry, e.rv, e.rt);
    } else if e.Main? && s.pc == Updating {
      UpdateKeeps(hz, s);
    } else if e.Main? && s.pc == HittingKeys {
      HitKeeps(hz, s);
    } else if e.Main? {
      OtherStepsKeep(hz, s, e);
    } else {
      InterruptKeeps(hz, s, e);
    }
  }

  lemma InitialInv(hz: Frequency)
    ensures Inv(hz, INITIAL)
  {
    TimesBounds(0, CreatePeriod(hz));
    TimesBounds(0, UpdatePeriod(hz));
    NothingYet(CreatePeriod(hz));
    NothingYet(UpdatePeriod(hz));
    assert DrawsIn([], LastHalf(0, hz / 2), 0) == {};
    hide Times, LastHalf, DrawsIn;
  }

  lemma NothingYet(p: nat)
    requires p >= 1
    ensures Times(0, p) == 0
  {
    QuotientIs(p - 1, p, 0, p - 1);
  }

  lemma {:induction false} RunKeeps(hz: Frequency, es: seq<Event>)
    ensures Inv(hz, Run(hz, es))
  {
    hide Inv, GameStep;
    if es != [] {
      RunKeeps(hz, es[..|es| - 1]);
      StepKeeps(hz, Run(hz, es[..|es| - 1]), es[|es| - 1]);
    } else {
      InitialInv(hz);
    }
  }

  /** How many timer interrupts were taken. */
  function TimersTaken(hz: Frequency, es: seq<Event>): nat {
    if es == [] then 0
    else
      var before := es[..|es| - 1];
      TimersTaken(hz, before) + if es[|es| - 1].Timer? && Run(hz, before).interrupts then 1 else 0
  }

  lemma {:induction false} TickCountsTimers(hz: Frequency, es: seq<Event>)
    ensures Run(hz, es).tick == TimersTaken(hz, es)
  {
    if es != [] {
      TickCountsTimers(hz, es[..|es| - 1]);
      TickStep(hz, Run(hz, es[..|es| - 1]), es[|es| - 1]);
      hide GameStep;
    }
  }

  /** Only a timer interrupt that is taken changes the tick. */
  lemma TickStep(hz: Frequency, s: State, e: Event)
    requires |s.history.births| == |s.letters|
    ensures GameStep(hz, s, e).tick == s.tick + if e.Timer? && s.interrupts then 1 else 0
  {
    hide HitOnce, Target, Survivors, SurvivingBirths, Hits, Misses, Released, Pressed;
  }

  /** In every interleaving: no assertion fails, now <= tick, every tick below now was simulated
      once and in order, letters were created exactly at 0, hz/3, 2 * (hz/3), ... and positions
      updated exactly at 0, hz/100, 2 * (hz/100), ..., as often as there are such ticks. */
  lemma SchedulerSafety(hz: Frequency, es: seq<Event>)
    ensures var s := Run(hz, es);
            && s.pc != Panicked
            && s.now <= s.tick == TimersTaken(hz, es)
            && s.history.simulated == seq(s.now, i => i)
            && |s.history.creations| == Times(CreatedUpTo(s), hz / 3)
            && (forall i :: 0 <= i < |s.history.creations| ==> s.history.creations[i] == i * (hz / 3))
            && |s.history.updates| == Times(UpdatedUpTo(s), hz / 100)
            && (forall i :: 0 <= i < |s.history.updates| ==> s.history.updates[i] == i * (hz / 100))
            && (s.pc == Waiting ==> s.interrupts)
  {
    RunKeeps(hz, es);
    TickCountsTimers(hz, es);
  }

  /** In every interleaving: created letters are on the screen, hit or missed; at most 14 are on
      the screen, so the pool of 1000 always has room; falling letters keep 0.5 <= v < 1.0 and hit
      letters v == -3.0. */
  lemma LetterSafety(hz: Frequency, es: seq<Event>)
    ensures var s := Run(hz, es);
            && |s.history.creations| == s.hit + s.miss + |s.letters|
            && |s.letters| <= 14 < 1000 == Effect.POOL_SIZE
            && LettersOk(s.letters)
  {
    RunKeeps(hz, es);
    FewLetters(hz, Run(hz, es));
  }

  /** Frames are skipped, not lost: when the catch-up is over, the screen is redrawn exactly if a
      frame was due at one of the ticks caught up with, all of them from the start of the catch-up
      to the target. */
  lemma FrameSkipping(hz: Frequency, es: seq<Event>)
    ensures var s := Run(hz, es);
            s.pc == Drawing ==>
              && s.now == s.target
              && (s.redraw <==> exists t :: s.history.started <= t < s.now && t % (hz / 30) == 0)
              && s.fps <= 30
  {
    RunKeeps(hz, es);
  }

  /** A redraw is logged exactly when it happens, and nothing else is. */
  lemma RedrawLogged(hz: Frequency, es: seq<Event>, e: Event)
    ensures var s := Run(hz, es); var r := Run(hz, es + [e]);
            r.history.draws == if e.Main? && s.pc == Drawing && s.redraw then s.history.draws + [s.now] else s.history.draws
  {
    assert (es + [e])[..|es|] == es;
    StepLogs(hz, Run(hz, es), e);
    hide GameStep;
  }

  lemma StepLogs(hz: Frequency, s: State, e: Event)
    requires |s.history.births| == |s.letters|
    ensures GameStep(hz, s, e).history.draws
            == if e.Main? && s.pc == Drawing && s.redraw then s.history.draws + [s.now] else s.history.draws
  {
    hide HitOnce, Target, Survivors, SurvivingBirths, Hits, Misses, Released, Pressed;
  }

  /** In every interleaving, with F the number of ticks whose statistics are done: the frame counter is
      the number of redraws since the last multiple of hz/2 below F, and the rate displayed is twice the
      number of redraws in the half second before that, plus one, but at most 30. */
  lemma FrameRate(hz: Frequency, es: seq<Event>, last: int)
    requires last % (hz / 2) == 0 && last < FlaggedUpTo(Run(hz, es)) <= last + hz / 2
    ensures ShowsRate(Run(hz, es), last, hz / 2)
  {
    RunKeeps(hz, es);
    RateAt(Run(hz, es), hz / 2, last);
    hide Run, Core, DrawsOk, FlaggedUpTo, ShowsRate;
  }

  ghost predicate ShowsRate(s: State, last: int, half: int) {
    && s.numDraw == |set i | 0 <= i < |s.history.draws| && last < s.history.draws[i] <= s.now|
    && (FlaggedUpTo(s) > 0 ==>
          var n := |set i | 0 <= i < |s.history.draws| && last - half < s.history.draws[i] <= last|;
          s.fps == if 2 * n + 1 < 30 then 2 * n + 1 else 30)
  }

  lemma RateAt(s: State, half: nat, last: int)
    requires half >= 1 && DrawsOk(half, s) && last % half == 0 && last < FlaggedUpTo(s) <= last + half
    ensures ShowsRate(s, last, half)
  {
    LastHalfIs(FlaggedUpTo(s), half, last);
    DrawsInMeans(s.history.draws, last, s.now);
    DrawsInMeans(s.history.draws, last - half, last);
    hide LastHalf, DrawsIn, FlaggedUpTo;
  }

  lemma DrawsInMeans(draws: seq<nat>, a: int, b: int)
    ensures DrawsIn(draws, a, b) == set i | 0 <= i < |draws| && a < draws[i] <= b
  {
  }

  lemma LastHalfIs(flagged: nat, half: nat, last: int)
    requires half >= 1 && last % half == 0 && last < flagged <= last + half
    ensures last == LastHalf(flagged, half)
  {
    assert last == (last / half) * half;
    FloorIs(flagged - 1, half, last / half, flagged - 1 - last);
  }

  /** In every interleaving a falling letter is at its velocity times the number of updates since it was
      created: it moves by its own speed, once per update. */
  lemma FallsAtItsSpeed(hz: Frequency, es: seq<Event>, i: int)
    ensures var s := Run(hz, es);
            0 <= i < |s.letters| && s.letters[i].v > 0 ==>
              s.letters[i].x == s.letters[i].v * (Times(UpdatedUpTo(s), hz / 100) - Times(s.history.births[i], hz / 100))
  {
    var s := Run(hz, es);
    RunKeeps(hz, es);
    hide Run, Times, BirthsOk, EveryPeriod, RedrawOk, ClockOk, DrawsOk;
    if 0 <= i < |s.letters| {
      assert LetterAges(s.letters[i], Age(s.history.births[i], UpdatedUpTo(s), UpdatePeriod(hz)));
    }
  }

  // ----- what single steps do, in fields -----

  /** An interrupt that is taken counts a tick or sets the flag of the letter that has the scan code, and
      one that is not taken does nothing. */
  lemma InterruptStep(hz: Frequency, s: State, e: Event)
    requires |s.history.births| == |s.letters| && !e.Main?
    ensures var r := GameStep(hz, s, e);
            if !s.interrupts then r == s
            else if e.Timer? then r == s.(tick := s.tick + 1)
            else
              && r == s.(keys := r.keys)
              && forall t :: 0 <= t < 26 ==> (r.keys[t] <==> s.keys[t] || LETTER_CODE[t] == e.scanCode)
  {
  }

  /** A step of the key loop, with interrupts enabled or not: as long as a pressed key has a falling letter
      it hits the lowest of them and disables interrupts; otherwise it enables them and ends. */
  lemma HitStep(hz: Frequency, s: State, e: Event)
    requires Inv(hz, s) && s.pc == HittingKeys && e.Main?
    ensures var r := GameStep(hz, s, e);
            && (r.pc == Testing <==> NonePressed(s.letters, s.keys))
            && (r.pc == Testing ==> r == s.(pc := Testing, interrupts := true) && NonePressed(r.letters, r.keys))
            && (r.pc != Testing ==>
                  && r == s.(interrupts := false, letters := r.letters, keys := r.keys)
                  && exists k :: LowestPressed(s.letters, s.keys, k) && TurnedAndReleased(s.letters, s.keys, r.letters, r.keys, k))
  {
    InvLetters(hz, s);
    var h := Hitting(s.letters, s.keys);
    var k := Target(s.letters, s.keys);
    HitOnceMeans(h);
    hide HitOnce, Target, Inv;
    if k != -1 {
      assert TurnedAndReleased(s.letters, s.keys, HitOnce(h).letters, HitOnce(h).keys, k);
    }
  }

  /** The steps of the main loop that touch neither letters nor keys. */
  lemma LoopStep(hz: Frequency, s: State, e: Event)
    requires Inv(hz, s) && e.Main? && s.pc !in {HittingKeys, Creating, Updating}
    ensures var r := GameStep(hz, s, e);
            match s.pc
            case Waiting => r == s.(pc := Checking, interrupts := false)
            case Checking =>
              if s.now == s.tick then r == s.(pc := Waiting, interrupts := true)
              else r == s.(pc := HittingKeys, interrupts := true, target := s.tick, redraw := false,
                           history := s.history.(started := s.now))
            case Testing => r == s.(pc := if s.now < s.target then Creating else Drawing)
            case Flagging =>
              && r == s.(pc := Advancing, redraw := r.redraw, fps := r.fps, numDraw := r.numDraw)
              && (r.redraw <==> s.redraw || s.now % (hz / 30) == 0)
              && if s.now % (hz / 2) == 0 then r.numDraw == 0 && r.fps == (if s.numDraw < 15 then 2 * s.numDraw + 1 else 30)
                 else r.numDraw == s.numDraw && r.fps == s.fps
            case Advancing => r == s.(pc := Testing, now := s.now + 1, history := s.history.(simulated := s.history.simulated + [s.now]))
            case Drawing =>
              r == if s.redraw then s.(pc := Waiting, numDraw := s.numDraw + 1, history := s.history.(draws := s.history.draws + [s.now]))
                   else s.(pc := Waiting)
            case _ => false
  {
    assert ClockOk(s);
    hide Inv;
  }

  /** At its ticks a letter is created in front and its key released; everything else stays. */
  lemma CreateStep(hz: Frequency, s: State, ry: nat, rv: nat, rt: nat)
    requires Inv(hz, s) && s.pc == Creating
    ensures var r := GameStep(hz, s, Main(ry, rv, rt));
            && r == s.(pc := Updating, letters := r.letters, keys := r.keys, history := r.history)
            && if s.now % (hz / 3) != 0 then r.letters == s.letters && r.keys == s.keys && r.history == s.history
               else
                 && |r.letters| == |s.letters| + 1 && r.letters[1..] == s.letters
                 && r.letters[0].x == 0 && r.letters[0].y == 8 * (ry % 38) + 8 && r.letters[0].text == rt % 26
                 && r.letters[0].v == 0x8000 + (rv % 1000) * 0x1_0000 / 2000
                 && r.keys == s.keys[rt % 26 := false]
                 && r.history == s.history.(births := [s.now] + s.history.births, creations := s.history.creations + [s.now])
  {
    FewLetters(hz, s);
    hide Inv;
  }

  /** At its ticks every letter moves by its velocity; those that leave the screen are counted, at the top
      as hit and at the bottom as missed. */
  lemma UpdateStep(hz: Frequency, s: State, e: Event)
    requires Inv(hz, s) && s.pc == Updating && e.Main?
    ensures var r := GameStep(hz, s, e);
            && r == s.(pc := Flagging, letters := r.letters, hit := r.hit, miss := r.miss, history := r.history)
            && if s.now % (hz / 100) != 0 then
                 r.letters == s.letters && r.hit == s.hit && r.miss == s.miss && r.history == s.history
               else
                 && (exists from: seq<nat> :: ComeFrom(r.letters, s.letters, from))
                 && r.hit == s.hit + |LeavingTop(s.letters)| && r.miss == s.miss + |LeavingBottom(s.letters)|
                 && r.history == s.history.(births := r.history.births, updates := s.history.updates + [s.now])
  {
    Effect.UpdateMeans(s.letters);
    hide Inv, Survivors, SurvivingBirths, Hits, Misses, ComeFrom, LeavingTop, LeavingBottom;
  }

  // ----- progress -----

  /** Continuing from any state. */
  function RunFrom(hz: Frequency, s: State, es: seq<Event>): (r: State)
    requires |s.history.births| == |s.letters|
    ensures |r.history.births| == |r.letters|
    decreases |es|
  {
    if es == [] then s else RunFrom(hz, GameStep(hz, s, es[0]), es[1..])
  }

  function MainSteps(es: seq<Event>): nat {
    if es == [] then 0 else (if es[0].Main? then 1 else 0) + MainSteps(es[1..])
  }

  lemma {:induction false} KeyLoopRun(hz: Frequency, s: State, es: seq<Event>)
    requires Inv(hz, s) && s.pc == HittingKeys && !s.interrupts
    ensures var h := Hitting(s.letters, s.keys); var r := RunFrom(hz, s, es);
            && (MainSteps(es) <= HitCount(h) ==> r.pc == HittingKeys && !r.interrupts && r.tick == s.tick)
            && (MainSteps(es) == HitCount(h) + 1 && es[|es| - 1].Main? ==>
                  && r.pc == Testing && r.interrupts && r.tick == s.tick
                  && Hitting(r.letters, r.keys) == HitAll(h))
    decreases |es|
  {
    var h := Hitting(s.letters, s.keys);
    if es != [] {
      var r := GameStep(hz, s, es[0]);
      InvLetters(hz, s);
      StepKeeps(hz, s, es[0]);
      KeyLoopStep(hz, s, es[0]);
      Effect.HitAllStep(h);
      assert RunFrom(hz, s, es) == RunFrom(hz, r, es[1..]);
      assert MainSteps(es) == (if es[0].Main? then 1 else 0) + MainSteps(es[1..]);
      hide Inv, HitAll, HitCount, HitOnce, Target, GameStep, LettersOk;
      if !es[0].Main? || Target(s.letters, s.keys) != -1 {
        hide RunFrom, MainSteps;
        KeyLoopRun(hz, r, es[1..]);
      } else if MainSteps(es) == 1 && es[|es| - 1].Main? {
        LastMainOnly(es);
        assert RunFrom(hz, r, []) == r;
      }
    }
  }

  /** After the first hit, the key loop cannot be interrupted: whatever events arrive, it takes one
      step per letter it hits and one more, which leaves interrupts enabled and no pressed key with
      a falling letter. */
  lemma KeyLoopEnds(hz: Frequency, s: State, es: seq<Event>)
    requires Inv(hz, s) && s.pc == HittingKeys && !s.interrupts
    ensures var h := Hitting(s.letters, s.keys); var r := RunFrom(hz, s, es);
            && HitCount(h) <= 26
            && (MainSteps(es) <= HitCount(h) ==> r.pc == HittingKeys && !r.interrupts && r.tick == s.tick)
            && (MainSteps(es) == HitCount(h) + 1 && es[|es| - 1].Main? ==>
                  && r.pc == Testing && r.interrupts && r.tick == s.tick
                  && AllHit(h, Hitting(r.letters, r.keys), HitCount(h))
                  && Hitting(r.letters, r.keys) == HitAll(h)
                  && LettersOk(r.letters)
                  && NonePressed(r.letters, r.keys)
                  && forall i :: 0 <= i < |r.letters| ==> !(Falling(r.letters[i]) && r.keys[r.letters[i].text]))
  {
    InvLetters(hz, s);
    HitAllCorrect(Hitting(s.letters, s.keys));
    HitAllDone(Hitting(s.letters, s.keys));
    KeyLoopRun(hz, s, es);
    hide Inv, RunFrom, HitAll, HitCount, MainSteps, AllHit;
  }

  /** The key of letter t is pressed by one of the events. */
  ghost predicate IsPressedBy(es: seq<Event>, t: int)
    requires 0 <= t < 26
  {
    exists i :: 0 <= i < |es| && es[i] == Key(LETTER_CODE[t])
  }

  lemma PressedLater(e: Event, es: seq<Event>, t: int)
    requires 0 <= t < 26
    ensures IsPressedBy([e] + es, t) <==> e == Key(LETTER_CODE[t]) || IsPressedBy(es, t)
  {
    var all := [e] + es;
    if IsPressedBy(es, t) {
      var i :| 0 <= i < |es| && es[i] == Key(LETTER_CODE[t]);
      assert all[i + 1] == es[i];
    }
    if e == Key(LETTER_CODE[t]) {
      assert all[0] == e;
    }
    if IsPressedBy(all, t) {
      var i :| 0 <= i < |all| && all[i] == Key(LETTER_CODE[t]);
      assert i > 0 ==> es[i - 1] == all[i];
    }
  }

  /** Until its first step the key loop can be interrupted: the keys pressed meanwhile count. */
  lemma {:induction false} KeyLoopWaits(hz: Frequency, s: State, es: seq<Event>)
    requires Inv(hz, s) && s.pc == HittingKeys && MainSteps(es) == 0
    ensures var r := RunFrom(hz, s, es);
            && Inv(hz, r) && r.pc == HittingKeys && r.letters == s.letters && r.interrupts == s.interrupts
            && forall t :: 0 <= t < 26 ==> (r.keys[t] <==> s.keys[t] || (s.interrupts && IsPressedBy(es, t)))
    decreases |es|
  {
    if es != [] {
      var r := GameStep(hz, s, es[0]);
      StepKeeps(hz, s, es[0]);
      InterruptStep(hz, s, es[0]);
      hide Inv, GameStep, IsPressedBy;
      KeyLoopWaits(hz, r, es[1..]);
      assert es == [es[0]] + es[1..];
      forall t | 0 <= t < 26
        ensures IsPressedBy(es, t) <==> es[0] == Key(LETTER_CODE[t]) || IsPressedBy(es[1..], t)
      {
        PressedLater(es[0], es[1..], t);
      }
    } else {
      assert forall t :: 0 <= t < 26 ==> !IsPressedBy(es, t);
    }
  }

  lemma NoMainBefore(es: seq<Event>)
    requires es != [] && es[0].Main?
    ensures MainSteps(es) == 1 + MainSteps(es[1..])
    ensures MainSteps(es) == 1 && es[|es| - 1].Main? ==> |es| == 1
  {
    if MainSteps(es) == 1 && es[|es| - 1].Main? {
      LastMainOnly(es);
    }
  }

  /** The whole key loop, entered with interrupts enabled: the events `before` come before its first step,
      which is the first of `es`.  It hits of each text whose key is pressed by then the lowest falling
      letter, and those only, one per step, and ends with interrupts enabled and no pressed key with a
      falling letter. */
  lemma KeyLoopWhole(hz: Frequency, s: State, before: seq<Event>, es: seq<Event>)
    requires Inv(hz, s) && s.pc == HittingKeys && MainSteps(before) == 0 && es != [] && es[0].Main?
    ensures var m := RunFrom(hz, s, before); var r := RunFrom(hz, m, es);
            var h := Hitting(m.letters, m.keys);
            && m.letters == s.letters
            && (forall t :: 0 <= t < 26 ==> (m.keys[t] <==> s.keys[t] || (s.interrupts && IsPressedBy(before, t))))
            && HitCount(h) <= 26
            && (MainSteps(es) <= HitCount(h) ==> r.pc == HittingKeys && !r.interrupts && r.tick == m.tick)
            && (MainSteps(es) == HitCount(h) + 1 && es[|es| - 1].Main? ==>
                  && r.pc == Testing && r.interrupts && r.tick == m.tick
                  && AllHit(h, Hitting(r.letters, r.keys), HitCount(h))
                  && NonePressed(r.letters, r.keys))
  {
    KeyLoopWaits(hz, s, before);
    var m := RunFrom(hz, s, before);
    FirstHit(hz, m, es);
    hide Inv, RunFrom, MainSteps, IsPressedBy, AllHit, HitCount, NonePressed;
  }

  lemma FirstHit(hz: Frequency, m: State, es: seq<Event>)
    requires Inv(hz, m) && m.pc == HittingKeys && es != [] && es[0].Main?
    ensures var r := RunFrom(hz, m, es); var h := Hitting(m.letters, m.keys);
            && HitCount(h) <= 26
            && (MainSteps(es) <= HitCount(h) ==> r.pc == HittingKeys && !r.interrupts && r.tick == m.tick)
            && (MainSteps(es) == HitCount(h) + 1 && es[|es| - 1].Main? ==>
                  && r.pc == Testing && r.interrupts && r.tick == m.tick
                  && AllHit(h, Hitting(r.letters, r.keys), HitCount(h))
                  && NonePressed(r.letters, r.keys))
  {
    var h := Hitting(m.letters, m.keys);
    var n := GameStep(hz, m, es[0]);
    InvLetters(hz, m);
    HitAllCorrect(h);
    HitAllDone(h);
    HitOnceMeans(h);
    StepKeeps(hz, m, es[0]);
    FirstStep(m, hz, es[0]);
    NoMainBefore(es);
    Effect.HitAllStep(h);
    hide Inv, GameStep, HitAll, HitCount, HitOnce, Target, AllHit, LettersOk, MainSteps;
    if Target(m.letters, m.keys) == -1 {
      assert |es| == 1 ==> RunFrom(hz, m, es) == n;
    } else {
      KeyLoopEnds(hz, n, es[1..]);
    }
  }

  lemma FirstStep(m: State, hz: Frequency, e: Event)
    requires Inv(hz, m) && m.pc == HittingKeys && e.Main?
    ensures var h := HitOnce(Hitting(m.letters, m.keys));
            GameStep(hz, m, e) ==
              if Target(m.letters, m.keys) == -1 then m.(interrupts := true, pc := Testing)
              else m.(interrupts := false, letters := h.letters, keys := h.keys)
  {
    InvLetters(hz, m);
    hide Inv, HitOnce, Target;
  }

  /** One event in the uninterruptible part of the key loop. */
  lemma KeyLoopStep(hz: Frequency, s: State, e: Event)
    requires LettersOk(s.letters) && |s.history.births| == |s.letters|
    requires s.pc == HittingKeys && !s.interrupts
    ensures var h := HitOnce(Hitting(s.letters, s.keys));
            GameStep(hz, s, e) ==
              if !e.Main? then s
              else if Target(s.letters, s.keys) == -1 then s.(interrupts := true, pc := Testing)
              else s.(letters := h.letters, keys := h.keys)
  {
  }

  lemma InvLetters(hz: Frequency, s: State)
    requires Inv(hz, s)
    ensures LettersOk(s.letters)
  {
    forall i | 0 <= i < |s.letters|
      ensures LetterOk(s.letters[i])
    {
      assert LetterAges(s.letters[i], Age(s.history.births[i], UpdatedUpTo(s), UpdatePeriod(hz)));
    }
  }

  lemma {:induction false} LastMainOnly(es: seq<Event>)
    requires es != [] && es[0].Main? && es[|es| - 1].Main? && MainSteps(es) == 1
    ensures |es| == 1
  {
    if |es| > 1 {
      LastMainCounts(es[1..]);
    }
  }

  lemma {:induction false} LastMainCounts(es: seq<Event>)
    requires es != [] && es[|es| - 1].Main?
    ensures MainSteps(es) >= 1
  {
    if |es| > 1 {
      LastMainCounts(es[1..]);
    }
  }

  /** Main steps left until the loop waits again, once the keys have been handled. */
  function WorkLeft(s: State): int {
    var d := s.target - s.now;
    match s.pc
    case Testing => 5 * d + 2
    case Creating => 5 * d + 1
    case Updating => 5 * d
    case Flagging => 5 * d - 1
    case Advancing => 5 * d - 2
    case Drawing => 1
    case _ => 0
  }

  /** The catch-up loop always catches up: every main step uses up one unit of work, and interrupts
      add none, since the target is fixed. */
  lemma CatchUpProgress(hz: Frequency, s: State, e: Event)
    requires Inv(hz, s) && s.pc in {Testing, Creating, Updating, Flagging, Advancing, Drawing}
    ensures WorkLeft(s) > 0
    ensures WorkLeft(GameStep(hz, s, e)) == WorkLeft(s) - if e.Main? then 1 else 0
    ensures WorkLeft(s) == 1 && e.Main? ==> GameStep(hz, s, e).pc == Waiting
  {
    StepKeeps(hz, s, e);
    hide EveryPeriod, LettersAge, BirthsOk, RedrawOk, DrawsOk, Survivors, SurvivingBirths, Hits, Misses, Released, Pressed, HitKey, Check;
  }

  /** An upper bound for the main steps until the loop waits again, from any state. */
  function WorkBound(s: State): int {
    match s.pc
    case Waiting => 0
    case Checking => if s.now == s.tick then 1 else 5 * (s.tick - s.now) + 30
    case HittingKeys => (if s.interrupts then 26 else PressedCount(s.keys)) + 5 * (s.target - s.now) + 3
    case _ => WorkLeft(s)
  }

  /** The tick the loop will have caught up with when it waits again. */
  function Goal(s: State): nat {
    match s.pc
    case Waiting => s.now
    case Checking => s.tick
    case _ => s.target
  }

  /** A call of update_keypress that hits a letter leaves one pressed key less. */
  lemma KeyWorkFalls(hz: Frequency, s: State, e: Event)
    requires LettersOk(s.letters) && |s.history.births| == |s.letters| && s.pc == HittingKeys && s.now <= s.target
    ensures var r := GameStep(hz, s, e);
            && 0 < WorkBound(s) && 0 <= WorkBound(r)
            && WorkBound(r) <= WorkBound(s) - (if e.Main? then 1 else 0)
            && Goal(r) == Goal(s)
  {
    if Target(s.letters, s.keys) != -1 {
      HitOnceReleases(Hitting(s.letters, s.keys));
    }
    hide Target, PressedCount, Turned, Released, Pressed;
  }

  lemma OtherWorkFalls(hz: Frequency, s: State, e: Event)
    requires ClockOk(s) && |s.letters| < Effect.POOL_SIZE && |s.history.births| == |s.letters|
    requires s.pc !in {Waiting, HittingKeys}
    ensures var r := GameStep(hz, s, e);
            && 0 < WorkBound(s) && 0 <= WorkBound(r)
            && WorkBound(r) <= WorkBound(s) - (if e.Main? then 1 else 0)
            && Goal(r) == Goal(s)
  {
    hide Target, PressedCount, Turned, Released, Pressed, Survivors, Hits, Misses, SurvivingBirths;
  }

  /** Unless it waits, every main step lowers the bound, and no interrupt raises it. */
  lemma WorkFalls(hz: Frequency, s: State, e: Event)
    requires Inv(hz, s) && s.pc != Waiting
    ensures var r := GameStep(hz, s, e);
            && 0 < WorkBound(s) && 0 <= WorkBound(r)
            && WorkBound(r) <= WorkBound(s) - (if e.Main? then 1 else 0)
            && Goal(r) == Goal(s)
  {
    if s.pc == HittingKeys {
      InvLetters(hz, s);
      hide GameStep;
      KeyWorkFalls(hz, s, e);
    } else {
      FewLetters(hz, s);
      hide GameStep;
      OtherWorkFalls(hz, s, e);
    }
  }

  /** Continuing one event further. */
  lemma RunFromFirst(hz: Frequency, s: State, es: seq<Event>, k: nat)
    requires |s.history.births| == |s.letters| && es != [] && k < |es|
    ensures RunFrom(hz, s, es[..k + 1]) == RunFrom(hz, GameStep(hz, s, es[0]), es[1..][..k])
  {
    assert es[..k + 1][1..] == es[1..][..k];
  }

  /** Whatever the events, after as many main steps as the bound says the loop has waited, having
      caught up with its goal. */
  lemma {:induction false} WaitsFrom(hz: Frequency, s: State, es: seq<Event>)
    requires Inv(hz, s) && MainSteps(es) >= WorkBound(s)
    ensures exists k :: 0 <= k <= |es| && RunFrom(hz, s, es[..k]).pc == Waiting && RunFrom(hz, s, es[..k]).now == Goal(s)
    decreases |es|
  {
    if s.pc == Waiting {
      assert RunFrom(hz, s, es[..0]) == s;
    } else {
      hide Inv, GameStep, WorkBound, Goal;
      WorkFalls(hz, s, Timer);
      assert es != [];
      WorkFalls(hz, s, es[0]);
      var r := GameStep(hz, s, es[0]);
      StepKeeps(hz, s, es[0]);
      WaitsFrom(hz, r, es[1..]);
      var k :| 0 <= k <= |es[1..]| && RunFrom(hz, r, es[1..][..k]).pc == Waiting && RunFrom(hz, r, es[1..][..k]).now == Goal(r);
      RunFromFirst(hz, s, es, k);
    }
  }

  lemma {:induction false} RunSplits(hz: Frequency, es: seq<Event>, more: seq<Event>)
    ensures Run(hz, es + more) == RunFrom(hz, Run(hz, es), more)
    decreases |more|
  {
    hide GameStep;
    if more == [] {
      assert es + more == es;
    } else {
      assert (es + [more[0]])[..|es|] == es;
      assert (es + [more[0]]) + more[1..] == es + more;
      RunSplits(hz, es + [more[0]], more[1..]);
    }
  }

  lemma BoundIsSmall(hz: Frequency, s: State)
    requires Inv(hz, s)
    ensures WorkBound(s) <= 5 * (Goal(s) - s.now) + 30
  {
    assert |s.keys| == 26;
    hide EveryPeriod, LettersAge, BirthsOk, RedrawOk, DrawsOk, PressedCount;
  }

  /** From every state the program can reach, and whatever events follow, the loop waits again
      within a bounded number of main steps, and has then simulated every tick up to its goal. */
  lemma LoopWaitsAgain(hz: Frequency, es: seq<Event>, more: seq<Event>)
    requires MainSteps(more) >= WorkBound(Run(hz, es))
    ensures WorkBound(Run(hz, es)) <= 5 * (Goal(Run(hz, es)) - Run(hz, es).now) + 30
    ensures exists k :: 0 <= k <= |more| && Run(hz, es + more[..k]).pc == Waiting
                        && Run(hz, es + more[..k]).now == Goal(Run(hz, es))
  {
    var s := Run(hz, es);
    RunKeeps(hz, es);
    BoundIsSmall(hz, s);
    WaitsFrom(hz, s, more);
    var k :| 0 <= k <= |more| && RunFrom(hz, s, more[..k]).pc == Waiting && RunFrom(hz, s, more[..k]).now == Goal(s);
    RunSplits(hz, es, more[..k]);
  }

  // ----- every tick is simulated -----

  /** An upper bound for the main steps until tick t is reached, which may have come after the target
      of the current catch-up was fixed: then one more round is needed. */
  function StepsTo(s: State, t: nat): int {
    var d := 5 * (t - s.now) + if t > s.target then 31 else 0;
    if t <= s.now then 0
    else match s.pc
      case Waiting => 5 * (t - s.now) + 29
      case Checking => 5 * (t - s.now) + 28
      case HittingKeys => (if s.interrupts then 26 else PressedCount(s.keys)) + 1 + d
      case Testing => d
      case Creating => d - 1
      case Updating => d - 2
      case Flagging => d - 3
      case Advancing => d - 4
      case Drawing => 5 * (t - s.now) + 30
      case Panicked => 0
  }

  /** Every main step brings the program nearer to a tick that has come, and no interrupt takes it away. */
  ghost predicate Nearer(s: State, r: State, e: Event, t: nat) {
    && 0 < StepsTo(s, t) && 0 <= StepsTo(r, t)
    && StepsTo(r, t) <= StepsTo(s, t) - (if e.Main? then 1 else 0)
    && t <= r.tick
  }

  lemma KeyStepNearer(hz: Frequency, s: State, e: Event, t: nat)
    requires LettersOk(s.letters) && |s.history.births| == |s.letters| && s.pc == HittingKeys && s.now < t <= s.tick
    ensures Nearer(s, GameStep(hz, s, e), e, t)
  {
    if Target(s.letters, s.keys) != -1 {
      HitOnceReleases(Hitting(s.letters, s.keys));
    }
    hide Target, PressedCount, Turned, Released, Pressed;
  }

  lemma OtherStepNearer(hz: Frequency, s: State, e: Event, t: nat)
    requires ClockOk(s) && |s.letters| < Effect.POOL_SIZE && |s.history.births| == |s.letters|
    requires s.pc != HittingKeys && s.now < t <= s.tick
    ensures Nearer(s, GameStep(hz, s, e), e, t)
  {
    hide Target, PressedCount, Turned, Released, Pressed, Survivors, Hits, Misses, SurvivingBirths;
  }

  lemma StepNearer(hz: Frequency, s: State, e: Event, t: nat)
    requires Inv(hz, s) && s.now < t <= s.tick
    ensures Nearer(s, GameStep(hz, s, e), e, t)
  {
    hide GameStep, Nearer;
    if s.pc == HittingKeys {
      InvLetters(hz, s);
      KeyStepNearer(hz, s, e, t);
    } else {
      FewLetters(hz, s);
      OtherStepNearer(hz, s, e, t);
    }
  }

  lemma MainStepsFirst(es: seq<Event>, k: nat)
    requires es != [] && k < |es|
    ensures MainSteps(es[..k + 1]) == (if es[0].Main? then 1 else 0) + MainSteps(es[1..][..k])
  {
    assert es[..k + 1][1..] == es[1..][..k];
  }

  /** The k-th state from s on has reached tick t, within the given number of main steps. */
  ghost predicate ReachedAfter(hz: Frequency, s: State, es: seq<Event>, k: int, t: nat, steps: int)
    requires |s.history.births| == |s.letters|
  {
    0 <= k <= |es| && RunFrom(hz, s, es[..k]).now >= t && MainSteps(es[..k]) <= steps
  }

  lemma {:induction false} ReachesFrom(hz: Frequency, s: State, es: seq<Event>, t: nat)
    requires Inv(hz, s) && t <= s.tick && MainSteps(es) >= StepsTo(s, t)
    ensures exists k :: ReachedAfter(hz, s, es, k, t, StepsTo(s, t))
    decreases |es|
  {
    if t <= s.now {
      assert es[..0] == [];
      assert ReachedAfter(hz, s, es, 0, t, StepsTo(s, t));
    } else {
      hide Inv, GameStep, StepsTo;
      StepNearer(hz, s, Timer, t);
      assert es != [];
      StepNearer(hz, s, es[0], t);
      var r := GameStep(hz, s, es[0]);
      StepKeeps(hz, s, es[0]);
      ReachesFrom(hz, r, es[1..], t);
      var k :| ReachedAfter(hz, r, es[1..], k, t, StepsTo(r, t));
      RunFromFirst(hz, s, es, k);
      MainStepsFirst(es, k);
      assert ReachedAfter(hz, s, es, k + 1, t, StepsTo(s, t));
    }
  }

  lemma StepsToIsSmall(hz: Frequency, s: State)
    requires Inv(hz, s)
    ensures StepsTo(s, s.tick) <= 5 * (s.tick - s.now) + 58
  {
    assert |s.keys| == 26;
    hide EveryPeriod, LettersAge, BirthsOk, RedrawOk, DrawsOk, PressedCount;
  }

  /** No tick is left behind: from every state the program can reach, and whatever events follow,
      every tick that has come is simulated within 5 main steps per tick still to be simulated and 58
      more.  That covers the ticks that came during the current catch-up. */
  lemma EveryTickSimulated(hz: Frequency, es: seq<Event>, more: seq<Event>)
    requires var s := Run(hz, es); MainSteps(more) >= 5 * (s.tick - s.now) + 58
    ensures var s := Run(hz, es);
            exists k :: 0 <= k <= |more|
                        && MainSteps(more[..k]) <= 5 * (s.tick - s.now) + 58
                        && s.tick <= Run(hz, es + more[..k]).now
  {
    var s := Run(hz, es);
    RunKeeps(hz, es);
    StepsToIsSmall(hz, s);
    hide Inv, StepsTo;
    ReachesFrom(hz, s, more, s.tick);
    var k :| ReachedAfter(hz, s, more, k, s.tick, StepsTo(s, s.tick));
    RunSplits(hz, es, more[..k]);
  }

  lemma RunNext(hz: Frequency, es: seq<Event>, i: nat)
    requires i < |es|
    ensures Run(hz, es[..i + 1]) == GameStep(hz, Run(hz, es[..i]), es[i])
  {
    assert es[..i + 1][..i] == es[..i];
  }

  // ----- the program itself -----

  /** The main loop over the real list, pool and key flags. */
  class MainLoop {
    const hz: Frequency
    const game: Effect.TypingGame
    var pc: PC
    var tick: nat
    var now: nat
    var target: nat
    var redraw: bool
    var numDraw: nat
    var fps: nat
    ghost var history: History

    constructor (hz: Frequency)
      ensures Valid() && View() == INITIAL && this.hz == hz
      ensures pc == Waiting && tick == 0 && now == 0 && numDraw == 0 && fps == 0
      ensures game.interrupts && game.hit == 0 && game.miss == 0 && game.Letters() == [] && game.Flags() == seq(26, _ => false)
      ensures fresh(game) && fresh(game.fly) && fresh(game.fly.pool)
      ensures fresh(game.keys) && fresh(game.keys.letterPressed)
    {
      this.hz := hz;
      game := new Effect.TypingGame();
      pc, tick, now, target, redraw, numDraw, fps := Waiting, 0, 0, 0, false, 0, 0;
      history := History([], [], [], [], 0, []);
    }

    ghost predicate Valid()
      reads this, game, game.fly, game.fly.pool, game.keys, game.keys.letterPressed
    {
      && game.Valid() && game.hit >= 0 && game.miss >= 0 && |history.births| == |game.live|
      && (history.creations != [] ==> game.Started())
    }

    /** The state of the program as a state of the machine. */
    ghost function View(): (s: State)
      requires Valid()
      reads this, game, game.fly, game.fly.pool, game.keys, game.keys.letterPressed
      ensures |s.history.births| == |s.letters|
    {
      State(pc, game.interrupts, tick, now, target, redraw, numDraw, fps,
            game.Letters(), game.Flags(), game.hit, game.miss, history)
    }

    /** Lines 61-64.  The allocation cannot fail. */
    method CreateWhenDue(ry: nat, rv: nat, rt: nat)
      requires Valid() && pc == Creating && Inv(hz, View())
      modifies this, game, game.fly, game.fly.pool, game.keys.letterPressed
      ensures Valid() && View() == Create(hz, old(View()), ry, rv, rt)
    {
      FewLetters(hz, View());
      hide Inv;
      if now % (hz / 3) == 0 {
        var ok := game.CreateNewLetter(ry, rv, rt);
        assert ok;
        history := history.(births := [now] + history.births, creations := history.creations + [now]);
      }
      pc := Updating;
    }

    /** Lines 65-68. */
    method UpdateWhenDue()
      requires Valid() && pc == Updating
      modifies this, game, game.fly, game.fly.pool
      ensures Valid() && View() == Update(hz, old(View()))
    {
      hide Survivors, SurvivingBirths, Hits, Misses, ComeFrom, LeavingTop, LeavingBottom;
      if now % (hz / 100) == 0 {
        ghost var births := SurvivingBirths(game.Letters(), history.births);
        game.UpdateLetterPos();
        history := history.(births := births, updates := history.updates + [now]);
      }
      pc := Flagging;
    }

    /** Lines 69-82. */
    method SetFlags()
      requires Valid() && pc == Flagging
      modifies this
      ensures Valid() && View() == Flag(hz, old(View()))
    {
      if now % (hz / 30) == 0 {
        redraw := true;
      }
      if now % (hz / 2) == 0 {
        var nowFps := numDraw * 2 + 1;
        if nowFps > 30 {
          nowFps := 30;
        }
        fps := nowFps;
        numDraw := 0;
      }
      pc := Advancing;
    }

    /** Line 54: one call of update_keypress. */
    method HitWhenPressed()
      requires Valid() && pc == HittingKeys
      modifies this, game, game.fly.pool, game.keys.letterPressed
      ensures Valid() && View() == HitKey(old(View()))
    {
      var found := game.UpdateKeypress();
      if !found {
        pc := Testing;
      }
    }

    /** Lines 43-51. */
    method CheckClock()
      requires Valid() && pc == Checking && now <= tick
      modifies this, game`interrupts
      ensures Valid() && View() == Check(old(View()))
    {
      if now == tick {
        game.interrupts := true;
        pc := Waiting;
      } else {
        target := tick;
        game.interrupts := true;
        redraw := false;
        history := history.(started := now);
        pc := HittingKeys;
      }
    }

    /** The steps that touch no shared data structure. */
    method LocalStep()
      requires Valid() && pc in {Waiting, Testing, Advancing, Drawing}
      modifies this, game`interrupts
      ensures Valid() && View() == MainStep(hz, old(View()), 0, 0, 0)
    {
      hide Check, HitKey, Create, Update, Flag;
      if pc == Waiting {
        game.interrupts := false;
        pc := Checking;
      } else if pc == Testing {
        pc := if now < target then Creating else Drawing;
      } else if pc == Advancing {
        history := history.(simulated := history.simulated + [now]);
        now := now + 1;
        pc := Testing;
      } else {
        if redraw {
          numDraw := numDraw + 1;
          history := history.(draws := history.draws + [now]);
        }
        pc := Waiting;
      }
    }

    method ProgramStep(ry: nat, rv: nat, rt: nat)
      requires Valid() && Inv(hz, View())
      modifies this, game, game.fly, game.fly.pool, game.keys.letterPressed
      ensures Valid() && View() == MainStep(hz, old(View()), ry, rv, rt)
    {
      ghost var s := View();
      assert now <= tick && pc != Panicked;
      if pc == Creating {
        CreateWhenDue(ry, rv, rt);
      } else if pc == Updating {
        UpdateWhenDue();
      } else if pc == HittingKeys {
        HitWhenPressed();
      } else if pc == Checking {
        CheckClock();
      } else if pc == Flagging {
        SetFlags();
      } else {
        LocalStep();
      }
    }

    /** One event, on the real data structures: exactly a step of the machine. */
    method Step(e: Event)
      requires Valid() && Inv(hz, View())
      modifies this, game, game.fly, game.fly.pool, game.keys, game.keys.letterPressed
      ensures Valid() && View() == GameStep(hz, old(View()), e) && Inv(hz, View())
    {
      StepKeeps(hz, View(), e);
      hide Inv, MainStep;
      match e {
        case Timer =>
          if game.interrupts {
            tick := tick + 1;
          }
        case Key(scanCode) =>
          if game.interrupts {
            game.keys.KeyboardEvent(scanCode);
          }
        case Main(ry, rv, rt) => ProgramStep(ry, rv, rt);
      }
    }

    /** Any sequence of events from the initial state: the program does what the machine does, and
        no assertion in it can fail. */
    method RunEvents(es: seq<Event>)
      requires Valid() && View() == INITIAL
      modifies this, game, game.fly, game.fly.pool, game.keys, game.keys.letterPressed
      ensures Valid() && View() == Run(hz, es)
    {
      RunKeeps(hz, []);
      assert es[..0] == [] && Run(hz, es[..0]) == INITIAL;
      hide Run, GameStep, Inv;
      var i := 0;
      while i < |es|
        invariant 0 <= i <= |es|
        invariant Valid() && View() == Run(hz, es[..i]) && Inv(hz, View())
      {
        RunNext(hz, es, i);
        Step(es[i]);
        i := i + 1;
      }
      assert es[..i] == es;
    }
  }
}
