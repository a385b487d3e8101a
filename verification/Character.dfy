/** The player's character: registers clocked once a frame, next-state logic in 10-bit arithmetic. */
module Character {

  type Word = x: int | 0 <= x < 1024 witness 0

  function Add(a: Word, b: Word): (r: Word)
    ensures r == a + b || r == a + b - 1024
  {
    (a + b) % 1024
  }

  function Sub(a: Word, b: Word): (r: Word)
    ensures r == a - b || r == a - b + 1024
  {
    (a - b) % 1024
  }

  /** ~w + 1 */
  function Negated(w: Word): (r: Word)
    ensures Add(w, r) == 0
  {
    (1023 - w + 1) % 1024
  }

  const H_MOTION: Word := 5
  const V_MOTION_0: Word := 16
  const V_MOTION_1: Word := 10
  const ACCELERATION: Word := 2
  const WIDTH: Word := 32
  const HEIGHT: Word := 32
  const X_MAX: Word := 607
  const Y_MAX: Word := 447
  const FLOOR: Word := 479

  datatype State = Idle | Run1 | Run2 | Jump1 | Jump2 | Fall1 | Fall2 | Dead

  datatype Inputs = Inputs(reset: bool, resetX: Word, resetY: Word, w: bool, a: bool, d: bool,
                           hitY: bool, hitTop: bool, kidY: Word, kidTop: Word, ground: bool, collide: bool)

  datatype Regs = Regs(state: State, faceRight: bool, x: Word, y: Word, savedX: Word, savedY: Word,
                       dx: Word, dy: Word, jumped: bool)

  /** The bottom of the character is at the bottom of the screen. */
  predicate OnFloor(y: Word) { Add(y, HEIGHT) >= FLOOR }

  predicate Grounded(s: State) { s.Idle? || s.Run1? || s.Run2? }

  predicate Falling(s: State) { s.Fall1? || s.Fall2? }

  /** What ends a fall. */
  predicate Lands(r: Regs, i: Inputs) { i.hitY || i.ground || OnFloor(r.y) }

  // ---------------------------------------------------------------- always_comb

  function NextState(r: Regs, i: Inputs): State {
    match r.state
    case Idle =>
      if i.collide then Dead
      else if !i.ground && !OnFloor(r.y) then Fall1
      else if i.w then Jump1
      else if i.a || i.d then Run1
      else Idle
    case Run1 =>
      if i.collide then Dead
      else if !i.ground && !OnFloor(r.y) then Fall1
      else if i.w then Jump1
      else if i.a || i.d then Run2
      else Idle
    case Run2 =>
      if i.collide then Dead
      else if !i.ground && !OnFloor(r.y) then Fall1
      else if i.w then Jump1
      else if i.a || i.d then Run1
      else Idle
    case Jump1 =>
      if i.collide then Dead else if r.dy == 0 then Fall1 else Jump1
    case Jump2 =>
      if i.collide then Dead else if r.dy == 0 then Fall1 else Jump2
    case Fall1 =>
      if i.collide then Dead else if Lands(r, i) then Idle else if i.w && !r.jumped then Jump1 else Fall2
    case Fall2 =>
      if i.collide then Dead else if Lands(r, i) then Idle else if i.w && !r.jumped then Jump1 else Fall1
    case Dead => Dead
  }

  /** W is read as a jump: it silences A and D. */
  predicate Springs(r: Regs, i: Inputs) {
    (Grounded(r.state) && i.w) || (Falling(r.state) && !Lands(r, i) && i.w && !r.jumped)
  }

  /** A and D are read in this frame. */
  predicate Steers(r: Regs, i: Inputs) {
    !r.state.Dead? && !Springs(r, i) && !(Falling(r.state) && Lands(r, i))
  }

  function NextFace(r: Regs, i: Inputs): bool {
    if Steers(r, i) && i.a then false else if Steers(r, i) && i.d then true else r.faceRight
  }

  function NextDx(r: Regs, i: Inputs): Word {
    if r.state.Idle? || !Steers(r, i) then 0
    else if i.a then Negated(H_MOTION)
    else if i.d then H_MOTION
    else 0
  }

  function NextDy(r: Regs, i: Inputs): Word {
    match r.state
    case Idle | Run1 | Run2 => if i.w then Negated(V_MOTION_0) else 0
    case Jump1 | Jump2 => Add(r.dy, ACCELERATION)
    case Fall1 | Fall2 =>
      if Lands(r, i) then 0 else if i.w && !r.jumped then Negated(V_MOTION_1) else Add(r.dy, ACCELERATION)
    case Dead => 0
  }

  function NextJumped(r: Regs, i: Inputs): bool {
    if Grounded(r.state) then false else r.jumped || (Falling(r.state) && Springs(r, i))
  }

  function NextX(r: Regs): Word { Add(r.x, r.dx) }

  function NextY(r: Regs, i: Inputs): Word {
    if i.hitY then i.kidY else if i.hitTop then i.kidTop else Add(r.y, r.dy)
  }

  /** One clock edge. A position that would leave the screen is kept, even on reset. */
  function Next(r: Regs, i: Inputs): Regs {
    var x := if NextX(r) > X_MAX then r.x else if i.reset then i.resetX else NextX(r);
    var y := if NextY(r, i) > Y_MAX then r.y else if i.reset then i.resetY else NextY(r, i);
    if i.reset then Regs(Idle, true, x, y, i.resetX, i.resetY, 0, 0, false)
    else Regs(NextState(r, i), NextFace(r, i), x, y, r.savedX, r.savedY, NextDx(r, i), NextDy(r, i), NextJumped(r, i))
  }

  class Kid {
    var state: State
    var direction: bool
    var positionX: Word
    var positionY: Word
    var savedX: Word
    var savedY: Word
    var movementX: Word
    var movementY: Word
    var jumpCounter: bool

    ghost function Now(): Regs
      reads this
    {
      Regs(state, direction, positionX, positionY, savedX, savedY, movementX, movementY, jumpCounter)
    }

    lemma AtNow()
      ensures var r := Now(); r.state == state && r.faceRight == direction && r.y == positionY && r.dy == movementY && r.jumped == jumpCounter
    {
    }

    /** The keys A and D in a state that reads them. */
    method Steer(i: Inputs, moves: bool) returns (directionIn: bool, movementXIn: Word)
      ensures directionIn == (if i.a then false else if i.d then true else direction)
      ensures movementXIn == (if !moves then 0 else if i.a then Negated(H_MOTION) else if i.d then H_MOTION else 0)
    {
      directionIn, movementXIn := direction, 0;
      if i.a {
        directionIn := false;
        movementXIn := if moves then Negated(H_MOTION) else 0;
      } else if i.d {
        directionIn := true;
        movementXIn := if moves then H_MOTION else 0;
      }
    }

    /** The second half of the next-state logic: facing, speed and the jump flag. */
    method NextMotion(i: Inputs) returns (directionIn: bool, movementXIn: Word, movementYIn: Word, jumpCounterIn: bool)
      ensures directionIn == NextFace(Now(), i) && movementXIn == NextDx(Now(), i)
      ensures movementYIn == NextDy(Now(), i) && jumpCounterIn == NextJumped(Now(), i)
    {
      hide Add, Negated, OnFloor, Now;
      AtNow();
      directionIn, movementXIn, movementYIn, jumpCounterIn := direction, 0, 0, jumpCounter;
      match state {
        case Idle | Run1 | Run2 =>
          jumpCounterIn := false;
          if i.w {
            movementYIn := Negated(V_MOTION_0);
          } else {
            directionIn, movementXIn := Steer(i, !state.Idle?);
          }
        case Jump1 | Jump2 =>
          movementYIn := Add(movementY, ACCELERATION);
          directionIn, movementXIn := Steer(i, true);
        case Fall1 | Fall2 =>
          movementYIn := Add(movementY, ACCELERATION);
          if i.hitY || i.ground || OnFloor(positionY) {
            movementYIn := 0;
          } else if i.w && !jumpCounter {
            movementYIn := Negated(V_MOTION_1);
            jumpCounterIn := true;
          } else {
            directionIn, movementXIn := Steer(i, true);
          }
        case Dead =>
      }
    }

    method ClockEdge(i: Inputs)
      modifies this
      ensures Now() == Next(old(Now()), i)
    {
      hide Add, NextState, NextFace, NextDx, NextDy, NextJumped;
      var nextState := NextState(Regs(state, direction, positionX, positionY, savedX, savedY, movementX, movementY, jumpCounter), i);
      var positionXIn, positionYIn := Add(positionX, movementX), Add(positionY, movementY);
      if i.hitY {
        positionYIn := i.kidY;
      } else if i.hitTop {
        positionYIn := i.kidTop;
      }
      var directionIn, movementXIn, movementYIn, jumpCounterIn := NextMotion(i);
      var x, y := positionX, positionY;
      if i.reset {
        state, direction, positionX, positionY := Idle, true, i.resetX, i.resetY;
        savedX, savedY, movementX, movementY, jumpCounter := i.resetX, i.resetY, 0, 0, false;
      } else {
        state, direction, positionX, positionY := nextState, directionIn, positionXIn, positionYIn;
        movementX, movementY, jumpCounter := movementXIn, movementYIn, jumpCounterIn;
      }
      if positionXIn > X_MAX {
        positionX := x;
      }
      if positionYIn > Y_MAX {
        positionY := y;
      }
    }
  }

  // ---------------------------------------------------------------- runs

  /** The registers frame by frame, first those the run starts from. */
  function Frames(r: Regs, inputs: seq<Inputs>): (rs: seq<Regs>)
    ensures |rs| == |inputs| + 1 && rs[0] == r
    decreases |inputs|
  {
    if inputs == [] then [r] else [r] + Frames(Next(r, inputs[0]), inputs[1..])
  }

  lemma {:induction false} FrameStep(r: Regs, inputs: seq<Inputs>, k: nat)
    requires k < |inputs|
    ensures Frames(r, inputs)[k + 1] == Next(Frames(r, inputs)[k], inputs[k])
    decreases k
  {
    if k > 0 { FrameStep(Next(r, inputs[0]), inputs[1..], k - 1); }
  }

  /** A 10-bit speed read as a signed number. */
  function Signed(w: Word): int { if w < 512 then w else w - 1024 }

  /** The frames a jump has still to go before its speed is zero. */
  predicate Rising(r: Regs, m: nat) { r.state.Jump1? && m <= 8 && Signed(r.dy) == -2 * m }

  predicate Inv(r: Regs) {
    && !r.state.Jump2?
    && (r.state.Jump1? ==> -16 <= Signed(r.dy) <= 0 && Signed(r.dy) % 2 == 0)
  }

  lemma StepKeepsInv(r: Regs, i: Inputs)
    requires Inv(r)
    ensures Inv(Next(r, i))
  {
  }

  lemma {:induction false} RunKeepsInv(r: Regs, inputs: seq<Inputs>, k: nat)
    requires Inv(r) && k <= |inputs|
    ensures Inv(Frames(r, inputs)[k])
    decreases k
  {
    if k > 0 {
      StepKeepsInv(r, inputs[0]);
      RunKeepsInv(Next(r, inputs[0]), inputs[1..], k - 1);
    }
  }

  /** After a reset, whatever the registers held before it, jump_2 is never entered, and in jump_1
      the vertical speed is even and between -16 and 0. */
  lemma SpeedInJump(r: Regs, inputs: seq<Inputs>, k: nat)
    requires 0 < k <= |inputs| && inputs[0].reset
    ensures var now := Frames(r, inputs)[k];
            && !now.state.Jump2?
            && (now.state.Jump1? ==> -16 <= Signed(now.dy) <= 0 && Signed(now.dy) % 2 == 0)
  {
    RunKeepsInv(Next(r, inputs[0]), inputs[1..], k - 1);
  }

  predicate Undisturbed(inputs: seq<Inputs>) {
    forall k :: 0 <= k < |inputs| ==> !inputs[k].reset && !inputs[k].collide
  }

  predicate Unhit(inputs: seq<Inputs>) {
    forall k :: 0 <= k < |inputs| ==> !inputs[k].hitY && !inputs[k].hitTop
  }

  /** What is left of a jump: 2 + 4 + ... + 2m. */
  function Rise(m: nat): (h: nat)
    ensures h == m * (m + 1)
  {
    if m == 0 then 0 else Rise(m - 1) + 2 * m
  }

  /** Left alone, a jump with speed -2m lasts m more frames, two slower each frame, and then falls,
      whatever the keys. */
  lemma {:induction false} JumpLasts(r: Regs, inputs: seq<Inputs>, m: nat, k: nat)
    requires Rising(r, m) && |inputs| == m + 1 && k <= m && Undisturbed(inputs)
    ensures Rising(Frames(r, inputs)[k], m - k)
    ensures var last := Frames(r, inputs)[m + 1]; last.state.Fall1? && last.dy == ACCELERATION
    decreases m
  {
    if m > 0 {
      JumpLasts(Next(r, inputs[0]), inputs[1..], m - 1, if k == 0 then 0 else k - 1);
    }
  }

  lemma RisingStep(r: Regs, i: Inputs, m: nat)
    requires Rising(r, m) && !i.reset && !i.collide && !i.hitY && !i.hitTop && 2 * m <= r.y <= Y_MAX
    ensures var next := Next(r, i); next.y == r.y - 2 * m && if m > 0 then Rising(next, m - 1) else next.state.Fall1?
  {
  }

  /** If nothing is hit meanwhile and the top of the screen is far enough, such a jump rises
      m * (m + 1) pixels and no more. */
  lemma {:induction false} JumpHeight(r: Regs, inputs: seq<Inputs>, m: nat, k: nat)
    requires Rising(r, m) && |inputs| == m + 1 && k <= m + 1 && Undisturbed(inputs) && Unhit(inputs)
    requires Rise(m) <= r.y <= Y_MAX
    ensures Frames(r, inputs)[k].y == r.y - Rise(m) + if k <= m then Rise(m - k) else 0
    decreases m
  {
    hide Next, Rising;
    RisingStep(r, inputs[0], m);
    if m > 0 && k > 0 {
      JumpHeight(Next(r, inputs[0]), inputs[1..], m - 1, k - 1);
    }
  }

  /** A jump from the ground rises for nine frames, one from the air for six. */
  lemma JumpStarts(r: Regs, i: Inputs)
    requires !r.state.Jump1? && Next(r, i).state.Jump1?
    ensures (Grounded(r.state) && Rising(Next(r, i), 8)) || (Falling(r.state) && Rising(Next(r, i), 5))
    ensures Grounded(r.state) ==> !Next(r, i).jumped
    ensures Falling(r.state) ==> !r.jumped && Next(r, i).jumped
  {
  }

  /** No jump is endless: after a reset, no ten frames in a row are spent in jump_1. */
  lemma EveryJumpEnds(r: Regs, inputs: seq<Inputs>, k: nat)
    requires 0 < k && k + 9 <= |inputs| && inputs[0].reset
    ensures exists j :: k <= j <= k + 9 && !Frames(r, inputs)[j].state.Jump1?
  {
    var rs := Frames(r, inputs);
    if rs[k].state.Jump1? {
      RunKeepsInv(Next(r, inputs[0]), inputs[1..], k - 1);
      JumpLeft(r, inputs, k, -Signed(rs[k].dy) / 2);
    }
  }

  lemma {:induction false} JumpLeft(r: Regs, inputs: seq<Inputs>, k: nat, m: nat)
    requires k + m + 1 <= |inputs| && Rising(Frames(r, inputs)[k], m)
    ensures exists j :: k <= j <= k + m + 1 && !Frames(r, inputs)[j].state.Jump1?
    decreases m
  {
    FrameStep(r, inputs, k);
    if m > 0 && Frames(r, inputs)[k + 1].state.Jump1? {
      JumpLeft(r, inputs, k + 1, m - 1);
    }
  }

  // ---------------------------------------------------------------- jumps between groundings

  /** Whether frame k enters jump_1, from the ground or from the air. */
  predicate Enters(rs: seq<Regs>, k: nat, fromGround: bool)
    requires 0 < k < |rs|
  {
    rs[k].state.Jump1? && !rs[k - 1].state.Jump1? && (fromGround <==> Grounded(rs[k - 1].state))
  }

  /** How often jump_1 is entered after frame `low` up to frame `high`. */
  function Entries(rs: seq<Regs>, low: nat, high: nat, fromGround: bool): nat
    requires low <= high < |rs|
    decreases high - low
  {
    if low == high then 0
    else Entries(rs, low, high - 1, fromGround) + if Enters(rs, high, fromGround) then 1 else 0
  }

  predicate Airborne(rs: seq<Regs>, low: nat, high: nat)
    requires low <= high < |rs|
  {
    forall k :: low < k <= high ==> !Grounded(rs[k].state)
  }

  predicate IsRun(rs: seq<Regs>, inputs: seq<Inputs>) {
    |rs| == |inputs| + 1 && forall k {:trigger inputs[k]} :: 0 <= k < |inputs| ==> rs[k + 1] == Next(rs[k], inputs[k])
  }

  lemma {:induction false} EntriesBound(rs: seq<Regs>, inputs: seq<Inputs>, low: nat, high: nat)
    requires IsRun(rs, inputs) && low <= high < |rs| && Airborne(rs, low, high)
    ensures Entries(rs, low, high, true) <= (if low < high && Grounded(rs[low].state) then 1 else 0)
    ensures Entries(rs, low, high, false) <= (if rs[high].jumped && (low < high || !Grounded(rs[low].state)) then 1 else 0)
    decreases high - low
  {
    if low < high {
      EntriesBound(rs, inputs, low, high - 1);
      var _ := inputs[high - 1];
      if rs[high].state.Jump1? && !rs[high - 1].state.Jump1? {
        JumpStarts(rs[high - 1], inputs[high - 1]);
      }
    }
  }

  /** From one grounding to the next jump_1 is entered at most twice, once from the ground and once
      from the air, over every run from any registers. */
  lemma JumpsBetweenGroundings(r: Regs, inputs: seq<Inputs>, low: nat, high: nat)
    requires low <= high <= |inputs| && Airborne(Frames(r, inputs), low, high)
    ensures Entries(Frames(r, inputs), low, high, true) <= 1
    ensures Entries(Frames(r, inputs), low, high, false) <= 1
  {
    var rs := Frames(r, inputs);
    forall k | 0 <= k < |inputs| ensures rs[k + 1] == Next(rs[k], inputs[k]) {
      FrameStep(r, inputs, k);
    }
    EntriesBound(rs, inputs, low, high);
  }

  /** The character touched something deadly, or was dead to begin with, before frame k, and no
      reset came since. */
  predicate Doomed(r: Regs, inputs: seq<Inputs>, k: nat)
    requires k <= |inputs|
  {
    || (r.state.Dead? && forall j :: 0 <= j < k ==> !inputs[j].reset)
    || (exists i :: 0 <= i < k && inputs[i].collide && forall j :: i <= j < k ==> !inputs[j].reset)
  }

  /** Over every run, the character is dead exactly when it was doomed: no state is safe from a
      deadly touch, and nothing but a reset brings it back. */
  lemma {:induction false} DiesExactly(r: Regs, inputs: seq<Inputs>, k: nat)
    requires k <= |inputs|
    ensures Frames(r, inputs)[k].state.Dead? <==> Doomed(r, inputs, k)
    decreases k
  {
    if k > 0 {
      DiesExactly(r, inputs, k - 1);
      FrameStep(r, inputs, k - 1);
      DeathStep(Frames(r, inputs)[k - 1], inputs[k - 1]);
      var i := inputs[k - 1];
      if i.reset {
        assert !Doomed(r, inputs, k);
      } else if i.collide {
        assert Doomed(r, inputs, k);
      }
    }
  }

  lemma DeathStep(r: Regs, i: Inputs)
    ensures Next(r, i).state.Dead? <==> !i.reset && (r.state.Dead? || i.collide)
  {
  }

  /** It moves sideways only the way it faces, by five pixels a frame. */
  lemma MovesAsItFaces(r: Regs, inputs: seq<Inputs>, k: nat)
    requires 0 < k <= |inputs|
    ensures var now := Frames(r, inputs)[k];
            Signed(now.dx) == 0 || Signed(now.dx) == if now.faceRight then 5 else -5
  {
    FrameStep(r, inputs, k - 1);
  }

  /** Only a reset leaves dead, and the dead come to rest. */
  lemma {:induction false} DeadIsFinal(r: Regs, inputs: seq<Inputs>, k: nat)
    requires r.state.Dead? && k <= |inputs| && forall j :: 0 <= j < |inputs| ==> !inputs[j].reset
    ensures var now := Frames(r, inputs)[k]; now.state.Dead? && (k > 0 ==> now.dx == 0 && now.dy == 0)
    decreases k
  {
    if k > 0 { DeadIsFinal(Next(r, inputs[0]), inputs[1..], k - 1); }
  }

  // ---------------------------------------------------------------- the screen

  predicate OnScreen(r: Regs) { r.x <= X_MAX && r.y <= Y_MAX }

  predicate StartsOnScreen(i: Inputs) { i.resetX <= X_MAX && i.resetY <= Y_MAX }

  /** The character starts on the screen and is reset only to places on it. */
  predicate FromScreen(r: Regs, inputs: seq<Inputs>) {
    OnScreen(r) && forall j :: 0 <= j < |inputs| && inputs[j].reset ==> StartsOnScreen(inputs[j])
  }

  /** The character never leaves the screen, though positions wrap at 1024; there the floor test
      does not wrap and holds in the lowest row only. */
  lemma {:induction false} StaysOnScreen(r: Regs, inputs: seq<Inputs>, k: nat)
    requires FromScreen(r, inputs) && k <= |inputs|
    ensures var now := Frames(r, inputs)[k]; OnScreen(now) && (OnFloor(now.y) <==> now.y == Y_MAX)
    decreases k
  {
    if k > 0 { StaysOnScreen(Next(r, inputs[0]), inputs[1..], k - 1); }
  }

  /** A reset puts the character at its start if and only if the move it interrupts would have
      stayed on the screen, or it is there already. */
  lemma ResetPlaces(r: Regs, i: Inputs)
    requires i.reset
    ensures Next(r, i).x == i.resetX <==> Add(r.x, r.dx) <= X_MAX || r.x == i.resetX
    ensures Next(r, i).y == i.resetY <==> NextY(r, i) <= Y_MAX || r.y == i.resetY
  {
  }

  /** No key and nothing touched, at the bottom of the screen. */
  const STILL := Inputs(false, 0, 0, false, false, false, false, false, 0, 0, false, false)

  /** A reset to column 600, three frames of running right, and a reset to column 100: the character
      stays at column 605, whatever the registers held before, if only their position was not
      leaving the screen. */
  lemma ResetLeavesAtEdge(r: Regs)
    requires Add(r.x, r.dx) <= X_MAX && NextY(r, STILL) <= Y_MAX
    ensures var right := STILL.(d := true);
            var run := [STILL.(reset := true, resetX := 600, resetY := Y_MAX), right, right, right,
                        STILL.(reset := true, resetX := 100, resetY := Y_MAX)];
            && Frames(r, run)[4].x == 605 && Frames(r, run)[4].dx == 5
            && Frames(r, run)[5].state == Idle && Frames(r, run)[5].x == 605
  {
    hide Next;
    var right := STILL.(d := true);
    var (first, last) := (STILL.(reset := true, resetX := 600, resetY := Y_MAX),
                          STILL.(reset := true, resetX := 100, resetY := Y_MAX));
    var run := [first, right, right, right, last];
    FrameStep(r, run, 0);
    FrameStep(r, run, 1);
    FrameStep(r, run, 2);
    FrameStep(r, run, 3);
    FrameStep(r, run, 4);
    FirstReset(r, first);
    RunsRight(Next(r, first));
    EdgeReset(Frames(r, run)[4], last);
  }

  lemma FirstReset(r: Regs, i: Inputs)
    requires i.reset && Add(r.x, r.dx) <= X_MAX && NextY(r, i) <= Y_MAX
    ensures Next(r, i) == Regs(Idle, true, i.resetX, i.resetY, i.resetX, i.resetY, 0, 0, false)
  {
  }

  lemma RunsRight(r: Regs)
    requires r == Regs(Idle, true, 600, Y_MAX, 600, Y_MAX, 0, 0, false)
    ensures var right := STILL.(d := true);
            Next(Next(Next(r, right), right), right) == r.(state := Run1, x := 605, dx := 5)
  {
    var right := STILL.(d := true);
    assert Next(r, right) == r.(state := Run1);
    assert Next(Next(r, right), right) == r.(state := Run2, dx := 5);
  }

  lemma EdgeReset(r: Regs, i: Inputs)
    requires i.reset && r.x == 605 && r.dx == 5
    ensures Next(r, i).state == Idle && Next(r, i).x == 605
  {
  }

  // ---------------------------------------------------------------- one frame of a run

  /** In frame k the character is alive, and neither a reset nor a deadly touch comes. */
  predicate Plays(r: Regs, inputs: seq<Inputs>, k: nat) {
    k < |inputs| && FromScreen(r, inputs) && !inputs[k].reset && !inputs[k].collide && !Frames(r, inputs)[k].state.Dead?
  }

  /** There is ground under the character, or it is in the lowest row. */
  predicate Supported(now: Regs, i: Inputs) { i.ground || now.y == 447 }

  /** W makes the falling character jump, unless it has jumped in the air or its fall ends. */
  predicate JumpsInAir(now: Regs, i: Inputs) {
    Falling(now.state) && i.w && !now.jumped && !i.hitY && !Supported(now, i)
  }

  /** The character is in jump_1 exactly if a jump goes on, or W is pressed on the ground, or in a
      fall that does not end while the jump in the air is still free. */
  lemma JumpsExactly(r: Regs, inputs: seq<Inputs>, k: nat)
    requires Plays(r, inputs, k)
    ensures var (now, i) := (Frames(r, inputs)[k], inputs[k]);
            Frames(r, inputs)[k + 1].state.Jump1? <==>
              || (now.state.Jump1? && now.dy != 0)
              || (Grounded(now.state) && i.w && Supported(now, i))
              || JumpsInAir(now, i)
  {
    StaysOnScreen(r, inputs, k);
    FrameStep(r, inputs, k);
  }

  /** It falls exactly if a jump has lost its speed, or the ground is gone, or a fall goes on; and
      its two pictures of a fall take turns. */
  lemma FallsExactly(r: Regs, inputs: seq<Inputs>, k: nat)
    requires Plays(r, inputs, k)
    ensures var (now, i, next) := (Frames(r, inputs)[k], inputs[k], Frames(r, inputs)[k + 1]);
            && (Falling(next.state) <==>
                  || ((now.state.Jump1? || now.state.Jump2?) && now.dy == 0)
                  || (Grounded(now.state) && !Supported(now, i))
                  || (Falling(now.state) && !i.hitY && !Supported(now, i) && !JumpsInAir(now, i)))
            && (next.state.Fall2? <==> Falling(next.state) && now.state.Fall1?)
  {
    StaysOnScreen(r, inputs, k);
    FrameStep(r, inputs, k);
  }

  /** It stands or runs exactly if a fall ends, by a hit or on support, or if it did so before, is
      supported and does not jump; it runs if A or D is pressed, and the two pictures of a run take
      turns. */
  lemma StandsExactly(r: Regs, inputs: seq<Inputs>, k: nat)
    requires Plays(r, inputs, k)
    ensures var (now, i, next) := (Frames(r, inputs)[k], inputs[k], Frames(r, inputs)[k + 1]);
            && (Grounded(next.state) <==>
                  || (Falling(now.state) && (i.hitY || Supported(now, i)))
                  || (Grounded(now.state) && Supported(now, i) && !i.w))
            && (Grounded(next.state) ==>
                  && (next.state.Idle? <==> Falling(now.state) || !(i.a || i.d))
                  && (next.state.Run2? <==> now.state.Run1? && (i.a || i.d)))
  {
    StaysOnScreen(r, inputs, k);
    FrameStep(r, inputs, k);
  }

  /** A turns it left and D right, A before D, and moves it by five pixels but from idle, in every
      frame but those in which W is read as a jump or a fall ends. */
  lemma Steered(r: Regs, inputs: seq<Inputs>, k: nat)
    requires Plays(r, inputs, k)
    ensures var (now, i, next) := (Frames(r, inputs)[k], inputs[k], Frames(r, inputs)[k + 1]);
            var free := !(Grounded(now.state) && i.w) && !(Falling(now.state) && (i.hitY || Supported(now, i))) && !JumpsInAir(now, i);
            && (next.faceRight <==> if free && i.a then false else if free && i.d then true else now.faceRight)
            && Signed(next.dx) == if !free || now.state.Idle? then 0 else if i.a then -5 else if i.d then 5 else 0
  {
    StaysOnScreen(r, inputs, k);
    FrameStep(r, inputs, k);
  }

  /** Its vertical speed: set by W on the ground, even when the ground is gone, and by a jump in the
      air; zero when a fall ends; otherwise two more a frame while it is off the ground. */
  lemma Lifted(r: Regs, inputs: seq<Inputs>, k: nat)
    requires Plays(r, inputs, k)
    ensures var (now, i, next) := (Frames(r, inputs)[k], inputs[k], Frames(r, inputs)[k + 1]);
            && (Grounded(now.state) ==> Signed(next.dy) == (if i.w then -16 else 0) && !next.jumped)
            && (Falling(now.state) && (i.hitY || Supported(now, i)) ==> next.dy == 0)
            && (JumpsInAir(now, i) ==> Signed(next.dy) == -10 && next.jumped)
            && (!Grounded(now.state) && !Grounded(next.state) && !JumpsInAir(now, i) ==>
                  Signed(next.dy) == (if Signed(now.dy) + 2 < 512 then Signed(now.dy) + 2 else -512 + now.dy % 2))
            && (!Grounded(now.state) && !JumpsInAir(now, i) ==> next.jumped == now.jumped)
  {
    StaysOnScreen(r, inputs, k);
    FrameStep(r, inputs, k);
  }

  /** It moves by its signed speeds, or to the row that comes with hit_y, or else with hit_top; a move
      that would leave the screen is dropped.  The wrap of the ten bits never brings it to the other
      side. */
  lemma MovesBySpeed(r: Regs, inputs: seq<Inputs>, k: nat)
    requires FromScreen(r, inputs) && 0 < k < |inputs| && !inputs[k].reset
    ensures var (now, i, next) := (Frames(r, inputs)[k], inputs[k], Frames(r, inputs)[k + 1]);
            var x := now.x + Signed(now.dx);
            var y := if i.hitY then i.kidY else if i.hitTop then i.kidTop else now.y + Signed(now.dy);
            && next.x == (if 0 <= x <= 607 then x else now.x)
            && next.y == (if 0 <= y <= 447 then y else now.y)
  {
    StaysOnScreen(r, inputs, k);
    MovesAsItFaces(r, inputs, k);
    FrameStep(r, inputs, k);
  }

  // ---------------------------------------------------------------- falls

  /** Nothing is touched and no jump is asked for; the character may be steered. */
  predicate Adrift(i: Inputs) {
    !i.reset && !i.collide && !i.hitY && !i.hitTop && !i.ground && !i.w
  }

  predicate AllAdrift(inputs: seq<Inputs>) {
    forall j :: 0 <= j < |inputs| ==> Adrift(inputs[j])
  }

  /** How far a fall from rest comes in k frames: 0 + 2 + ... + 2 (k - 1). */
  function Fallen(k: nat): (h: nat)
    ensures h == k * (k - 1)
  {
    if k == 0 then 0 else Fallen(k - 1) + 2 * (k - 1)
  }

  /** A fall that comes to the bottom row exactly; a move past it would be dropped. */
  predicate LandingRow(y: nat, k: nat) {
    y + Fallen(k) == Y_MAX
  }

  /** In a fall from rest at row y, after k frames. */
  predicate Dropping(r: Regs, y: nat, k: nat) {
    Falling(r.state) && r.y == y + Fallen(k) <= Y_MAX && r.dy == 2 * k
  }

  lemma {:induction false} FallenBound(k: nat)
    ensures k >= 22 ==> Fallen(k) >= 462
    ensures k <= 21 ==> Fallen(k) <= 420
  {
    if k > 22 {
      FallenBound(k - 1);
    } else if k < 21 {
      assert k * (k - 1) <= 20 * 19 by {
        assert k <= 20 && (k == 0 || k - 1 <= 19);
        assert k > 0 ==> k * (k - 1) <= 20 * (k - 1) <= 20 * 19;
      }
    }
  }

  /** One frame of such a fall. */
  lemma DropStep(r: Regs, i: Inputs, y: nat, k: nat)
    requires Dropping(r, y, k) && Adrift(i)
    ensures k <= 21
    ensures r.y == Y_MAX ==> Next(r, i).state.Idle?
    ensures r.y < Y_MAX && y + Fallen(k + 1) <= Y_MAX ==> Dropping(Next(r, i), y, k + 1)
    ensures r.y < Y_MAX && y + Fallen(k + 1) > Y_MAX ==>
              Falling(Next(r, i).state) && Next(r, i).y == r.y && Next(r, i).dy == 2 * k + 2
  {
    hide Fallen;
    FallenBound(k);
    assert Fallen(k + 1) == Fallen(k) + 2 * k by { FallenNext(k); }
  }

  lemma FallenNext(k: nat)
    ensures Fallen(k + 1) == Fallen(k) + 2 * k
  {
  }

  /** A fall from rest at a landing row is still going on after n <= k frames, at the row that
      gravity says, and the character stands on the ground two frames after it has come down. */
  lemma {:induction false} FallGoesDown(r: Regs, inputs: seq<Inputs>, y: nat, k: nat, n: nat)
    requires r.state.Idle? && r.dy == 0 && r.y == y < Y_MAX && LandingRow(y, k) && AllAdrift(inputs)
    requires n <= k && n + 1 <= |inputs|
    ensures Dropping(Frames(r, inputs)[n + 1], y, n)
    decreases n
  {
    hide Fallen;
    if n == 0 {
      FrameStep(r, inputs, 0);
      FallenZero();
    } else {
      FallGoesDown(r, inputs, y, k, n - 1);
      FrameStep(r, inputs, n);
      FallenGrows(n, k);
      FallenGrows(n - 1, k);
      DropStep(Frames(r, inputs)[n], inputs[n], y, n - 1);
      FallenStrict(n - 1, k);
    }
  }

  lemma FallenZero()
    ensures Fallen(0) == 0 && Fallen(1) == 0
  {
  }

  lemma {:induction false} FallenGrows(n: nat, k: nat)
    requires n <= k
    ensures Fallen(n) <= Fallen(k)
    decreases k - n
  {
    if n < k {
      FallenNext(k - 1);
      FallenGrows(n, k - 1);
    }
  }

  lemma FallenStrict(n: nat, k: nat)
    requires n < k && Fallen(k) > 0
    ensures Fallen(n) < Fallen(k)
  {
    if n > 0 {
      FallenGrows(n + 1, k);
      FallenNext(n);
    }
  }

  /** A fall that never ends: it comes to a row from which the next move would leave the screen,
      hangs there until its speed has wrapped, goes on from row 0 or 1, and so forth. */
  ghost predicate Lost(r: Regs) {
    Falling(r.state) && r.y < Y_MAX && (Hanging(r) || exists y: nat, k: nat :: LostDrop(r, y, k))
  }

  ghost predicate LostDrop(r: Regs, y: nat, k: nat) {
    Dropping(r, y, k) && forall n: nat :: !LandingRow(y, n)
  }

  predicate Hanging(r: Regs) {
    Y_MAX < r.y + r.dy <= 1025 && r.dy % 2 == 0
  }

  lemma LostStep(r: Regs, i: Inputs)
    requires Lost(r) && Adrift(i)
    ensures Lost(Next(r, i))
  {
    if Hanging(r) {
      HangStep(r, i);
    } else {
      var y: nat, k: nat :| LostDrop(r, y, k);
      hide Fallen, Next;
      DropStep(r, i, y, k);
      FallenNext(k);
      assert !LandingRow(y, k + 1);
      assert LostDrop(Next(r, i), y, k + 1);
    }
  }

  lemma HangStep(r: Regs, i: Inputs)
    requires Falling(r.state) && r.y < Y_MAX && Hanging(r) && Adrift(i)
    ensures Lost(Next(r, i))
  {
    var next := Next(r, i);
    assert Falling(next.state);
    if next.dy == 0 {
      assert next.y <= 1;
      NeverFromTheTop(next.y);
      FallenZero();
      assert LostDrop(next, next.y, 0);
    }
  }

  lemma NeverFromTheTop(y: nat)
    requires y <= 1
    ensures forall n: nat :: !LandingRow(y, n)
  {
    forall n: nat
      ensures !LandingRow(y, n)
    {
      FallenBound(n);
    }
  }

  lemma {:induction false} StaysLost(r: Regs, inputs: seq<Inputs>, n: nat)
    requires Lost(r) && AllAdrift(inputs) && n <= |inputs|
    ensures Lost(Frames(r, inputs)[n])
    decreases n
  {
    if n > 0 {
      StaysLost(r, inputs, n - 1);
      FrameStep(r, inputs, n - 1);
      LostStep(Frames(r, inputs)[n - 1], inputs[n - 1]);
    }
  }

  /** From rest above the bottom row, with nothing touched: the character comes to stand on the
      ground within a run if and only if its height above the bottom row is k * (k - 1) for some k,
      and the run is long enough: it stands after exactly k + 2 frames.  From any other row it
      never lands. */
  lemma FallLands(r: Regs, inputs: seq<Inputs>)
    requires r.state.Idle? && r.dy == 0 && r.y < Y_MAX && AllAdrift(inputs)
    ensures (exists n :: 0 < n <= |inputs| && Grounded(Frames(r, inputs)[n].state)) <==>
            exists k: nat :: LandingRow(r.y, k) && k + 2 <= |inputs|
  {
    if k: nat :| LandingRow(r.y, k) {
      if k + 2 <= |inputs| {
        FallGoesDown(r, inputs, r.y, k, k);
        FrameStep(r, inputs, k + 1);
        DropStep(Frames(r, inputs)[k + 1], inputs[k + 1], r.y, k);
        assert Grounded(Frames(r, inputs)[k + 2].state);
      } else {
        forall n | 0 < n <= |inputs|
          ensures !Grounded(Frames(r, inputs)[n].state)
        {
          FallGoesDown(r, inputs, r.y, k, n - 1);
        }
        forall j: nat | LandingRow(r.y, j)
          ensures j >= k
        {
          LandingOnce(r.y, j, k);
        }
      }
    } else {
      forall n | 0 < n <= |inputs|
        ensures !Grounded(Frames(r, inputs)[n].state)
      {
        NeverLands(r, inputs, n);
      }
    }
  }

  lemma LandingOnce(y: nat, j: nat, k: nat)
    requires y < Y_MAX && LandingRow(y, j) && LandingRow(y, k)
    ensures j == k
  {
    if j < k {
      FallenStrict(j, k);
    } else if k < j {
      FallenStrict(k, j);
    }
  }

  lemma NeverLands(r: Regs, inputs: seq<Inputs>, n: nat)
    requires r.state.Idle? && r.dy == 0 && r.y < Y_MAX && AllAdrift(inputs) && 0 < n <= |inputs|
    requires forall k: nat :: !LandingRow(r.y, k)
    ensures Lost(Frames(r, inputs)[n])
  {
    var first := Next(r, inputs[0]);
    FallenZero();
    assert LostDrop(first, r.y, 0);
    StaysLost(first, inputs[1..], n - 1);
  }

  // ---------------------------------------------------------------- the sprite

  /** isKid: the pixel being drawn is one of the character's. */
  predicate IsKid(r: Regs, drawX: Word, drawY: Word) {
    !r.state.Dead? && Sub(drawX, r.x) < WIDTH && Sub(drawY, r.y) < HEIGHT
  }

  /** The code of a state, in declaration order. */
  function Code(s: State): nat {
    match s
    case Idle => 0 case Run1 => 1 case Run2 => 2 case Jump1 => 3
    case Jump2 => 4 case Fall1 => 5 case Fall2 => 6 case Dead => 7
  }

  /** Kid_address, where the pixel is the character's. */
  function Address(s: State, faceRight: bool, distX: Word, distY: Word): nat {
    (Code(s) * 2048 + (if faceRight then 1024 else 0) + distX + distY * 32) % 0x200_0000
  }

  /** At every frame of a run that starts on the screen, exactly the pixels of a 32 by 32 box are
      the character's, though distances wrap. */
  lemma IsKidExact(r: Regs, inputs: seq<Inputs>, k: nat, drawX: Word, drawY: Word)
    requires FromScreen(r, inputs) && k <= |inputs|
    ensures var now := Frames(r, inputs)[k];
            IsKid(now, drawX, drawY) <==>
            !now.state.Dead? && now.x <= drawX < now.x + WIDTH && now.y <= drawY < now.y + HEIGHT
  {
    StaysOnScreen(r, inputs, k);
  }

  lemma Split32(q: nat, r: nat)
    requires r < 32
    ensures (q * 32 + r) / 32 == q && (q * 32 + r) % 32 == r
  {
  }

  lemma AddressDecodes(s: State, f: bool, x: Word, y: Word)
    requires x < WIDTH && y < HEIGHT
    ensures var a := Address(s, f, x, y); a % 32 == x && a / 32 % 32 == y && a / 32 / 32 == 2 * Code(s) + if f then 1 else 0
  {
    var page := 2 * Code(s) + if f then 1 else 0;
    Split32(page, y);
    Split32(page * 32 + y, x);
    Small(page * 1024 + y * 32 + x);
  }

  lemma Small(a: nat)
    requires a < 0x200_0000
    ensures a % 0x200_0000 == a
  {
  }

  /** No two pixels of the sprite sheet share an address. */
  lemma AddressInjective(s: State, f: bool, x: Word, y: Word, s': State, f': bool, x': Word, y': Word)
    requires x < WIDTH && y < HEIGHT && x' < WIDTH && y' < HEIGHT
    ensures Address(s, f, x, y) == Address(s', f', x', y') <==> (s, f, x, y) == (s', f', x', y')
  {
    hide Address;
    AddressDecodes(s, f, x, y);
    AddressDecodes(s', f', x', y');
  }
}
