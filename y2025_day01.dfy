/**
 * Secret Entrance (2025, day 1): a dial of 100 positions turns one click
 * at a time; the password counts how often it points at 0, either at the
 * end of each rotation or at every click.
 */
module SecretEntrance {
  const RingSize := 100
  const StartPosition := 50

  datatype Dir = R | L

  /** A rotation such as "R12": a direction and a number of clicks. */
  datatype Rotation = Rotation(dir: Dir, steps: nat)

  /** `DELTA`: right adds one, left subtracts one. */
  function Delta(d: Dir): int
  {
    match d
    case R => 1
    case L => -1
  }

  /** One click: move by the delta, then wrap below 0 to 99 and above 99 to 0. */
  function Click(pos: int, d: Dir): (p: int)
    ensures 0 <= p < RingSize
  {
    var moved := pos + Delta(d);
    if moved < 0 then 99 else if moved > RingSize - 1 then 0 else moved
  }

  /** On a position of the ring a click is a step modulo 100. */
  lemma ClickIsModular(pos: int, d: Dir)
    requires 0 <= pos < RingSize
    ensures Click(pos, d) == (pos + Delta(d)) % RingSize
  {
  }

  /** The position after `n` clicks in one direction. */
  function Turn(pos: int, d: Dir, n: nat): int
  {
    if n == 0 then pos else Click(Turn(pos, d, n - 1), d)
  }

  /** From a position of the ring, n clicks move the dial by ±n modulo 100. */
  lemma {:induction false} TurnIsModular(pos: int, d: Dir, n: nat)
    requires 0 <= pos < RingSize
    ensures Turn(pos, d, n) == (if d == R then (pos + n) % RingSize else (pos - n) % RingSize)
  {
    if n > 0 {
      TurnIsModular(pos, d, n - 1);
      var y := if d == R then pos + (n - 1) else pos - (n - 1);
      ClickIsModular(y % RingSize, d);
      ModShift(y, Delta(d));
    }
  }

  /** Reducing before a shift or after it gives the same position. */
  lemma ModShift(y: int, delta: int)
    ensures (y % RingSize + delta) % RingSize == (y + delta) % RingSize
  {
    var q := y / RingSize;
    assert y + delta == q * RingSize + (y % RingSize + delta);
    var r := (y % RingSize + delta) % RingSize;
    var q' := (y % RingSize + delta) / RingSize;
    assert y + delta == (q + q') * RingSize + r;
  }

  /** How many of the n clicks land on 0. */
  function ZerosDuring(pos: int, d: Dir, n: nat): (z: nat)
    ensures z <= n
  {
    if n == 0 then 0 else ZerosDuring(pos, d, n - 1) + (if Turn(pos, d, n) == 0 then 1 else 0)
  }

  /** Clicks from the ring position before the next 0: pos going right is pos past a 0, going left 100 - pos before one. */
  function Offset(pos: int, d: Dir): int
  {
    if d == R then pos else (RingSize - pos) % RingSize
  }

  /** One more click adds one hundredth exactly when it reaches a multiple of 100. */
  lemma HundredsStep(x: nat)
    requires x > 0
    ensures x / RingSize == (x - 1) / RingSize + (if x % RingSize == 0 then 1 else 0)
  {
  }

  /** Going left from pos, the n-th click is at 0 exactly when n + (100 - pos) is a multiple of 100. */
  lemma LeftLandsOnZero(pos: int, n: nat)
    requires 0 <= pos < RingSize
    ensures (pos - n) % RingSize == 0 <==> (n + Offset(pos, L)) % RingSize == 0
  {
    var x := n + Offset(pos, L);
    assert pos == 0 ==> x == n;
    assert pos > 0 ==> x == (n - pos) + RingSize;
  }

  /** The clicks landing on 0 in a rotation of n clicks, in closed form. */
  lemma {:induction false} ZerosClosedForm(pos: int, d: Dir, n: nat)
    requires 0 <= pos < RingSize
    ensures ZerosDuring(pos, d, n) == (n + Offset(pos, d)) / RingSize
  {
    if n > 0 {
      ZerosClosedForm(pos, d, n - 1);
      TurnIsModular(pos, d, n);
      HundredsStep(n + Offset(pos, d));
      if d == L {
        LeftLandsOnZero(pos, n);
      }
    }
  }

  /** The password from position `pos`: rotations ending at 0, or, with `countAllClicks`, clicks landing on 0. */
  function Password(pos: int, rotations: seq<Rotation>, countAllClicks: bool): nat
    decreases rotations
  {
    if rotations == [] then 0
    else
      var r := rotations[0];
      var end := Turn(pos, r.dir, r.steps);
      var hits := if countAllClicks then ZerosDuring(pos, r.dir, r.steps) else if end == 0 then 1 else 0;
      hits + Password(end, rotations[1..], countAllClicks)
  }

  /** `findPassword`, on rotations already split into direction and clicks. */
  method FindPassword(startPosition: int, rotations: seq<Rotation>, countAllClicks: bool) returns (password: nat)
    ensures password == Password(startPosition, rotations, countAllClicks)
  {
    password := 0;
    var pos := startPosition;
    var r := 0;
    while r < |rotations|
      invariant 0 <= r <= |rotations|
      invariant password + Password(pos, rotations[r..], countAllClicks) == Password(startPosition, rotations, countAllClicks)
    {
      var rotation := rotations[r];
      assert rotations[r..][1..] == rotations[r + 1..];
      var from, before := pos, password;
      var i := 0;
      while i < rotation.steps
        invariant 0 <= i <= rotation.steps
        invariant pos == Turn(from, rotation.dir, i)
        invariant password == before + (if countAllClicks then ZerosDuring(from, rotation.dir, i) else 0)
      {
        pos := Click(pos, rotation.dir);
        if countAllClicks && pos == 0 {
          password := password + 1;
        }
        i := i + 1;
      }
      if !countAllClicks && pos == 0 {
        password := password + 1;
      }
      r := r + 1;
    }
  }

  /** When every rotation makes at least one click, counting every click finds at least the rotations that end at 0. */
  lemma {:induction false} AllClicksCountEnds(pos: int, rotations: seq<Rotation>)
    requires forall k | 0 <= k < |rotations| :: rotations[k].steps > 0
    ensures Password(pos, rotations, true) >= Password(pos, rotations, false)
    decreases rotations
  {
    if rotations != [] {
      var r := rotations[0];
      AllClicksCountEnds(Turn(pos, r.dir, r.steps), rotations[1..]);
    }
  }

  /** A rotation of zero clicks that starts at 0 counts only in the first mode, so the condition above is needed. */
  lemma ZeroStepRotation()
    ensures Password(0, [Rotation(R, 0)], false) == 1
    ensures Password(0, [Rotation(R, 0)], true) == 0
  {
    assert [Rotation(R, 0)][1..] == [];
  }
}
