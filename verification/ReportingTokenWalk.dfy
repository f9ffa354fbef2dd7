/**
 The extractor's control flow (reportingtoken.go) on arbitrary bytes: loops over a position, and recursion into slices of
 the data. What a single turn does is a parameter; which turns keep the whole walk in bounds is proved for every such
 parameter.
 */
module ReportingTokenWalk {
  import opened Prelude
  import opened ReportingToken

  /**
   A turn of the loop: it ends the loop, returns nil, slices outside the message, moves the position, or first extracts
   the slice start .. next.  `from` is where the value after the tag begins.
   */
  datatype Turn =
    | Break
    | ReturnNil
    | OutOfRange
    | Move(from: nat, next: int)
    | Enter(from: nat, start: int, next: int, subfields: Config)

  type Turns = (Bytes, nat, Config) -> Turn

  /** The turn stays within the message and gets past its tag. */
  predicate Orderly(turn: Turns, data: Bytes, i: nat, config: Config) {
    match turn(data, i, config)
    case Break => true
    case ReturnNil => true
    case OutOfRange => false
    case Move(from, next) => i < from <= next <= |data|
    case Enter(from, start, next, _) => i < from <= start <= next <= |data|
  }

  /** Every turn from i on is orderly, and so is every turn inside the slices extracted on the way. */
  predicate Safe(turn: Turns, data: Bytes, i: nat, config: Config)
    requires i <= |data|
    decreases |data|, |data| - i
  {
    i == |data| ||
    (Orderly(turn, data, i, config) &&
     match turn(data, i, config)
     case Move(_, next) => Safe(turn, data, next, config)
     case Enter(_, start, next, sub) => Safe(turn, data[start..next], 0, sub) && Safe(turn, data, next, config)
     case _ => true)
  }

  lemma {:induction false} SafeMove(turn: Turns, data: Bytes, i: nat, config: Config, from: nat, next: nat)
    requires i < from <= next <= |data| && turn(data, i, config) == Move(from, next) && Safe(turn, data, next, config)
    ensures Safe(turn, data, i, config)
  {
  }

  lemma {:induction false} SafeEnter(turn: Turns, data: Bytes, i: nat, config: Config, from: nat, start: nat, next: nat, sub: Config)
    requires i < from <= start <= next <= |data| && turn(data, i, config) == Enter(from, start, next, sub)
    requires Safe(turn, data[start..next], 0, sub) && Safe(turn, data, next, config)
    ensures Safe(turn, data, i, config)
  {
  }

  lemma {:induction false} SafeStop(turn: Turns, data: Bytes, i: nat, config: Config)
    requires i <= |data| && (turn(data, i, config).Break? || turn(data, i, config).ReturnNil?)
    ensures Safe(turn, data, i, config)
  {
  }

  // ---------- the walk, step by step ----------

  /** One activation of the extractor. */
  datatype Frame = Frame(data: Bytes, config: Config, i: int)

  /** The innermost activation is last; Left once a slice was out of range. */
  datatype Machine = Running(stack: seq<Frame>) | Finished | Left

  function Return(stack: seq<Frame>): Machine
    requires stack != []
  {
    if |stack| == 1 then Finished else Running(stack[..|stack| - 1])
  }

  /** The position moves before the slice is extracted: what the recursion returns does not change where the loop goes. */
  function Step(turn: Turns, m: Machine): Machine {
    if !m.Running? || m.stack == [] then m
    else
      var n := |m.stack| - 1;
      var f := m.stack[n];
      if f.i < 0 then Left
      else if f.i >= |f.data| then Return(m.stack)
      else
        match turn(f.data, f.i, f.config)
        case Break => Return(m.stack)
        case ReturnNil => Return(m.stack)
        case OutOfRange => Left
        case Move(_, next) => Running(m.stack[n := f.(i := next)])
        case Enter(_, start, next, sub) =>
          if !(0 <= start <= next <= |f.data|) then Left
          else Running(m.stack[n := f.(i := next)] + [Frame(f.data[start..next], sub, 0)])
  }

  function Walk(turn: Turns, m: Machine, n: nat): Machine
    decreases n
  {
    if n == 0 then m else Walk(turn, Step(turn, m), n - 1)
  }

  function Begin(data: Bytes, config: Config): Machine { Running([Frame(data, config, 0)]) }

  /** The next turn is not orderly. */
  predicate Fails(turn: Turns, m: Machine) {
    && m.Running? && m.stack != []
    && var f := m.stack[|m.stack| - 1];
       0 <= f.i < |f.data| && !Orderly(turn, f.data, f.i, f.config)
  }

  lemma {:induction false} WalkTwice(turn: Turns, m: Machine, a: nat, b: nat)
    ensures Walk(turn, Walk(turn, m, a), b) == Walk(turn, m, a + b)
    decreases a
  {
    if a > 0 {
      WalkTwice(turn, Step(turn, m), a - 1, b);
    }
  }

  /** The state with the given activation on top of others that wait for it. */
  function On(below: seq<Frame>, data: Bytes, config: Config, i: nat): Machine { Running(below + [Frame(data, config, i)]) }

  function Popped(below: seq<Frame>): Machine { if below == [] then Finished else Running(below) }

  lemma {:induction false} StepOn(turn: Turns, below: seq<Frame>, data: Bytes, config: Config, i: nat)
    requires i <= |data| && (i < |data| ==> Orderly(turn, data, i, config))
    ensures Step(turn, On(below, data, config, i)) ==
            if i == |data| then Popped(below)
            else
              match turn(data, i, config)
              case Move(_, next) => On(below, data, config, next)
              case Enter(_, start, next, sub) => On(below + [Frame(data, config, next)], data[start..next], sub, 0)
              case _ => Popped(below)
  {
    var stack := below + [Frame(data, config, i)];
    assert stack[..|stack| - 1] == below;
    assert forall next :: stack[|below| := Frame(data, config, next)] == below + [Frame(data, config, next)];
  }

  // ---------- safe data: the walk ends, in bounds ----------

  /** How many steps a safe walk takes. */
  function Work(turn: Turns, data: Bytes, i: nat, config: Config): nat
    requires i <= |data| && Safe(turn, data, i, config)
    decreases |data|, |data| - i
  {
    if i == |data| then 1
    else
      match turn(data, i, config)
      case Move(_, next) => 1 + Work(turn, data, next, config)
      case Enter(_, start, next, sub) => 1 + Work(turn, data[start..next], 0, sub) + Work(turn, data, next, config)
      case _ => 1
  }

  lemma {:induction false} WorkIsLinear(turn: Turns, data: Bytes, i: nat, config: Config)
    requires i <= |data| && Safe(turn, data, i, config)
    ensures Work(turn, data, i, config) <= 2 * (|data| - i) + 1
    decreases |data|, |data| - i
  {
    if i < |data| {
      match turn(data, i, config)
      case Move(_, next) => WorkIsLinear(turn, data, next, config);
      case Enter(_, start, next, sub) =>
        WorkIsLinear(turn, data[start..next], 0, sub);
        WorkIsLinear(turn, data, next, config);
      case _ =>
    }
  }

  lemma {:induction false} SafeReturns(turn: Turns, below: seq<Frame>, data: Bytes, i: nat, config: Config)
    requires i <= |data| && Safe(turn, data, i, config)
    ensures Walk(turn, On(below, data, config, i), Work(turn, data, i, config)) == Popped(below)
    decreases |data|, |data| - i
  {
    StepOn(turn, below, data, config, i);
    if i < |data| {
      match turn(data, i, config)
      case Move(_, next) => SafeReturns(turn, below, data, next, config);
      case Enter(_, start, next, sub) =>
        SafeReturns(turn, below + [Frame(data, config, next)], data[start..next], 0, sub);
        SafeReturns(turn, below, data, next, config);
        WalkTwice(turn, On(below + [Frame(data, config, next)], data[start..next], sub, 0),
                  Work(turn, data[start..next], 0, sub), Work(turn, data, next, config));
      case _ =>
    }
  }

  lemma {:induction false} FinishedStays(turn: Turns, n: nat)
    ensures Walk(turn, Finished, n) == Finished
  {
    if n > 0 {
      FinishedStays(turn, n - 1);
    }
  }

  /** On safe data the extractor ends, at every level, after at most two steps per byte. */
  lemma {:induction false} SafeTerminates(turn: Turns, data: Bytes, config: Config, n: nat)
    requires Safe(turn, data, 0, config) && n > 2 * |data|
    ensures Walk(turn, Begin(data, config), n) == Finished
  {
    var work := Work(turn, data, 0, config);
    WorkIsLinear(turn, data, 0, config);
    SafeReturns(turn, [], data, 0, config);
    assert On([], data, config, 0) == Begin(data, config);
    WalkTwice(turn, Begin(data, config), work, n - work);
    FinishedStays(turn, n - work);
  }

  ghost predicate SafeFrame(turn: Turns, f: Frame) {
    0 <= f.i <= |f.data| && Safe(turn, f.data, f.i, f.config)
  }

  /** Every activation is within its message, with only orderly turns to come. */
  ghost predicate SafeMachine(turn: Turns, m: Machine) {
    match m
    case Running(stack) => stack != [] && forall k :: 0 <= k < |stack| ==> SafeFrame(turn, stack[k])
    case Finished => true
    case Left => false
  }

  lemma {:induction false} SafeStep(turn: Turns, m: Machine)
    requires SafeMachine(turn, m)
    ensures SafeMachine(turn, Step(turn, m)) && !Fails(turn, m)
  {
    if m.Running? {
      assert SafeFrame(turn, m.stack[|m.stack| - 1]);
    }
  }

  lemma {:induction false} SafeWalk(turn: Turns, m: Machine, n: nat)
    requires SafeMachine(turn, m)
    ensures SafeMachine(turn, Walk(turn, m, n)) && !Fails(turn, Walk(turn, m, n))
    decreases n
  {
    SafeStep(turn, m);
    if n > 0 {
      SafeWalk(turn, Step(turn, m), n - 1);
    }
  }

  // ---------- other data: some turn, at some level, is not orderly ----------

  lemma {:induction false} UnsafeFails(turn: Turns, below: seq<Frame>, data: Bytes, i: nat, config: Config) returns (n: nat)
    requires i <= |data| && !Safe(turn, data, i, config)
    ensures Fails(turn, Walk(turn, On(below, data, config, i), n))
    decreases |data|, |data| - i
  {
    if !Orderly(turn, data, i, config) {
      n := 0;
    } else {
      StepOn(turn, below, data, config, i);
      match turn(data, i, config)
      case Move(_, next) =>
        var m := UnsafeFails(turn, below, data, next, config);
        n := m + 1;
      case Enter(_, start, next, sub) =>
        var content := data[start..next];
        var waiting := below + [Frame(data, config, next)];
        if !Safe(turn, content, 0, sub) {
          var m := UnsafeFails(turn, waiting, content, 0, sub);
          n := m + 1;
        } else {
          var work := Work(turn, content, 0, sub);
          SafeReturns(turn, waiting, content, 0, sub);
          var m := UnsafeFails(turn, below, data, next, config);
          WalkTwice(turn, On(waiting, content, sub, 0), work, m);
          n := 1 + work + m;
        }
    }
  }

  /** Turn number n of the walk, at whatever level, is not orderly. */
  predicate FailsAfter(turn: Turns, data: Bytes, config: Config, n: nat) { Fails(turn, Walk(turn, Begin(data, config), n)) }

  /** The data is safe exactly if no turn of the walk, at any level, fails. */
  lemma {:induction false} SafeIff(turn: Turns, data: Bytes, config: Config)
    ensures Safe(turn, data, 0, config) <==> forall n: nat :: !FailsAfter(turn, data, config, n)
  {
    assert On([], data, config, 0) == Begin(data, config);
    if Safe(turn, data, 0, config) {
      forall n: nat ensures !FailsAfter(turn, data, config, n) {
        SafeWalk(turn, Begin(data, config), n);
      }
    } else {
      var n := UnsafeFails(turn, [], data, 0, config);
      assert FailsAfter(turn, data, config, n);
    }
  }

  // ---------- walks without end ----------

  /** Six turns that lead back to the start are taken for ever, whoever waits below. */
  lemma {:induction false} Cycles(turn: Turns, below: seq<Frame>, data: Bytes, config: Config, r: nat, n: nat)
    requires |data| > 10 && r < 6
    requires forall k: nat :: k < 6 ==> turn(data, 2 * k, config) == Move(2 * k + 1, if k < 5 then 2 * k + 2 else 0)
    ensures Walk(turn, On(below, data, config, 2 * r), n) == On(below, data, config, 2 * ((r + n) % 6))
    decreases n
  {
    if n > 0 {
      var next := if r < 5 then r + 1 else 0;
      CycleStep(turn, below, data, config, r);
      Cycles(turn, below, data, config, next, n - 1);
      SixCycle(r, n);
    }
  }

  lemma {:induction false} SixCycle(r: nat, n: nat)
    requires r < 6 && n > 0
    ensures ((if r < 5 then r + 1 else 0) + (n - 1)) % 6 == (r + n) % 6
  {
  }

  lemma {:induction false} CycleStep(turn: Turns, below: seq<Frame>, data: Bytes, config: Config, r: nat)
    requires |data| > 10 && r < 6
    requires forall k: nat :: k < 6 ==> turn(data, 2 * k, config) == Move(2 * k + 1, if k < 5 then 2 * k + 2 else 0)
    ensures Step(turn, On(below, data, config, 2 * r)) == On(below, data, config, if r < 5 then 2 * r + 2 else 0)
  {
    var stack, next := below + [Frame(data, config, 2 * r)], if r < 5 then 2 * r + 2 else 0;
    assert turn(data, 2 * r, config) == Move(2 * r + 1, next);
    assert stack[|below| := Frame(data, config, next)] == below + [Frame(data, config, next)];
  }
}
