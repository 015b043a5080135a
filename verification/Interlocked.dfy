/** The 64-bit interlocked operations as compare-and-swap loops, run by any number of threads
    (win32/include/winapi/winbase.h:981-1036). */
module Interlocked {
  import opened Power2
  import opened Words
  import opened Words32

  // ----- the operations

  datatype Op =
    | AndWith(v: Word) | OrWith(v: Word) | XorWith(v: Word)
    | Increment | Decrement | Exchange(v: Word) | ExchangeAdd(v: Word)

  function BitXor(x: nat, y: nat): nat
    decreases x + y
  {
    if x == 0 then y else if y == 0 then x
    else (x + y) % 2 + 2 * BitXor(x / 2, y / 2)
  }

  lemma {:induction false} XorBound(x: nat, y: nat, n: nat)
    requires x < Pow2(n) && y < Pow2(n)
    ensures BitXor(x, y) < Pow2(n)
    decreases n
  {
    if x == 0 || y == 0 {
    } else {
      XorBound(x / 2, y / 2, n - 1);
    }
  }

  function Xor(x: Word, y: Word): Word {
    Pow2_64();
    XorBound(x, y, 64);
    BitXor(x, y)
  }

  /** What an operation stores, from the value it saw. */
  function Update(op: Op, seen: Word): Word {
    match op
    case AndWith(v) => And(seen, v)
    case OrWith(v) => Or(seen, v)
    case XorWith(v) => Xor(seen, v)
    case Increment => Plus(seen, 1)
    case Decrement => Minus(seen, 1)
    case Exchange(v) => v
    case ExchangeAdd(v) => Plus(seen, v)
  }

  /** What it returns: the old value, or for the two counters the new one. */
  function Answer(op: Op, seen: Word): Word {
    if op.Increment? || op.Decrement? then Update(op, seen) else seen
  }

  predicate Bit(x: nat, k: nat) {
    if k == 0 then x % 2 == 1 else Bit(x / 2, k - 1)
  }

  lemma BitStep(x: nat, k: nat)
    ensures Bit(x, k) == if k == 0 then x % 2 == 1 else Bit(x / 2, k - 1)
    ensures x == 0 ==> !Bit(x, k)
    decreases k
  {
    if k > 0 { BitStep(x / 2, k - 1); }
  }

  lemma Doubled(z: nat, x: nat, b: nat)
    requires b <= 1 && z == 2 * x + b
    ensures z / 2 == x && z % 2 == b
  {}

  lemma HalfAnd(x: nat, y: nat)
    requires x > 0 && y > 0
    ensures BitAnd(x, y) % 2 == (if x % 2 == 1 && y % 2 == 1 then 1 else 0)
    ensures BitAnd(x, y) / 2 == BitAnd(x / 2, y / 2)
  {
    Doubled(BitAnd(x, y), BitAnd(x / 2, y / 2), if x % 2 == 1 && y % 2 == 1 then 1 else 0);
  }

  lemma HalfOr(x: nat, y: nat)
    requires x > 0 && y > 0
    ensures BitOr(x, y) % 2 == (if x % 2 == 1 || y % 2 == 1 then 1 else 0)
    ensures BitOr(x, y) / 2 == BitOr(x / 2, y / 2)
  {
    Doubled(BitOr(x, y), BitOr(x / 2, y / 2), if x % 2 == 1 || y % 2 == 1 then 1 else 0);
  }

  lemma Parity(x: nat, y: nat)
    ensures (x + y) % 2 == if x % 2 == y % 2 then 0 else 1
  {}

  lemma XorStep(x: nat, y: nat)
    requires x > 0 && y > 0
    ensures BitXor(x, y) == 2 * BitXor(x / 2, y / 2) + if x % 2 == y % 2 then 0 else 1
  {
    Parity(x, y);
  }

  lemma HalfXor(x: nat, y: nat)
    requires x > 0 && y > 0
    ensures BitXor(x, y) % 2 == (if x % 2 == y % 2 then 0 else 1)
    ensures BitXor(x, y) / 2 == BitXor(x / 2, y / 2)
  {
    hide BitXor;
    XorStep(x, y);
    Doubled(BitXor(x, y), BitXor(x / 2, y / 2), if x % 2 == y % 2 then 0 else 1);
  }

  /** The three updates, bit by bit. */
  lemma {:induction false} UpdateBits(x: nat, y: nat, k: nat)
    ensures Bit(BitAnd(x, y), k) <==> Bit(x, k) && Bit(y, k)
    ensures Bit(BitOr(x, y), k) <==> Bit(x, k) || Bit(y, k)
    ensures Bit(BitXor(x, y), k) <==> Bit(x, k) != Bit(y, k)
    decreases k
  {
    BitStep(x, k);
    BitStep(y, k);
    if x == 0 || y == 0 {
    } else {
      HalfAnd(x, y);
      HalfOr(x, y);
      HalfXor(x, y);
      hide BitAnd, BitOr, BitXor;
      if k > 0 { UpdateBits(x / 2, y / 2, k - 1); }
    }
  }

  // ----- the threads

  /** Where a thread is: outside, about to read, having read one half of the value, about to
      compare and swap, or about to return. A read may be one load or two, in either order; at is
      the length of the history when the first of them was made. */
  datatype Local =
    | Idle
    | Reading(op: Op)
    | HalfRead(op: Op, highFirst: bool, half: Word32, at: nat)
    | Ready(op: Op, seen: Word, at: nat)
    | Done(op: Op, seen: Word)

  datatype Event =
    | Invoke(thread: nat, op: Op)
    | Commit(thread: nat, op: Op, before: Word)
    | Return(thread: nat, op: Op, answer: Word)

  /** The shared value, the threads with their counts of failed swaps, and what has happened. */
  datatype State = State(value: Word, locals: seq<Local>, fails: seq<nat>, hist: seq<Event>)

  datatype Step =
    | Call(t: nat, op: Op)
    | Read(t: nat)
    | ReadHalf(t: nat, highFirst: bool)
    | ReadRest(t: nat)
    | CompareSwap(t: nat)
    | Leave(t: nat)

  function Init(v: Word, n: nat): State {
    State(v, seq(n, _ => Idle), seq(n, _ => 0), [])
  }

  predicate Enabled(s: State, step: Step) {
    && step.t < |s.locals| == |s.fails|
    && match step
       case Call(t, _) => s.locals[t].Idle?
       case Read(t) => s.locals[t].Reading?
       case ReadHalf(t, _) => s.locals[t].Reading?
       case ReadRest(t) => s.locals[t].HalfRead?
       case CompareSwap(t) => s.locals[t].Ready?
       case Leave(t) => s.locals[t].Done?
  }

  function Load(v: Word, high: bool): Word32 {
    if high then v / W32 else v % W32
  }

  /** A failed swap goes back to reading. */
  function After(s: State, step: Step): State
    requires Enabled(s, step)
  {
    var t := step.t;
    match step
    case Call(_, op) =>
      s.(locals := s.locals[t := Reading(op)], hist := s.hist + [Invoke(t, op)])
    case Read(_) =>
      s.(locals := s.locals[t := Ready(s.locals[t].op, s.value, |s.hist|)])
    case ReadHalf(_, high) =>
      s.(locals := s.locals[t := HalfRead(s.locals[t].op, high, Load(s.value, high), |s.hist|)])
    case ReadRest(_) =>
      var l := s.locals[t];
      var rest := Load(s.value, !l.highFirst);
      var seen := if l.highFirst then Pair(l.half, rest) else Pair(rest, l.half);
      s.(locals := s.locals[t := Ready(l.op, seen, l.at)])
    case CompareSwap(_) =>
      var l := s.locals[t];
      if s.value == l.seen then
        s.(value := Update(l.op, l.seen), locals := s.locals[t := Done(l.op, l.seen)],
           hist := s.hist + [Commit(t, l.op, l.seen)])
      else
        s.(locals := s.locals[t := Reading(l.op)], fails := s.fails[t := s.fails[t] + 1])
    case Leave(_) =>
      var l := s.locals[t];
      s.(locals := s.locals[t := Idle], hist := s.hist + [Return(t, l.op, Answer(l.op, l.seen))])
  }

  ghost predicate IsRun(s: State, steps: seq<Step>, s': State)
    decreases steps
  {
    if steps == [] then s == s'
    else Enabled(s, steps[0]) && IsRun(After(s, steps[0]), steps[1..], s')
  }

  // ----- reading a history

  /** The operations that took effect, performed one after the other on v. */
  function Replay(v: Word, h: seq<Event>): Word {
    if h == [] then v
    else
      var w, e := Replay(v, h[..|h| - 1]), h[|h| - 1];
      if e.Commit? then Update(e.op, w) else w
  }

  /** The index of a thread's last event, or -1. */
  function Last(h: seq<Event>, t: nat): (i: int)
    ensures -1 <= i < |h| && (i >= 0 ==> h[i].thread == t)
    ensures forall k :: i < k < |h| ==> h[k].thread != t
  {
    if h == [] then -1
    else if h[|h| - 1].thread == t then |h| - 1
    else Last(h[..|h| - 1], t)
  }

  function CommitsByOthers(h: seq<Event>, t: nat): nat {
    if h == [] then 0
    else
      var e := h[|h| - 1];
      CommitsByOthers(h[..|h| - 1], t) + if e.Commit? && e.thread != t then 1 else 0
  }

  /** One event follows from its thread's previous one, and a commit saw the value that the
      commits before it left. */
  predicate Follows(v: Word, h: seq<Event>, e: Event) {
    var i := Last(h, e.thread);
    match e
    case Invoke(_, _) => i >= 0 ==> h[i].Return?
    case Commit(t, op, before) => i >= 0 && h[i] == Invoke(t, op) && before == Replay(v, h)
    case Return(t, op, answer) => i >= 0 && h[i].Commit? && h[i].op == op && answer == Answer(op, h[i].before)
  }

  ghost predicate Consistent(v: Word, h: seq<Event>) {
    forall k :: 0 <= k < |h| ==> Follows(v, h[..k], h[k])
  }

  /** No other thread has taken effect since the history had length at. */
  predicate Quiet(h: seq<Event>, at: nat, t: nat)
    requires at <= |h|
  {
    CommitsByOthers(h[..at], t) == CommitsByOthers(h, t)
  }

  predicate LocalMatches(s: State, v: Word, t: nat)
    requires t < |s.locals| == |s.fails|
  {
    var h, i := s.hist, Last(s.hist, t);
    match s.locals[t]
    case Idle => i >= 0 ==> h[i].Return?
    case Reading(op) => i >= 0 && h[i] == Invoke(t, op)
    case HalfRead(op, high, half, at) =>
      && 0 <= i < at <= |h| && h[i] == Invoke(t, op)
      && (Quiet(h, at, t) ==> half == Load(Replay(v, h), high))
    case Ready(op, seen, at) =>
      && 0 <= i < at <= |h| && h[i] == Invoke(t, op)
      && (Quiet(h, at, t) ==> seen == Replay(v, h))
    case Done(op, seen) => i >= 0 && h[i] == Commit(t, op, seen)
  }

  /** A thread has failed no more often than others have succeeded before its present attempt. */
  predicate FailsCharged(s: State, t: nat)
    requires t < |s.locals| == |s.fails|
  {
    var l := s.locals[t];
    var h := if (l.Ready? || l.HalfRead?) && l.at <= |s.hist| then s.hist[..l.at] else s.hist;
    s.fails[t] <= CommitsByOthers(h, t)
  }

  ghost predicate Inv(s: State, v: Word) {
    && |s.locals| == |s.fails|
    && s.value == Replay(v, s.hist)
    && Consistent(v, s.hist)
    && (forall t: nat :: t < |s.locals| ==> LocalMatches(s, v, t))
    && (forall t: nat :: t < |s.locals| ==> FailsCharged(s, t))
  }

  // ----- one more event

  lemma Extend(v: Word, h: seq<Event>, e: Event, t: nat)
    ensures (h + [e])[..|h|] == h
    ensures Replay(v, h + [e]) == if e.Commit? then Update(e.op, Replay(v, h)) else Replay(v, h)
    ensures Last(h + [e], t) == if e.thread == t then |h| else Last(h, t)
    ensures CommitsByOthers(h + [e], t) == CommitsByOthers(h, t) + if e.Commit? && e.thread != t then 1 else 0
  {
    assert (h + [e])[..|h + [e]| - 1] == h;
  }

  lemma ConsistentExtend(v: Word, h: seq<Event>, e: Event)
    requires Consistent(v, h) && Follows(v, h, e)
    ensures Consistent(v, h + [e])
  {
    hide Follows;
    forall k | 0 <= k < |h + [e]| ensures Follows(v, (h + [e])[..k], (h + [e])[k]) {
      if k < |h| {
        assert (h + [e])[..k] == h[..k];
      } else {
        assert (h + [e])[..k] == h;
      }
    }
  }

  lemma LastIsLast(h: seq<Event>, t: nat)
    ensures forall k :: Last(h, t) < k < |h| ==> h[k].thread != t
  {}

  /** While a thread is silent, only commits of others change the value. */
  lemma {:induction false} OthersProgress(v: Word, h: seq<Event>, at: nat, t: nat)
    requires at <= |h| && forall k :: at <= k < |h| ==> h[k].thread != t
    ensures CommitsByOthers(h[..at], t) <= CommitsByOthers(h, t)
    ensures Replay(v, h[..at]) != Replay(v, h) ==> CommitsByOthers(h[..at], t) < CommitsByOthers(h, t)
    ensures Replay(v, h[..at]) != Replay(v, h) ==> exists c :: at <= c < |h| && h[c].Commit?
    decreases |h|
  {
    if at == |h| {
      assert h[..at] == h;
    } else {
      var g := h[..|h| - 1];
      OthersProgress(v, g, at, t);
      assert g[..at] == h[..at];
      if c :| at <= c < |g| && g[c].Commit? { assert h[c].Commit?; }
    }
  }

  // ----- every step keeps the invariant

  /** The other threads see nothing but a longer history. */
  lemma OthersUnmoved(s: State, s': State, v: Word, e: Event, t: nat)
    requires t < |s.locals| == |s.fails| && |s'.locals| == |s'.fails| == |s.locals|
    requires s'.locals[t] == s.locals[t] && s'.fails[t] == s.fails[t]
    requires s'.hist == s.hist + [e] && e.thread != t && LocalMatches(s, v, t)
    ensures LocalMatches(s', v, t)
    ensures FailsCharged(s, t) ==> FailsCharged(s', t)
  {
    hide Replay, Last, CommitsByOthers;
    Extend(v, s.hist, e, t);
    var l := s.locals[t];
    if l.Ready? || l.HalfRead? {
      assert s'.hist[..l.at] == s.hist[..l.at];
      LastIsLast(s.hist, t);
      OthersProgress(v, s.hist, l.at, t);
    }
  }

  lemma HistoryStep(s: State, s': State, v: Word, e: Event)
    requires Inv(s, v) && e.thread < |s.locals| && Follows(v, s.hist, e)
    requires s'.hist == s.hist + [e] && s'.fails == s.fails
    requires |s'.locals| == |s.locals|
    requires forall k: nat :: k < |s.locals| && k != e.thread ==> s'.locals[k] == s.locals[k]
    requires s'.value == if e.Commit? then Update(e.op, s.value) else s.value
    requires LocalMatches(s', v, e.thread) && FailsCharged(s', e.thread)
    ensures Inv(s', v)
  {
    hide Replay, Last, CommitsByOthers, Follows, LocalMatches, FailsCharged, Consistent;
    Extend(v, s.hist, e, e.thread);
    ConsistentExtend(v, s.hist, e);
    forall t: nat | t < |s'.locals| ensures LocalMatches(s', v, t) && FailsCharged(s', t) {
      if t != e.thread { OthersUnmoved(s, s', v, e, t); }
    }
  }

  lemma CallKeeps(s: State, step: Step, v: Word)
    requires Inv(s, v) && Enabled(s, step) && step.Call?
    ensures Inv(After(s, step), v)
  {
    hide Replay, Last, CommitsByOthers, Consistent;
    var e := Invoke(step.t, step.op);
    Extend(v, s.hist, e, step.t);
    assert LocalMatches(s, v, step.t);
    assert FailsCharged(s, step.t);
    HistoryStep(s, After(s, step), v, e);
  }

  lemma LeaveKeeps(s: State, step: Step, v: Word)
    requires Inv(s, v) && Enabled(s, step) && step.Leave?
    ensures Inv(After(s, step), v)
  {
    hide Replay, Last, CommitsByOthers, Consistent, Answer;
    var l := s.locals[step.t];
    var e := Return(step.t, l.op, Answer(l.op, l.seen));
    Extend(v, s.hist, e, step.t);
    assert LocalMatches(s, v, step.t);
    assert FailsCharged(s, step.t);
    HistoryStep(s, After(s, step), v, e);
  }

  lemma SwapKeeps(s: State, step: Step, v: Word)
    requires Inv(s, v) && Enabled(s, step) && step.CompareSwap? && s.value == s.locals[step.t].seen
    ensures Inv(After(s, step), v)
  {
    hide Replay, Last, CommitsByOthers, Consistent, Update;
    var l := s.locals[step.t];
    var e := Commit(step.t, l.op, l.seen);
    Extend(v, s.hist, e, step.t);
    assert LocalMatches(s, v, step.t);
    assert FailsCharged(s, step.t);
    LastIsLast(s.hist, step.t);
    OthersProgress(v, s.hist, l.at, step.t);
    HistoryStep(s, After(s, step), v, e);
  }

  /** Steps of one thread that record nothing. */
  lemma SilentStep(s: State, s': State, v: Word, t: nat)
    requires Inv(s, v) && t < |s.locals|
    requires s'.hist == s.hist && s'.value == s.value
    requires |s'.locals| == |s'.fails| == |s.locals|
    requires forall k: nat :: k < |s.locals| && k != t ==> s'.locals[k] == s.locals[k] && s'.fails[k] == s.fails[k]
    requires LocalMatches(s', v, t) && FailsCharged(s', t)
    ensures Inv(s', v)
  {
    hide Replay, Last, CommitsByOthers, Consistent;
    forall k: nat | k < |s'.locals| ensures LocalMatches(s', v, k) && FailsCharged(s', k) {
      if k != t { assert LocalMatches(s, v, k) && FailsCharged(s, k); }
    }
  }

  lemma TwoHalves(x: Word)
    ensures Pair(Load(x, true), Load(x, false)) == x
  {}

  lemma ReadKeeps(s: State, step: Step, v: Word)
    requires Inv(s, v) && Enabled(s, step) && (step.Read? || step.ReadHalf? || step.ReadRest?)
    ensures Inv(After(s, step), v)
  {
    hide Replay, Last, CommitsByOthers, Consistent, Load, Pair;
    assert LocalMatches(s, v, step.t);
    assert FailsCharged(s, step.t);
    assert s.hist[..|s.hist|] == s.hist;
    TwoHalves(s.value);
    SilentStep(s, After(s, step), v, step.t);
  }

  lemma FailedSwapKeeps(s: State, step: Step, v: Word)
    requires Inv(s, v) && Enabled(s, step) && step.CompareSwap? && s.value != s.locals[step.t].seen
    ensures Inv(After(s, step), v)
  {
    hide Replay, Last, CommitsByOthers, Consistent;
    assert LocalMatches(s, v, step.t);
    assert FailsCharged(s, step.t);
    LastIsLast(s.hist, step.t);
    OthersProgress(v, s.hist, s.locals[step.t].at, step.t);
    SilentStep(s, After(s, step), v, step.t);
  }

  lemma StepKeeps(s: State, step: Step, v: Word)
    requires Inv(s, v) && Enabled(s, step)
    ensures Inv(After(s, step), v)
  {
    hide Inv, After;
    match step {
      case Call(_, _) => CallKeeps(s, step, v);
      case Leave(_) => LeaveKeeps(s, step, v);
      case CompareSwap(_) =>
        if s.value == s.locals[step.t].seen { SwapKeeps(s, step, v); } else { FailedSwapKeeps(s, step, v); }
      case _ => ReadKeeps(s, step, v);
    }
  }

  lemma {:induction false} RunKeeps(s: State, steps: seq<Step>, s': State, v: Word)
    requires Inv(s, v) && IsRun(s, steps, s')
    ensures Inv(s', v)
    decreases steps
  {
    if steps == [] {
    } else {
      StepKeeps(s, steps[0], v);
      RunKeeps(After(s, steps[0]), steps[1..], s', v);
    }
  }

  lemma InitInv(v: Word, n: nat)
    ensures Inv(Init(v, n), v)
  {}

  // ----- what every run has

  /** The events of one call: between its invocation and its return it takes effect once, on the
      value left by the calls that took effect before it, and answers from that value. */
  ghost predicate IsCall(v: Word, h: seq<Event>, i: nat, c: nat, r: nat) {
    && i < c < r < |h| && h[i].Invoke? && h[c].Commit? && h[r].Return?
    && h[i].thread == h[c].thread == h[r].thread && h[i].op == h[c].op == h[r].op
    && h[c].before == Replay(v, h[..c]) && h[r].answer == Answer(h[c].op, h[c].before)
    && forall k :: i < k < r && k != c ==> h[k].thread != h[c].thread
  }

  lemma CallOfReturn(v: Word, h: seq<Event>, r: nat)
    requires Consistent(v, h) && r < |h| && h[r].Return?
    ensures exists i, c :: IsCall(v, h, i, c, r)
  {
    hide Replay, Answer;
    var t := h[r].thread;
    assert Follows(v, h[..r], h[r]);
    var c := Last(h[..r], t);
    assert h[..r][c] == h[c];
    assert Follows(v, h[..c], h[c]);
    var i := Last(h[..c], t);
    assert h[..c][i] == h[i];
    forall k | i < k < r && k != c ensures h[k].thread != t {
      if k < c { assert h[..c][k] == h[k]; } else { assert h[..r][k] == h[k]; }
    }
    assert IsCall(v, h, i, c, r);
  }

  /** Every run is linearizable: the value is what the calls make of it in the order they took
      effect, and every answer is right for that order. */
  lemma Linearizable(v: Word, n: nat, steps: seq<Step>, s: State)
    requires IsRun(Init(v, n), steps, s)
    ensures s.value == Replay(v, s.hist)
    ensures forall r: nat :: r < |s.hist| && s.hist[r].Return? ==> exists i, c :: IsCall(v, s.hist, i, c, r)
  {
    hide Consistent, IsCall, Replay, LocalMatches, FailsCharged;
    InitInv(v, n);
    RunKeeps(Init(v, n), steps, s, v);
    forall r: nat | r < |s.hist| && s.hist[r].Return? ensures exists i, c :: IsCall(v, s.hist, i, c, r) {
      CallOfReturn(v, s.hist, r);
    }
  }

  /** The answer of a call is the value just before it took effect, or for the two counters the
      value just after. */
  lemma AnswerIsValue(v: Word, h: seq<Event>, i: nat, c: nat, r: nat)
    requires IsCall(v, h, i, c, r)
    ensures h[r].answer == Replay(v, if h[c].op.Increment? || h[c].op.Decrement? then h[..c + 1] else h[..c])
  {
    hide Update;
    assert h[..c + 1] == h[..c] + [h[c]];
    Extend(v, h[..c], h[c], h[c].thread);
  }

  /** The value before a call took effect and the value after it, operation by operation. */
  lemma EffectOfCall(v: Word, h: seq<Event>, i: nat, c: nat, r: nat)
    requires IsCall(v, h, i, c, r)
    ensures var x, y := Replay(v, h[..c]), Replay(v, h[..c + 1]);
            match h[c].op
            case AndWith(w) => forall k: nat :: Bit(y, k) <==> Bit(x, k) && Bit(w, k)
            case OrWith(w) => forall k: nat :: Bit(y, k) <==> Bit(x, k) || Bit(w, k)
            case XorWith(w) => forall k: nat :: Bit(y, k) <==> Bit(x, k) != Bit(w, k)
            case Increment => y == (x + 1) % W64
            case Decrement => y == (x - 1) % W64
            case Exchange(w) => y == w
            case ExchangeAdd(w) => y == (x + w) % W64
  {
    assert h[..c + 1] == h[..c] + [h[c]];
    Extend(v, h[..c], h[c], h[c].thread);
    var x, op := Replay(v, h[..c]), h[c].op;
    hide Replay, Bit, BitAnd, BitOr, BitXor;
    if op.AndWith? || op.OrWith? || op.XorWith? {
      forall k: nat
        ensures Bit(BitAnd(x, op.v), k) <==> Bit(x, k) && Bit(op.v, k)
        ensures Bit(BitOr(x, op.v), k) <==> Bit(x, k) || Bit(op.v, k)
        ensures Bit(BitXor(x, op.v), k) <==> Bit(x, k) != Bit(op.v, k)
      {
        UpdateBits(x, op.v, k);
      }
    }
  }

  /** Words with the same bits are the same, so the bits of a result determine it. */
  lemma {:induction false} BitsDecide(x: nat, y: nat, n: nat)
    requires x < Pow2(n) && y < Pow2(n) && forall k: nat :: Bit(x, k) <==> Bit(y, k)
    ensures x == y
    decreases n
  {
    if n == 0 {
    } else {
      assert Bit(x, 0) <==> Bit(y, 0);
      forall k: nat ensures Bit(x / 2, k) <==> Bit(y / 2, k) {
        BitStep(x, k + 1);
        BitStep(y, k + 1);
        assert Bit(x, k + 1) <==> Bit(y, k + 1);
      }
      BitsDecide(x / 2, y / 2, n - 1);
    }
  }

  lemma Undisturbed(v: Word, h: seq<Event>, i: nat, c: nat, r: nat, k: nat)
    requires IsCall(v, h, i, c, r) && i < k < r && k != c
    ensures h[k].thread != h[c].thread
  {}

  /** That order respects real time, and no effect is answered for twice. */
  lemma EffectOrder(v: Word, h: seq<Event>, i: nat, c: nat, r: nat, i': nat, c': nat, r': nat)
    requires IsCall(v, h, i, c, r) && IsCall(v, h, i', c', r')
    ensures r < i' ==> c < c'
    ensures c == c' <==> r == r'
    ensures c == c' <==> i == i'
  {
    if c == c' && r < r' { Undisturbed(v, h, i', c', r', r); }
    if c == c' && r' < r { Undisturbed(v, h, i, c, r, r'); }
    if c == c' && i < i' { Undisturbed(v, h, i, c, r, i'); }
    if c == c' && i' < i { Undisturbed(v, h, i', c', r', i); }
    if r == r' && c < c' { Undisturbed(v, h, i, c, r, c'); }
    if r == r' && c' < c { Undisturbed(v, h, i', c', r', c); }
    if i == i' && c < c' { Undisturbed(v, h, i', c', r', c); }
    if i == i' && c' < c { Undisturbed(v, h, i, c, r, c'); }
  }

  /** A swap fails only because another thread has taken effect since this attempt's first load,
      even where that load got only half of the value. */
  lemma FailedSwap(v: Word, n: nat, steps: seq<Step>, s: State, t: nat)
    requires IsRun(Init(v, n), steps, s) && t < |s.locals| && s.locals[t].Ready? && s.value != s.locals[t].seen
    ensures exists c :: s.locals[t].at <= c < |s.hist| && s.hist[c].Commit? && s.hist[c].thread != t
  {
    hide Consistent, Replay, FailsCharged, CommitsByOthers;
    InitInv(v, n);
    RunKeeps(Init(v, n), steps, s, v);
    assert LocalMatches(s, v, t);
    var at := s.locals[t].at;
    LastIsLast(s.hist, t);
    OthersCommitted(s.hist, at, t);
  }

  lemma {:induction false} OthersCommitted(h: seq<Event>, at: nat, t: nat)
    requires at <= |h| && !Quiet(h, at, t)
    ensures exists c :: at <= c < |h| && h[c].Commit? && h[c].thread != t
    decreases |h|
  {
    assert at < |h| by { assert h[..|h|] == h; }
    var g := h[..|h| - 1];
    assert g[..at] == h[..at];
    if h[|h| - 1].Commit? && h[|h| - 1].thread != t {
    } else {
      OthersCommitted(g, at, t);
      var c :| at <= c < |g| && g[c].Commit? && g[c].thread != t;
      assert h[c].Commit? && h[c].thread != t;
    }
  }

  /** So the loops are lock-free: a thread retries at most once for every effect of the others. */
  lemma RetriesBounded(v: Word, n: nat, steps: seq<Step>, s: State, t: nat)
    requires IsRun(Init(v, n), steps, s) && t < n
    ensures |s.fails| == n && s.fails[t] <= CommitsByOthers(s.hist, t)
  {
    hide Consistent, Replay, CommitsByOthers;
    InitInv(v, n);
    RunKeeps(Init(v, n), steps, s, v);
    RunThreads(Init(v, n), steps, s);
    assert FailsCharged(s, t) && LocalMatches(s, v, t);
    var l := s.locals[t];
    if l.Ready? || l.HalfRead? {
      LastIsLast(s.hist, t);
      OthersProgress(v, s.hist, l.at, t);
    }
  }

  lemma {:induction false} RunThreads(s: State, steps: seq<Step>, s': State)
    requires IsRun(s, steps, s') && |s.locals| == |s.fails|
    ensures |s'.locals| == |s.locals| == |s'.fails|
    decreases steps
  {
    if steps == [] {
    } else {
      RunThreads(After(s, steps[0]), steps[1..], s');
    }
  }

  // ----- a thread by itself

  /** What the thread has seen of the value is still so. */
  predicate Fresh(s: State, t: nat)
    requires t < |s.locals|
  {
    match s.locals[t]
    case HalfRead(_, high, half, _) => half == Load(s.value, high)
    case Ready(_, seen, _) => seen == s.value
    case _ => true
  }

  /** How many steps it may take before it is outside. */
  function Left(s: State, t: nat): nat
    requires t < |s.locals|
  {
    match s.locals[t]
    case Idle => 0
    case Done(_, _) => 1
    case Reading(_) => 4
    case HalfRead(_, _, _, _) => if Fresh(s, t) then 3 else 6
    case Ready(_, _, _) => if Fresh(s, t) then 2 else 5
  }

  /** What a thread that began to read in state s, and has been alone since, has done. */
  predicate DoneAlone(s: State, s': State, t: nat, op: Op)
    requires t < |s.locals| && t < |s'.locals|
  {
    && Fresh(s', t) && s'.fails == s.fails
    && match s'.locals[t]
       case Idle =>
         && s'.value == Update(op, s.value)
         && s'.hist == s.hist + [Commit(t, op, s.value), Return(t, op, Answer(op, s.value))]
       case Done(op', seen) =>
         op' == op && seen == s.value && s'.value == Update(op, s.value) && s'.hist == s.hist + [Commit(t, op, s.value)]
       case l => l.op == op && s'.value == s.value && s'.hist == s.hist
  }

  predicate Alone(steps: seq<Step>, t: nat) {
    forall k :: 0 <= k < |steps| ==> steps[k].t == t && !steps[k].Call?
  }

  /** A step of the thread's own never makes what it has seen stale, and brings it closer to its return. */
  lemma AloneStep(s: State, step: Step)
    requires Enabled(s, step) && !step.Call?
    ensures var s' := After(s, step);
            && |s'.locals| == |s'.fails| == |s.locals| && Left(s', step.t) < Left(s, step.t) <= 6
            && (Fresh(s, step.t) ==> Fresh(s', step.t) && s'.fails == s.fails)
            && s'.fails[step.t] <= s.fails[step.t] + (if Fresh(s, step.t) then 0 else 1)
            && (step.CompareSwap? && !Fresh(s, step.t) ==> Fresh(s', step.t))
            && (!step.CompareSwap? && !Fresh(s, step.t) ==> s'.fails == s.fails)
  {
    hide Update, Answer;
    TwoHalves(s.value);
    if step.ReadRest? && !Fresh(s, step.t) {
      var l := s.locals[step.t];
      HalvesDiffer(s.value, l.highFirst, l.half);
    }
  }

  lemma HalvesDiffer(x: Word, high: bool, half: Word32)
    requires half != Load(x, high)
    ensures (if high then Pair(half, Load(x, !high)) else Pair(Load(x, !high), half)) != x
  {}

  lemma AloneKeeps(s0: State, s: State, step: Step, op: Op)
    requires Enabled(s, step) && !step.Call? && step.t < |s0.locals| && DoneAlone(s0, s, step.t, op)
    ensures DoneAlone(s0, After(s, step), step.t, op)
  {
    hide Update, Answer, Load, Pair;
    TwoHalves(s.value);
  }

  /** Whenever a thread is left alone it is back outside after six steps or fewer, in which it fails
      at most once; and until then it has a step to take. */
  lemma {:induction false} AloneReturns(s: State, steps: seq<Step>, s': State, t: nat)
    requires IsRun(s, steps, s') && Alone(steps, t) && t < |s.locals| == |s.fails|
    ensures |s'.locals| == |s'.fails| == |s.locals|
    ensures |steps| + Left(s', t) <= Left(s, t) <= 6
    ensures s'.fails[t] <= s.fails[t] + if Fresh(s, t) then 0 else 1
    ensures !s'.locals[t].Idle? ==> exists step: Step :: step.t == t && !step.Call? && Enabled(s', step)
    decreases steps
  {
    if steps == [] {
      hide Left, Fresh;
      NextAlone(s, t);
    } else {
      AloneStep(s, steps[0]);
      assert forall k :: 0 <= k < |steps[1..]| ==> steps[1..][k] == steps[k + 1];
      hide After, Fresh, Left;
      AloneReturns(After(s, steps[0]), steps[1..], s', t);
    }
  }

  lemma NextAlone(s: State, t: nat)
    requires t < |s.locals| == |s.fails|
    ensures Left(s, t) <= 6
    ensures !s.locals[t].Idle? ==> exists step: Step :: step.t == t && !step.Call? && Enabled(s, step)
  {
    match s.locals[t] {
      case Idle =>
      case Reading(_) => assert Enabled(s, Read(t));
      case HalfRead(_, _, _, _) => assert Enabled(s, ReadRest(t));
      case Ready(_, _, _) => assert Enabled(s, CompareSwap(t));
      case Done(_, _) => assert Enabled(s, Leave(t));
    }
  }

  lemma {:induction false} AloneSucceeds(s0: State, s: State, steps: seq<Step>, s': State, t: nat, op: Op)
    requires IsRun(s, steps, s') && Alone(steps, t) && t < |s.locals| == |s.fails| && t < |s0.locals|
    requires DoneAlone(s0, s, t, op)
    ensures t < |s'.locals| && DoneAlone(s0, s', t, op)
    decreases steps
  {
    if steps == [] {
    } else {
      AloneStep(s, steps[0]);
      AloneKeeps(s0, s, steps[0], op);
      assert forall k :: 0 <= k < |steps[1..]| ==> steps[1..][k] == steps[k + 1];
      hide After, Fresh, Left, DoneAlone;
      AloneSucceeds(s0, After(s, steps[0]), steps[1..], s', t, op);
    }
  }

  /** One that is left alone when it begins to read succeeds at its first attempt, within four steps. */
  lemma FirstAttempt(s: State, steps: seq<Step>, s': State, t: nat)
    requires IsRun(s, steps, s') && Alone(steps, t) && t < |s.locals| == |s.fails| && s.locals[t].Reading?
    ensures t < |s'.locals| && |steps| <= 4 && s'.fails == s.fails
    ensures |steps| == 4 ==> s'.locals[t].Idle?
    ensures s'.locals[t].Idle? ==>
              var op := s.locals[t].op;
              && s'.value == Update(op, s.value)
              && s'.hist == s.hist + [Commit(t, op, s.value), Return(t, op, Answer(op, s.value))]
  {
    AloneReturns(s, steps, s', t);
    AloneSucceeds(s, s, steps, s', t, s.locals[t].op);
    hide Update, Answer;
  }

  /** A swap that sees the value it has read takes effect. */
  lemma SwapTakesEffect(s: State, t: nat)
    requires Enabled(s, CompareSwap(t)) && Fresh(s, t)
    ensures var l, s' := s.locals[t], After(s, CompareSwap(t));
            && s'.locals[t] == Done(l.op, s.value) && s'.hist == s.hist + [Commit(t, l.op, s.value)]
            && s'.value == Update(l.op, s.value)
  {
    hide Update;
  }

  // ----- counters

  /** What an addition adds. */
  function Delta(op: Op): int {
    match op
    case Increment => 1
    case Decrement => -1
    case ExchangeAdd(v) => v
    case _ => 0
  }

  predicate Adds(op: Op) { op.Increment? || op.Decrement? || op.ExchangeAdd? }

  /** What the committed additions sum to. */
  function Sum(h: seq<Event>): int {
    if h == [] then 0
    else
      var e := h[|h| - 1];
      Sum(h[..|h| - 1]) + if e.Commit? then Delta(e.op) else 0
  }

  lemma AddsDelta(op: Op, x: int)
    requires Adds(op)
    ensures Update(op, x % W64) == (x + Delta(op)) % W64
  {
    ModShift(x, Delta(op), W64);
  }

  /** Additions by any threads in any order: nothing is lost. */
  lemma {:induction false} NothingLost(v: Word, h: seq<Event>)
    requires forall k :: 0 <= k < |h| && h[k].Commit? ==> Adds(h[k].op)
    ensures Replay(v, h) == (v + Sum(h)) % W64
    decreases |h|
  {
    if h == [] {
    } else {
      hide Update, Adds, Delta;
      var g, e := h[..|h| - 1], h[|h| - 1];
      assert forall k :: 0 <= k < |g| ==> g[k] == h[k];
      NothingLost(v, g);
      if e.Commit? { AddsDelta(e.op, v + Sum(g)); }
    }
  }
}
