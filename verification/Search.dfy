/** The search for a target by arithmetic on a table of numbers (examples/ex2.c:13-65). */
module Search {
  import opened Words32

  const N: nat := 20

  // ----- the steps that may be taken

  datatype Entry = Entry(x: int, op: char, y: int, r: int)

  datatype Move = Move(i: nat, j: nat, e: Entry)

  /** An operation with its result; division truncates. */
  predicate IsOperation(e: Entry) {
    match e.op
    case '+' => e.r == e.x + e.y
    case '-' => e.r == e.x - e.y
    case '*' => e.r == e.x * e.y
    case '/' => e.y != 0 && e.r == TruncQuot(e.x, e.y)
    case _ => false
  }

  /** An operation on two non-zero entries, in either order. */
  predicate IsStep(t: seq<int>, nb: nat, m: Move) {
    && m.i < m.j < nb <= |t| && t[m.i] != 0 && t[m.j] != 0 && IsOperation(m.e)
    && ((m.e.x == t[m.i] && m.e.y == t[m.j]) || (m.e.x == t[m.j] && m.e.y == t[m.i]))
  }

  /** The result replaces the first operand and the second is used up. */
  function Next(t: seq<int>, m: Move): seq<int>
    requires m.i < |t| && m.j < |t|
  {
    t[m.i := m.e.r][m.j := 0]
  }

  predicate IsRun(t: seq<int>, nb: nat, ms: seq<Move>)
    decreases ms
  {
    ms == [] || (IsStep(t, nb, ms[0]) && IsRun(Next(t, ms[0]), nb, ms[1..]))
  }

  predicate Produces(t: seq<int>, nb: nat, ms: seq<Move>, goal: int) {
    ms != [] && IsRun(t, nb, ms) && ms[|ms| - 1].e.r == goal
  }

  ghost predicate Reachable(t: seq<int>, nb: nat, goal: int) {
    exists ms :: Produces(t, nb, ms, goal)
  }

  function Entries(ms: seq<Move>): (es: seq<Entry>)
    ensures |es| == |ms| && forall k :: 0 <= k < |ms| ==> es[k] == ms[k].e
  {
    seq(|ms|, k requires 0 <= k < |ms| => ms[k].e)
  }

  /** A first move that leads to the goal, at once or later. */
  ghost predicate Leads(t: seq<int>, nb: nat, m: Move, goal: int) {
    IsStep(t, nb, m) && (m.e.r == goal || Reachable(Next(t, m), nb, goal))
  }

  lemma ReachableByFirst(t: seq<int>, nb: nat, goal: int)
    ensures Reachable(t, nb, goal) <==> exists m :: Leads(t, nb, m, goal)
  {
    if Reachable(t, nb, goal) {
      var ms :| Produces(t, nb, ms, goal);
      if |ms| > 1 {
        assert Produces(Next(t, ms[0]), nb, ms[1..], goal);
      }
      assert Leads(t, nb, ms[0], goal);
    }
    if m :| Leads(t, nb, m, goal) {
      if m.e.r == goal {
        assert Produces(t, nb, [m], goal);
      } else {
        var ms :| Produces(Next(t, m), nb, ms, goal);
        PrependMove(t, nb, m, ms, goal);
      }
    }
  }

  lemma PrependMove(t: seq<int>, nb: nat, m: Move, ms: seq<Move>, goal: int)
    requires IsStep(t, nb, m) && IsRun(Next(t, m), nb, ms)
    requires if ms == [] then m.e.r == goal else ms[|ms| - 1].e.r == goal
    ensures Produces(t, nb, [m] + ms, goal)
    ensures Entries([m] + ms) == [m.e] + Entries(ms)
  {
    assert ([m] + ms)[1..] == ms;
  }

  lemma NoMoves(t: seq<int>, nb: nat)
    ensures IsRun(t, nb, []) && Entries([]) == []
  {}

  /** Only the first nb places matter. */
  lemma {:induction false} RunPrefix(t: seq<int>, u: seq<int>, nb: nat, ms: seq<Move>)
    requires nb <= |t| && nb <= |u| && t[..nb] == u[..nb]
    ensures IsRun(t, nb, ms) <==> IsRun(u, nb, ms)
    decreases ms
  {
    if ms == [] {
    } else {
      assert forall k :: 0 <= k < nb ==> t[k] == t[..nb][k] && u[k] == u[..nb][k];
      if IsStep(t, nb, ms[0]) {
        assert Next(t, ms[0])[..nb] == Next(u, ms[0])[..nb];
        RunPrefix(Next(t, ms[0]), Next(u, ms[0]), nb, ms[1..]);
      }
    }
  }

  lemma ReachablePrefix(t: seq<int>, u: seq<int>, nb: nat, goal: int)
    requires nb <= |t| && nb <= |u| && t[..nb] == u[..nb]
    ensures Reachable(t, nb, goal) ==> Reachable(u, nb, goal)
  {
    if ms :| Produces(t, nb, ms, goal) {
      RunPrefix(t, u, nb, ms);
      assert Produces(u, nb, ms, goal);
    }
  }

  // ----- every step uses up a number

  function Count(t: seq<int>, nb: nat): nat
    requires nb <= |t|
  {
    if nb == 0 then 0 else Count(t, nb - 1) + if t[nb - 1] != 0 then 1 else 0
  }

  lemma {:induction false} CountUpdate(t: seq<int>, nb: nat, i: nat, v: int)
    requires i < |t| && nb <= |t|
    ensures Count(t[i := v], nb) == Count(t, nb) +
            if i < nb then (if v != 0 then 1 else 0) - (if t[i] != 0 then 1 else 0) else 0
  {
    if nb == 0 {
    } else {
      CountUpdate(t, nb - 1, i, v);
    }
  }

  lemma {:induction false} CountBound(t: seq<int>, nb: nat)
    requires nb <= |t|
    ensures Count(t, nb) <= nb
  {
    if nb == 0 {
    } else {
      CountBound(t, nb - 1);
    }
  }

  lemma StepCount(t: seq<int>, nb: nat, m: Move)
    requires IsStep(t, nb, m)
    ensures Count(Next(t, m), nb) < Count(t, nb)
  {
    CountUpdate(t, nb, m.i, m.e.r);
    CountUpdate(t[m.i := m.e.r], nb, m.j, 0);
  }

  /** No run is as long as the table has numbers. */
  lemma {:induction false} RunIsShort(t: seq<int>, nb: nat, ms: seq<Move>)
    requires IsRun(t, nb, ms) && ms != []
    ensures nb <= |t| && |ms| < Count(t, nb)
    decreases ms
  {
    StepCount(t, nb, ms[0]);
    CountUpdate(t, nb, ms[0].i, 1);
    if |ms| > 1 {
      RunIsShort(Next(t, ms[0]), nb, ms[1..]);
    } else {
      TwoNumbers(t, nb, ms[0].i, ms[0].j);
    }
  }

  lemma TwoNumbers(t: seq<int>, nb: nat, i: nat, j: nat)
    requires i < j < nb <= |t| && t[i] != 0 && t[j] != 0
    ensures Count(t, nb) >= 2
  {
    CountUpdate(t, nb, i, 0);
    CountUpdate(t[i := 0], nb, j, 0);
  }

  // ----- the trace arrays

  function TraceOf(res: seq<int>, ops: seq<char>, n: nat): (es: seq<Entry>)
    requires 3 * n <= |res| && n <= |ops|
    ensures |es| == n && forall k :: 0 <= k < n ==> es[k] == Entry(res[3 * k], ops[k], res[3 * k + 1], res[3 * k + 2])
  {
    seq(n, k requires 0 <= k < n => Entry(res[3 * k], ops[k], res[3 * k + 1], res[3 * k + 2]))
  }

  class Searcher {
    const nbNum: nat
    const result: int
    const tab: array<int>
    const stackOp: array<char>
    const stackRes: array<int>
    var stackPtr: int

    predicate Valid()
      reads this
    {
      && nbNum <= N == tab.Length && stackOp.Length == N && stackRes.Length == 3 * N
      && tab != stackRes && -1 <= stackPtr < N
    }

    /** The steps taken so far, oldest first. */
    function Trace(): seq<Entry>
      requires Valid()
      reads this, stackOp, stackRes
    {
      TraceOf(stackRes[..], stackOp[..], stackPtr + 1)
    }

    constructor (target: int, numbers: seq<int>)
      requires |numbers| <= N
      ensures Valid() && fresh(tab) && fresh(stackOp) && fresh(stackRes) && stackPtr == -1
      ensures nbNum == |numbers| && result == target && tab[..nbNum] == numbers
    {
      nbNum := |numbers|;
      result := target;
      tab := new int[N](k => if 0 <= k < |numbers| then numbers[k] else 0);
      stackOp := new char[N];
      stackRes := new int[3 * N];
      stackPtr := -1;
    }

    /** The table a call of find searches from, and the trace that led to it. */
    function Start(n: int, i1: nat): seq<int>
      requires Valid() && (stackPtr >= 0 ==> i1 < nbNum)
      reads this, tab
    {
      if stackPtr >= 0 then tab[..][i1 := n] else tab[..]
    }

    function Base(e: Entry): seq<Entry>
      requires Valid()
      reads this, stackOp, stackRes
    {
      if stackPtr >= 0 then TraceOf(stackRes[..], stackOp[..], stackPtr) + [e] else []
    }

    /** The trace entry of a call. */
    method Record(n: int, a: int, b: int, op: char)
      requires Valid() && stackPtr >= 0
      modifies stackOp, stackRes
      ensures Trace() == old(Base(Entry(a, op, b, n)))
    {
      stackRes[3 * stackPtr] := a;
      stackOp[stackPtr] := op;
      stackRes[3 * stackPtr + 1] := b;
      stackRes[3 * stackPtr + 2] := n;
    }

    /** find succeeds exactly if the target is the given result or some run of steps produces it.
        Then the trace records such a run; otherwise the table is back as it was. */
    method Find(n: int, i1: nat, a: int, b: int, op: char) returns (found: bool, ghost moves: seq<Move>)
      requires Valid() && (stackPtr >= 0 ==> i1 < nbNum)
      requires stackPtr + 1 + Count(Start(n, i1), nbNum) <= nbNum
      modifies `stackPtr, tab, stackOp, stackRes
      decreases Count(Start(n, i1), nbNum), 2
      ensures Valid()
      ensures var t := old(Start(n, i1));
              && (found ==> IsRun(t, nbNum, moves) && Trace() == old(Base(Entry(a, op, b, n))) + Entries(moves))
              && (found ==> if moves == [] then old(stackPtr) >= 0 && n == result else moves[|moves| - 1].e.r == result)
              && (!found ==> tab[..] == t && stackPtr == old(stackPtr) && Trace() == old(Base(Entry(a, op, b, n))))
              && (!found ==> (old(stackPtr) >= 0 ==> n != result) && !Reachable(t, nbNum, result))
    {
      hide IsOperation, IsRun, Reachable, Count, TraceOf, Entries, TruncQuot;
      found, moves := false, [];
      ghost var t, base := Start(n, i1), Base(Entry(a, op, b, n));
      NoMoves(t, nbNum);
      if stackPtr >= 0 {
        Record(n, a, b, op);
        if n == result {
          return true, [];
        }
        tab[i1] := n;
      }
      ghost var sp := stackPtr;
      var i := 0;
      while i < nbNum
        invariant 0 <= i <= nbNum && Valid()
        invariant tab[..] == t && stackPtr == sp && Trace() == base
        invariant forall m: Move :: Leads(t, nbNum, m, result) ==> m.i >= i
      {
        var j := i + 1;
        while j < nbNum
          invariant i < j <= nbNum && Valid()
          invariant tab[..] == t && stackPtr == sp && Trace() == base
          invariant forall m: Move :: Leads(t, nbNum, m, result) ==> m.i > i || (m.i == i && m.j >= j)
        {
          if tab[i] != 0 && tab[j] != 0 {
            found, moves := TryPair(i, j);
            if found {
              return;
            }
          }
          j := j + 1;
        }
        i := i + 1;
      }
      ReachableByFirst(t, nbNum, result);
    }

    /** The body of the innermost loop: every operation on one pair. */
    method TryPair(i: nat, j: nat) returns (found: bool, ghost moves: seq<Move>)
      requires Valid() && i < j < nbNum && tab[i] != 0 && tab[j] != 0
      requires stackPtr + 1 + Count(tab[..], nbNum) <= nbNum
      modifies `stackPtr, tab, stackOp, stackRes
      decreases Count(tab[..], nbNum), 1
      ensures Valid()
      ensures var t := old(tab[..]);
              && (found ==> Produces(t, nbNum, moves, result) && Trace() == old(Trace()) + Entries(moves))
              && (!found ==> tab[..] == t && stackPtr == old(stackPtr) && Trace() == old(Trace()))
              && (!found ==> forall m: Move :: m.i == i && m.j == j ==> !Leads(t, nbNum, m, result))
    {
      hide IsRun, Produces, Reachable, Count, TraceOf, Entries, TruncQuot, Leads;
      var a, b := tab[i], tab[j];
      ghost var t, base, sp := tab[..], Trace(), stackPtr;
      TwoNumbers(t, nbNum, i, j);
      tab[j] := 0;
      stackPtr := stackPtr + 1;
      found, moves := Attempt(i, j, Entry(a, '+', b, a + b), t, base);
      if found { return; }
      found, moves := Attempt(i, j, Entry(a, '-', b, a - b), t, base);
      if found { return; }
      found, moves := Attempt(i, j, Entry(b, '-', a, b - a), t, base);
      if found { return; }
      found, moves := Attempt(i, j, Entry(a, '*', b, a * b), t, base);
      if found { return; }
      if b != 0 {
        found, moves := Attempt(i, j, Entry(a, '/', b, TruncQuot(a, b)), t, base);
        if found { return; }
      }
      if a != 0 {
        found, moves := Attempt(i, j, Entry(b, '/', a, TruncQuot(b, a)), t, base);
        if found { return; }
      }
      AllTried(t, nbNum, i, j, result);
      stackPtr := stackPtr - 1;
      tab[i] := a;
      tab[j] := b;
    }

    /** One call of find from the loop body, with its test. */
    method Attempt(i: nat, j: nat, e: Entry, ghost t: seq<int>, ghost base: seq<Entry>)
        returns (found: bool, ghost moves: seq<Move>)
      requires Valid() && IsStep(t, nbNum, Move(i, j, e)) && |t| == N
      requires stackPtr >= 0 && stackPtr + Count(t, nbNum) <= nbNum
      requires tab[..] == t[i := tab[i]][j := 0] && TraceOf(stackRes[..], stackOp[..], stackPtr) == base
      modifies `stackPtr, tab, stackOp, stackRes
      decreases Count(t, nbNum), 0
      ensures Valid()
      ensures found ==> Produces(t, nbNum, moves, result) && Trace() == base + Entries(moves)
      ensures !found ==> stackPtr == old(stackPtr) && tab[..] == t[i := tab[i]][j := 0]
      ensures !found ==> TraceOf(stackRes[..], stackOp[..], stackPtr) == base
      ensures !found ==> !Leads(t, nbNum, Move(i, j, e), result)
    {
      hide IsOperation, IsRun, Produces, Reachable, Count, TraceOf, Entries;
      ghost var m := Move(i, j, e);
      StepCount(t, nbNum, m);
      assert Start(e.r, i) == Next(t, m);
      found, moves := Find(e.r, i, e.x, e.y, e.op);
      if found {
        PrependMove(t, nbNum, m, moves, result);
        moves := [m] + moves;
      } else {
        TraceDropLast(stackRes[..], stackOp[..], stackPtr);
      }
    }
  }

  /** The whole program: the answer is yes exactly if the numbers can produce the target, and what
      is listed is a run that does. */
  method Solve(target: int, numbers: seq<int>) returns (found: bool, steps: seq<Entry>)
    requires |numbers| <= N
    ensures found <==> Reachable(numbers, |numbers|, target)
    ensures found ==> exists moves: seq<Move> :: Produces(numbers, |numbers|, moves, target) && steps == Entries(moves)
  {
    hide IsStep, Entries, TraceOf;
    var s := new Searcher(target, numbers);
    ghost var t, moves := s.tab[..], [];
    CountBound(t, |numbers|);
    assert t[..|numbers|] == numbers == numbers[..|numbers|];
    found, moves := s.Find(0, 0, 0, 0, ' ');
    steps := s.Trace();
    if found {
      RunPrefix(t, numbers, |numbers|, moves);
      assert Produces(numbers, |numbers|, moves, target);
    } else {
      ReachablePrefix(numbers, t, |numbers|, target);
    }
  }

  lemma TraceDropLast(res: seq<int>, ops: seq<char>, n: nat)
    requires 3 * n + 3 <= |res| && n + 1 <= |ops|
    ensures TraceOf(res, ops, n + 1)[..n] == TraceOf(res, ops, n)
  {}

  /** The six attempts cover every operation on the pair. */
  lemma AllTried(t: seq<int>, nb: nat, i: nat, j: nat, goal: int)
    requires i < j < nb <= |t| && t[i] != 0 && t[j] != 0
    requires var a, b := t[i], t[j];
             && !Leads(t, nb, Move(i, j, Entry(a, '+', b, a + b)), goal)
             && !Leads(t, nb, Move(i, j, Entry(a, '-', b, a - b)), goal)
             && !Leads(t, nb, Move(i, j, Entry(b, '-', a, b - a)), goal)
             && !Leads(t, nb, Move(i, j, Entry(a, '*', b, a * b)), goal)
             && !Leads(t, nb, Move(i, j, Entry(a, '/', b, TruncQuot(a, b))), goal)
             && !Leads(t, nb, Move(i, j, Entry(b, '/', a, TruncQuot(b, a))), goal)
    ensures forall m: Move :: m.i == i && m.j == j ==> !Leads(t, nb, m, goal)
  {
    hide Reachable, TruncQuot;
    var a, b := t[i], t[j];
    forall m: Move | m.i == i && m.j == j ensures !Leads(t, nb, m, goal) {
      var sum, product := Move(i, j, Entry(a, '+', b, a + b)), Move(i, j, Entry(a, '*', b, a * b));
      if m.e.op == '+' { assert Next(t, m) == Next(t, sum) || !IsStep(t, nb, m); }
      if m.e.op == '*' { assert Next(t, m) == Next(t, product) || !IsStep(t, nb, m); }
    }
  }
}
