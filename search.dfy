/** The exhaustive minimax search of portfolio/tictactoe/alphabeta.py: the value of
    a position with X maximising and O minimising, and the move that achieves it. */
module Search {
  import opened Rules

  datatype Option<T> = None | Some(value: T)

  /** Stand-ins for the source's -math.inf and math.inf: every score lies strictly
      between them. */
  const NegInf: int := -2
  const PosInf: int := 2

  function Max(a: int, b: int): int {
    if a >= b then a else b
  }

  function Min(a: int, b: int): int {
    if a <= b then a else b
  }

  /** Every listed action is an open cell of `b`. */
  predicate AllOpen(b: Board, ms: seq<Action>)
    requires Shaped(b)
  {
    forall k :: 0 <= k < |ms| ==> Open(b, ms[k])
  }

  // ---------------------------------------------------------------------------
  // Values of positions (alphabeta.py:148-165). The recursion ends because every
  // move fills one empty cell.

  /** The running maximum `v = max(v, x)` over `s`, starting from -infinity: the
      largest element of `s`, every element being a score. */
  function MaxOf(s: seq<int>): (r: int)
    requires forall k :: 0 <= k < |s| ==> -1 <= s[k] <= 1
    ensures s == [] ==> r == NegInf
    ensures s != [] ==> r in s
    ensures forall k :: 0 <= k < |s| ==> s[k] <= r
  {
    if s == [] then NegInf
    else
      var prefix := s[..|s| - 1];
      assert forall k :: 0 <= k < |s| - 1 ==> prefix[k] == s[k];
      assert forall x :: x in prefix ==> x in s;
      Max(MaxOf(prefix), s[|s| - 1])
  }

  /** The running minimum `v = min(v, x)` over `s`, starting from +infinity: the
      least element of `s`, every element being a score. */
  function MinOf(s: seq<int>): (r: int)
    requires forall k :: 0 <= k < |s| ==> -1 <= s[k] <= 1
    ensures s == [] ==> r == PosInf
    ensures s != [] ==> r in s
    ensures forall k :: 0 <= k < |s| ==> r <= s[k]
  {
    if s == [] then PosInf
    else
      var prefix := s[..|s| - 1];
      assert forall k :: 0 <= k < |s| - 1 ==> prefix[k] == s[k];
      assert forall x :: x in prefix ==> x in s;
      Min(MinOf(prefix), s[|s| - 1])
  }

  /** The value of `b` when X is to choose: the score of a finished game, otherwise
      the largest value among the positions O then faces. */
  function MaxValueOf(b: Board): (v: int)
    requires Shaped(b)
    ensures -1 <= v <= 1
    decreases CountBoard(b, Empty), 1
  {
    if Terminal(b) then Utility(b)
    else
      MovesAreEmptyCells(b);
      MaxOf(MinValues(b, Moves(b)))
  }

  /** The value of `b` when O is to choose. */
  function MinValueOf(b: Board): (v: int)
    requires Shaped(b)
    ensures -1 <= v <= 1
    decreases CountBoard(b, Empty), 1
  {
    if Terminal(b) then Utility(b)
    else
      MovesAreEmptyCells(b);
      MinOf(MaxValues(b, Moves(b)))
  }

  /** `min_value(result(board, action))` for each action of `ms`, in order. */
  function MinValues(b: Board, ms: seq<Action>): (vs: seq<int>)
    requires Shaped(b) && AllOpen(b, ms)
    ensures |vs| == |ms|
    ensures forall k :: 0 <= k < |vs| ==> -1 <= vs[k] <= 1
    decreases CountBoard(b, Empty), 0, |ms|
  {
    if ms == [] then []
    else
      var a := ms[|ms| - 1];
      PlayEffect(b, a);
      MinValues(b, ms[..|ms| - 1]) + [MinValueOf(Play(b, a))]
  }

  /** `max_value(result(board, action))` for each action of `ms`, in order. */
  function MaxValues(b: Board, ms: seq<Action>): (vs: seq<int>)
    requires Shaped(b) && AllOpen(b, ms)
    ensures |vs| == |ms|
    ensures forall k :: 0 <= k < |vs| ==> -1 <= vs[k] <= 1
    decreases CountBoard(b, Empty), 0, |ms|
  {
    if ms == [] then []
    else
      var a := ms[|ms| - 1];
      PlayEffect(b, a);
      MaxValues(b, ms[..|ms| - 1]) + [MaxValueOf(Play(b, a))]
  }

  lemma {:induction false} MinValuesAt(b: Board, ms: seq<Action>, k: int)
    requires Shaped(b) && AllOpen(b, ms) && 0 <= k < |ms|
    ensures MinValues(b, ms)[k] == MinValueOf(Play(b, ms[k]))
  {
    var n := |ms| - 1;
    if k < n {
      MinValuesAt(b, ms[..n], k);
    }
  }

  lemma {:induction false} MaxValuesAt(b: Board, ms: seq<Action>, k: int)
    requires Shaped(b) && AllOpen(b, ms) && 0 <= k < |ms|
    ensures MaxValues(b, ms)[k] == MaxValueOf(Play(b, ms[k]))
  {
    var n := |ms| - 1;
    if k < n {
      MaxValuesAt(b, ms[..n], k);
    }
  }

  /** On an unfinished board, X's value is the largest value, over all open cells,
      of the position O then faces; some open cell attains it. */
  lemma MaxValueIsBestReply(b: Board)
    requires Shaped(b) && !Terminal(b)
    ensures forall a :: Open(b, a) ==> MinValueOf(Play(b, a)) <= MaxValueOf(b)
    ensures exists a :: Open(b, a) && MinValueOf(Play(b, a)) == MaxValueOf(b)
  {
    var ms := Moves(b);
    MovesAreEmptyCells(b);
    var vs := MinValues(b, ms);
    forall a | Open(b, a) ensures MinValueOf(Play(b, a)) <= MaxValueOf(b) {
      var k :| 0 <= k < |ms| && ms[k] == a;
      MinValuesAt(b, ms, k);
    }
    var k :| 0 <= k < |vs| && vs[k] == MaxOf(vs);
    MinValuesAt(b, ms, k);
    assert Open(b, ms[k]);
  }

  /** On an unfinished board, O's value is the least value, over all open cells,
      of the position X then faces; some open cell attains it. */
  lemma MinValueIsBestReply(b: Board)
    requires Shaped(b) && !Terminal(b)
    ensures forall a :: Open(b, a) ==> MinValueOf(b) <= MaxValueOf(Play(b, a))
    ensures exists a :: Open(b, a) && MaxValueOf(Play(b, a)) == MinValueOf(b)
  {
    var ms := Moves(b);
    MovesAreEmptyCells(b);
    var vs := MaxValues(b, ms);
    forall a | Open(b, a) ensures MinValueOf(b) <= MaxValueOf(Play(b, a)) {
      var k :| 0 <= k < |ms| && ms[k] == a;
      MaxValuesAt(b, ms, k);
    }
    var k :| 0 <= k < |vs| && vs[k] == MinOf(vs);
    MaxValuesAt(b, ms, k);
    assert Open(b, ms[k]);
  }

  /** One more action extends the running maximum by one step. */
  lemma MaxStep(b: Board, ms: seq<Action>, k: int)
    requires Shaped(b) && AllOpen(b, ms) && 0 <= k < |ms|
    ensures MaxOf(MinValues(b, ms[..k + 1]))
         == Max(MaxOf(MinValues(b, ms[..k])), MinValueOf(Play(b, ms[k])))
  {
    assert ms[..k + 1][..k] == ms[..k];
    var s := MinValues(b, ms[..k + 1]);
    assert s[..k] == MinValues(b, ms[..k]);
  }

  /** One more action extends the running minimum by one step. */
  lemma MinStep(b: Board, ms: seq<Action>, k: int)
    requires Shaped(b) && AllOpen(b, ms) && 0 <= k < |ms|
    ensures MinOf(MaxValues(b, ms[..k + 1]))
         == Min(MinOf(MaxValues(b, ms[..k])), MaxValueOf(Play(b, ms[k])))
  {
    assert ms[..k + 1][..k] == ms[..k];
    var s := MaxValues(b, ms[..k + 1]);
    assert s[..k] == MaxValues(b, ms[..k]);
  }

  // ---------------------------------------------------------------------------
  // The source's loops

  /** `max_value`: the running maximum over the actions, recursing into `MinValue`. */
  method MaxValue(b: Board) returns (v: int)
    requires Shaped(b)
    ensures v == MaxValueOf(b)
    decreases CountBoard(b, Empty)
  {
    if Terminal(b) {
      return Utility(b);
    }
    v := NegInf;
    var acts := Actions(b);
    var moves := acts.moves;
    assert AllOpen(b, moves);
    for k := 0 to |moves|
      invariant v == MaxOf(MinValues(b, moves[..k]))
    {
      var child := Result(b, moves[k]);
      PlayEffect(b, moves[k]);
      var reply := MinValue(child.board);
      MaxStep(b, moves, k);
      v := Max(v, reply);
    }
    assert moves[..|moves|] == moves;
  }

  /** `min_value`: the running minimum over the actions, recursing into `MaxValue`. */
  method MinValue(b: Board) returns (v: int)
    requires Shaped(b)
    ensures v == MinValueOf(b)
    decreases CountBoard(b, Empty)
  {
    if Terminal(b) {
      return Utility(b);
    }
    v := PosInf;
    var acts := Actions(b);
    var moves := acts.moves;
    assert AllOpen(b, moves);
    for k := 0 to |moves|
      invariant v == MinOf(MaxValues(b, moves[..k]))
    {
      var child := Result(b, moves[k]);
      PlayEffect(b, moves[k]);
      var reply := MaxValue(child.board);
      MinStep(b, moves, k);
      v := Min(v, reply);
    }
    assert moves[..|moves|] == moves;
  }

  /** `minimax`: None on a finished game; otherwise an open cell whose resulting
      position has the best value for the player to move: X takes a move of
      greatest `min_value`, O one of least `max_value`. Which of several equally
      good moves comes back is not stated. The two branches of the source are
      BestForX and BestForO. */
  method Minimax(b: Board) returns (best: Option<Action>)
    requires Shaped(b)
    ensures best.None? <==> Terminal(b)
    ensures best.Some? ==> Open(b, best.value)
    ensures best.Some? && PlayerOf(b) == X ==>
              MinValueOf(Play(b, best.value)) == MaxValueOf(b) &&
              forall a :: Open(b, a) ==> MinValueOf(Play(b, a)) <= MinValueOf(Play(b, best.value))
    ensures best.Some? && PlayerOf(b) == O ==>
              MaxValueOf(Play(b, best.value)) == MinValueOf(b) &&
              forall a :: Open(b, a) ==> MaxValueOf(Play(b, best.value)) <= MaxValueOf(Play(b, a))
  {
    if Terminal(b) {
      return None;
    }
    var p := Player(b);
    var a;
    if p == X {
      a := BestForX(b);
    } else {
      a := BestForO(b);
    }
    return Some(a);
  }

  /** X's branch of `minimax`: keep the running maximum `v` of the replies'
      `min_value` and the action that last raised it. */
  method BestForX(b: Board) returns (best: Action)
    requires Shaped(b) && !Terminal(b)
    ensures Open(b, best)
    ensures MinValueOf(Play(b, best)) == MaxValueOf(b)
    ensures forall a :: Open(b, a) ==> MinValueOf(Play(b, a)) <= MinValueOf(Play(b, best))
  {
    // The source starts from the empty tuple `()`; None stands for it here.
    var found: Option<Action> := None;
    var acts := Actions(b);
    var moves := acts.moves;
    assert AllOpen(b, moves);
    var v := NegInf;
    for k := 0 to |moves|
      invariant v == MaxOf(MinValues(b, moves[..k]))
      invariant k > 0 ==> found.Some? && Open(b, found.value) &&
                          MinValueOf(Play(b, found.value)) == v
    {
      var child := Result(b, moves[k]);
      var reply := MinValue(child.board);
      MaxStep(b, moves, k);
      var newMax := Max(v, reply);
      if newMax > v {
        v := newMax;
        found := Some(moves[k]);
      }
    }
    assert moves[..|moves|] == moves;
    MaxValueIsBestReply(b);
    best := found.value;
  }

  /** O's branch of `minimax`: keep the running minimum `v` of the replies'
      `max_value` and the action that last lowered it. */
  method BestForO(b: Board) returns (best: Action)
    requires Shaped(b) && !Terminal(b)
    ensures Open(b, best)
    ensures MaxValueOf(Play(b, best)) == MinValueOf(b)
    ensures forall a :: Open(b, a) ==> MaxValueOf(Play(b, best)) <= MaxValueOf(Play(b, a))
  {
    // The source starts from the empty tuple `()`; None stands for it here.
    var found: Option<Action> := None;
    var acts := Actions(b);
    var moves := acts.moves;
    assert AllOpen(b, moves);
    var v := PosInf;
    for k := 0 to |moves|
      invariant v == MinOf(MaxValues(b, moves[..k]))
      invariant k > 0 ==> found.Some? && Open(b, found.value) &&
                          MaxValueOf(Play(b, found.value)) == v
    {
      var child := Result(b, moves[k]);
      var reply := MaxValue(child.board);
      MinStep(b, moves, k);
      var newMin := Min(v, reply);
      if newMin < v {
        v := newMin;
        found := Some(moves[k]);
      }
    }
    assert moves[..|moves|] == moves;
    MinValueIsBestReply(b);
    best := found.value;
  }
}
