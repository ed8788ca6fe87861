/** SudokuSolver.a_star, shared by the four copies of the solver: a greedy
    best-first search that pops the entry with the fewest empty cells,
    counts the pop, returns the board when it is complete, and otherwise
    pushes one copy of it for every digit that is_valid accepts at its
    first empty cell. */
module Search {
  import opened Grid
  import opened Frontier

  /** n is what the expansion of b at its empty cell (row, col) pushes for
      one digit: b with a digit 1..9 that is_valid accepts placed there,
      keyed one below b's own heuristic. */
  predicate IsChild(n: Node, b: Board, row: int, col: int)
    requires IsBoard(b) && 0 <= row < 9 && 0 <= col < 9
  {
    IsBoard(n.board) &&
    var d := n.board[row][col];
    1 <= d <= 9 && Allowed(b, row, col, d) && n.board == Place(b, row, col, d) &&
    n.key + 1 == Heuristic(b)
  }

  /** The entry pushed for digit d: the copy of b with d at (row, col),
      keyed by its own heuristic. */
  function ChildFor(b: Board, row: int, col: int, d: int): Node
    requires IsBoard(b) && 0 <= row < 9 && 0 <= col < 9
  {
    var next := Place(b, row, col, d);
    Node(Heuristic(next), next)
  }

  /** One entry per digit of ds, in the order of ds. */
  function ChildrenFor(b: Board, row: int, col: int, ds: seq<int>): seq<Node>
    requires IsBoard(b) && 0 <= row < 9 && 0 <= col < 9
  {
    seq(|ds|, k requires 0 <= k < |ds| => ChildFor(b, row, col, ds[k]))
  }

  /** The entries pushed when b is expanded at (row, col): one entry per
      accepted digit, in ascending order of digit. */
  function Children(b: Board, row: int, col: int): seq<Node>
    requires IsBoard(b) && 0 <= row < 9 && 0 <= col < 9
  {
    ChildrenFor(b, row, col, AcceptedFrom(b, row, col, 1))
  }

  /** The digits num..9 that is_valid accepts at (row, col), ascending. */
  function AcceptedFrom(b: Board, row: int, col: int, num: int): seq<int>
    requires IsBoard(b) && 0 <= row < 9 && 0 <= col < 9 && 1 <= num <= 10
    decreases 10 - num
  {
    if num == 10 then []
    else if Allowed(b, row, col, num) then [num] + AcceptedFrom(b, row, col, num + 1)
    else AcceptedFrom(b, row, col, num + 1)
  }

  /** The accepted digits from num on number at most 10 - num, lie in
      num..9 and are accepted. */
  lemma {:induction false} AcceptedFromBounds(b: Board, row: int, col: int, num: int)
    requires IsBoard(b) && 0 <= row < 9 && 0 <= col < 9 && 1 <= num <= 10
    ensures var ds := AcceptedFrom(b, row, col, num);
      && |ds| <= 10 - num
      && (forall k :: 0 <= k < |ds| ==> num <= ds[k] <= 9 && Allowed(b, row, col, ds[k]))
    decreases 10 - num
  {
    if num < 10 {
      AcceptedFromBounds(b, row, col, num + 1);
      var rest := AcceptedFrom(b, row, col, num + 1);
      var ds := AcceptedFrom(b, row, col, num);
      if Allowed(b, row, col, num) {
        assert ds == [num] + rest;
        assert forall k :: 1 <= k < |ds| ==> ds[k] == rest[k - 1];
      } else {
        assert ds == rest;
      }
    }
  }

  /** The accepted digits ascend. */
  lemma {:induction false} AcceptedFromAscending(b: Board, row: int, col: int, num: int)
    requires IsBoard(b) && 0 <= row < 9 && 0 <= col < 9 && 1 <= num <= 10
    ensures var ds := AcceptedFrom(b, row, col, num);
      forall k1, k2 :: 0 <= k1 < k2 < |ds| ==> ds[k1] < ds[k2]
    decreases 10 - num
  {
    if num < 10 {
      AcceptedFromAscending(b, row, col, num + 1);
      AcceptedFromBounds(b, row, col, num + 1);
      var rest := AcceptedFrom(b, row, col, num + 1);
      var ds := AcceptedFrom(b, row, col, num);
      forall k1, k2 | 0 <= k1 < k2 < |ds|
        ensures ds[k1] < ds[k2]
      {
        if Allowed(b, row, col, num) {
          assert ds == [num] + rest;
          assert ds[k2] == rest[k2 - 1];
          if k1 > 0 {
            assert ds[k1] == rest[k1 - 1];
          }
        } else {
          assert ds == rest;
        }
      }
    }
  }

  /** Every digit of num..9 that is_valid accepts is among the accepted
      digits from num on. */
  lemma {:induction false} AcceptedFromComplete(b: Board, row: int, col: int, num: int, d: int)
    requires IsBoard(b) && 0 <= row < 9 && 0 <= col < 9 && 1 <= num <= 10
    requires num <= d <= 9 && Allowed(b, row, col, d)
    ensures d in AcceptedFrom(b, row, col, num)
    decreases 10 - num
  {
    if d != num {
      AcceptedFromComplete(b, row, col, num + 1, d);
    }
  }

  lemma ChildrenForCons(b: Board, row: int, col: int, d: int, ds: seq<int>)
    requires IsBoard(b) && 0 <= row < 9 && 0 <= col < 9
    ensures ChildrenFor(b, row, col, [d] + ds) == [ChildFor(b, row, col, d)] + ChildrenFor(b, row, col, ds)
  {
    var lhs, rhs := ChildrenFor(b, row, col, [d] + ds), [ChildFor(b, row, col, d)] + ChildrenFor(b, row, col, ds);
    assert forall k :: 1 <= k < |lhs| ==> lhs[k] == rhs[k];
  }

  /** The entry for an accepted digit placed in an empty cell is a child. */
  lemma ChildForIsChild(b: Board, row: int, col: int, d: int)
    requires IsBoard(b) && 0 <= row < 9 && 0 <= col < 9 && b[row][col] == 0
    requires 1 <= d <= 9 && Allowed(b, row, col, d)
    ensures IsChild(ChildFor(b, row, col, d), b, row, col)
  {
    PlaceHeuristic(b, row, col, d);
  }

  /** Each pushed entry is b with a distinct accepted digit in the empty
      cell, keyed one below b; there are at most nine, pushed in ascending
      order of digit; and every digit that is_valid accepts is pushed. */
  lemma ChildrenShape(b: Board, row: int, col: int)
    requires IsBoard(b) && 0 <= row < 9 && 0 <= col < 9 && b[row][col] == 0
    ensures var cs := Children(b, row, col);
      && |cs| <= 9
      && (forall k :: 0 <= k < |cs| ==> IsChild(cs[k], b, row, col))
      && (forall k1, k2 :: 0 <= k1 < k2 < |cs| ==> cs[k1].board[row][col] < cs[k2].board[row][col])
      && (forall d :: 1 <= d <= 9 && Allowed(b, row, col, d) ==>
            exists k :: 0 <= k < |cs| && cs[k].board == Place(b, row, col, d))
  {
    var cs, ds := Children(b, row, col), AcceptedFrom(b, row, col, 1);
    AcceptedFromBounds(b, row, col, 1);
    AcceptedFromAscending(b, row, col, 1);
    forall k | 0 <= k < |cs|
      ensures IsChild(cs[k], b, row, col) && cs[k].board[row][col] == ds[k]
    {
      ChildForIsChild(b, row, col, ds[k]);
    }
    forall d | 1 <= d <= 9 && Allowed(b, row, col, d)
      ensures exists k :: 0 <= k < |cs| && cs[k].board == Place(b, row, col, d)
    {
      AcceptedFromComplete(b, row, col, 1, d);
      var k :| 0 <= k < |ds| && ds[k] == d;
      assert cs[k] == ChildFor(b, row, col, d);
    }
  }

  lemma ChildrenKeys(b: Board, row: int, col: int)
    requires IsBoard(b) && 0 <= row < 9 && 0 <= col < 9 && b[row][col] == 0
    ensures |Children(b, row, col)| <= 9
    ensures forall k :: 0 <= k < |Children(b, row, col)| ==> Children(b, row, col)[k].key == Heuristic(b) - 1
  {
    ChildrenShape(b, row, col);
  }

  /** The digit loop of a_star, over 1..9: push a copy of b with
      num at (row, col) for every num that is_valid accepts. */
  method PushChildren(pq: seq<Node>, b: Board, row: int, col: int) returns (next: seq<Node>)
    requires IsBoard(b) && 0 <= row < 9 && 0 <= col < 9
    ensures next == pq + Children(b, row, col)
  {
    next := pq;
    for num := 1 to 10
      invariant next + ChildrenFor(b, row, col, AcceptedFrom(b, row, col, num)) == pq + Children(b, row, col)
    {
      var ok := IsValid(b, row, col, num);
      if ok {
        var newBoard := b;
        newBoard := newBoard[row := newBoard[row][col := num]];
        ChildrenForCons(b, row, col, num, AcceptedFrom(b, row, col, num + 1));
        assert Node(Heuristic(newBoard), newBoard) == ChildFor(b, row, col, num);
        next := next + [Node(Heuristic(newBoard), newBoard)];
      }
    }
  }

  /** What every frontier entry satisfies: a 9x9 board keyed by its own
      heuristic, that keeps the clues of the input and fills only digits
      1..9, and that is consistent whenever the input is. */
  predicate NodeOk(n: Node, input: Board)
    requires IsBoard(input)
  {
    IsBoard(n.board) && n.key == Heuristic(n.board) && Refines(n.board, input) &&
    (Consistent(input) ==> Consistent(n.board))
  }

  /** A pushed entry satisfies the frontier invariant when its parent does. */
  lemma ChildOk(n: Node, b: Board, row: int, col: int, input: Board)
    requires IsBoard(input) && IsBoard(b) && 0 <= row < 9 && 0 <= col < 9 && b[row][col] == 0
    requires NodeOk(Node(Heuristic(b), b), input) && IsChild(n, b, row, col)
    ensures NodeOk(n, input)
  {
    var d := n.board[row][col];
    PlaceHeuristic(b, row, col, d);
    if Consistent(input) {
      PlaceKeepsConsistent(b, row, col, d);
    }
  }

  /** Every solution of the input that extends the expanded board b extends
      one of the entries pushed for b. */
  lemma SolutionSurvivesExpansion(s: Board, b: Board, row: int, col: int, input: Board)
    requires IsBoard(input) && IsBoard(b) && 0 <= row < 9 && 0 <= col < 9 && b[row][col] == 0
    requires Refines(b, input) && IsCompletion(s, input) && Extends(s, b)
    ensures exists k :: 0 <= k < |Children(b, row, col)| && Extends(s, Children(b, row, col)[k].board)
  {
    assert input[row][col] == 0;
    var d := s[row][col];
    assert 1 <= d <= 9;
    SolutionValueAllowed(s, b, row, col);
    ChildrenShape(b, row, col);
    var cs := Children(b, row, col);
    var k :| 0 <= k < |cs| && cs[k].board == Place(b, row, col, d);
    assert Extends(s, cs[k].board);
  }

  /** The frontier after one pop and expansion: the entry at m removed and
      its children appended. */
  function Expanded(before: seq<Node>, m: int, row: int, col: int): seq<Node>
    requires 0 <= m < |before| && IsBoard(before[m].board) && 0 <= row < 9 && 0 <= col < 9
  {
    before[..m] + before[m + 1..] + Children(before[m].board, row, col)
  }

  lemma ExpandedAt(before: seq<Node>, m: int, row: int, col: int, k: int)
    requires 0 <= m < |before| && IsBoard(before[m].board) && 0 <= row < 9 && 0 <= col < 9
    requires 0 <= k < |Expanded(before, m, row, col)|
    ensures var pq := Expanded(before, m, row, col);
      pq[k] == if k < m then before[k]
               else if k < |before| - 1 then before[k + 1]
               else Children(before[m].board, row, col)[k - (|before| - 1)]
  {
    RemoveAppendAt(before, m, Children(before[m].board, row, col), k);
  }

  lemma RemoveAppendAt(before: seq<Node>, m: int, cs: seq<Node>, k: int)
    requires 0 <= m < |before| && 0 <= k < |before| - 1 + |cs|
    ensures (before[..m] + before[m + 1..] + cs)[k] ==
      if k < m then before[k] else if k < |before| - 1 then before[k + 1] else cs[k - (|before| - 1)]
  {
  }

  /** Expanding an entry keeps the frontier invariant NodeOk. */
  lemma {:induction false} ExpandKeepsNodes(before: seq<Node>, m: int, row: int, col: int, input: Board)
    requires IsBoard(input) && 0 <= m < |before| && 0 <= row < 9 && 0 <= col < 9
    requires forall k :: 0 <= k < |before| ==> NodeOk(before[k], input)
    requires NodeOk(before[m], input) && before[m].board[row][col] == 0
    ensures forall k :: 0 <= k < |Expanded(before, m, row, col)| ==>
      NodeOk(Expanded(before, m, row, col)[k], input)
  {
    var b := before[m].board;
    var pq := Expanded(before, m, row, col);
    ChildrenShape(b, row, col);
    forall k | 0 <= k < |pq|
      ensures NodeOk(pq[k], input)
    {
      ExpandedAt(before, m, row, col, k);
      if k >= |before| - 1 {
        ChildOk(pq[k], b, row, col, input);
      }
    }
  }

  /** A solution that extends entry j of the frontier before a pop and
      expansion extends some entry after it. */
  lemma {:induction false} ExpandKeepsSolution(before: seq<Node>, m: int, row: int, col: int, input: Board, s: Board, j: int)
    requires IsBoard(input) && 0 <= m < |before| && 0 <= row < 9 && 0 <= col < 9
    requires IsBoard(before[m].board) && Refines(before[m].board, input)
    requires before[m].board[row][col] == 0
    requires IsCompletion(s, input) && 0 <= j < |before| && Extends(s, before[j].board)
    ensures exists k :: 0 <= k < |Expanded(before, m, row, col)| && Extends(s, Expanded(before, m, row, col)[k].board)
  {
    var b := before[m].board;
    var pq := Expanded(before, m, row, col);
    if j == m {
      SolutionSurvivesExpansion(s, b, row, col, input);
    }
    var k := ReplaceKeepsExtension(before, m, Children(b, row, col), s, j);
    assert Extends(s, pq[k].board);
  }

  /** Removing entry m and appending cs keeps some entry that s extends,
      provided s extends an entry other than m or one of cs. */
  lemma {:induction false} ReplaceKeepsExtension(before: seq<Node>, m: int, cs: seq<Node>, s: Board, j: int) returns (k: int)
    requires 0 <= m < |before| && 0 <= j < |before| && Extends(s, before[j].board)
    requires j == m ==> exists c :: 0 <= c < |cs| && Extends(s, cs[c].board)
    ensures 0 <= k < |before| - 1 + |cs|
    ensures Extends(s, (before[..m] + before[m + 1..] + cs)[k].board)
  {
    if j < m {
      k := j;
    } else if j > m {
      k := j - 1;
    } else {
      var c :| 0 <= c < |cs| && Extends(s, cs[c].board);
      k := |before| - 1 + c;
    }
    RemoveAppendAt(before, m, cs, k);
  }

  /** Expanding an entry loses no solution of the input: each one still
      extends some entry of the frontier. */
  lemma {:induction false} ExpandKeepsSolutions(before: seq<Node>, m: int, row: int, col: int, input: Board)
    requires IsBoard(input) && 0 <= m < |before| && 0 <= row < 9 && 0 <= col < 9
    requires IsBoard(before[m].board) && Refines(before[m].board, input)
    requires before[m].board[row][col] == 0
    requires forall s :: IsCompletion(s, input) ==>
      exists k :: 0 <= k < |before| && Extends(s, before[k].board)
    ensures forall s :: IsCompletion(s, input) ==>
      exists k :: 0 <= k < |Expanded(before, m, row, col)| && Extends(s, Expanded(before, m, row, col)[k].board)
  {
    forall s | IsCompletion(s, input)
      ensures exists k :: 0 <= k < |Expanded(before, m, row, col)| && Extends(s, Expanded(before, m, row, col)[k].board)
    {
      var j :| 0 <= j < |before| && Extends(s, before[j].board);
      ExpandKeepsSolution(before, m, row, col, input, s, j);
    }
  }

  /** Nine entries or fewer of key k weigh at most nine times 10^k. */
  lemma {:induction false} UniformWeightBound(cs: seq<Node>, k: nat)
    requires |cs| <= 9 && forall i :: 0 <= i < |cs| ==> cs[i].key == k
    ensures Weight(cs) <= 9 * Pow10(k)
  {
    WeightUniform(cs, k);
    AtMostNineTimes(|cs|, Pow10(k));
  }

  lemma AtMostNineTimes(n: nat, p: nat)
    requires n <= 9
    ensures n * p <= 9 * p
  {
    assert (9 - n) * p >= 0;
  }

  /** Replacing an entry of key k > 0 by at most nine entries of key k - 1
      lowers the weight. */
  lemma {:induction false} ReplaceLowersWeight(before: seq<Node>, m: int, cs: seq<Node>)
    requires 0 <= m < |before| && before[m].key >= 1
    requires |cs| <= 9 && forall i :: 0 <= i < |cs| ==> cs[i].key == before[m].key - 1
    ensures Weight(before[..m] + before[m + 1..] + cs) < Weight(before)
  {
    var key := before[m].key;
    RemoveThenAppend(before, m, cs);
    UniformWeightBound(cs, key - 1);
    Pow10Step(key);
    TradeLowers(Weight(before[..m] + before[m + 1..] + cs), Weight(before), Weight(cs), Pow10(key), Pow10(key - 1));
  }

  /** Removing entry m and appending cs trades 10^key of entry m for the
      weight of cs. */
  lemma {:induction false} RemoveThenAppend(before: seq<Node>, m: int, cs: seq<Node>)
    requires 0 <= m < |before|
    ensures Weight(before[..m] + before[m + 1..] + cs) == Weight(before) - Pow10(before[m].key) + Weight(cs)
  {
    WeightRemove(before, m);
    WeightAppend(before[..m] + before[m + 1..], cs);
  }

  lemma TradeLowers(after: int, before: int, added: int, removed: int, p: int)
    requires after == before - removed + added
    requires added <= 9 * p && removed == 10 * p && p >= 1
    ensures after < before
  {
  }

  lemma Pow10Step(k: nat)
    requires k >= 1
    ensures Pow10(k) == 10 * Pow10(k - 1)
  {
  }

  /** Expanding an entry lowers the weight: its key k is at least 1, and
      each of its at most nine children has key k - 1. */
  lemma {:induction false} ExpandLowersWeight(before: seq<Node>, m: int, row: int, col: int)
    requires 0 <= m < |before| && 0 <= row < 9 && 0 <= col < 9
    requires IsBoard(before[m].board) && before[m].key == Heuristic(before[m].board)
    requires before[m].board[row][col] == 0
    ensures Weight(Expanded(before, m, row, col)) < Weight(before)
  {
    var b := before[m].board;
    PlaceHeuristic(b, row, col, 1);
    ChildrenKeys(b, row, col);
    ReplaceLowersWeight(before, m, Children(b, row, col));
  }

  /** top is what heappop hands back from the frontier f: an entry of f
      that no entry of f is less than. */
  ghost predicate PoppedFrom(f: seq<Node>, top: Node) {
    top in f && forall k :: 0 <= k < |f| ==> !NodeLess(f[k], top)
  }

  /** One round of the loop that does not return: top, popped from f, has a
      first empty cell (row, col), and the next frontier g is f without that
      entry, followed by the children of top's board at (row, col). */
  ghost predicate Round(f: seq<Node>, top: Node, g: seq<Node>) {
    IsBoard(top.board) &&
    exists m, row, col :: 0 <= m < |f| && f[m] == top && 0 <= row < 9 && 0 <= col < 9 &&
      top.board[row][col] == 0 && FilledBefore(top.board, row, col) &&
      g == Expanded(f, m, row, col)
  }

  /** The pops of a run of a_star on input: pops[i] is popped from fronts[i],
      the first frontier holds the input alone, and every pop but the last
      is followed by a Round into the next frontier. */
  ghost predicate Trace(input: Board, pops: seq<Node>, fronts: seq<seq<Node>>)
    requires IsBoard(input)
  {
    |pops| == |fronts| >= 1 &&
    fronts[0] == [Node(Heuristic(input), input)] &&
    (forall i :: 0 <= i < |pops| ==> PoppedFrom(fronts[i], pops[i])) &&
    (forall i :: 0 <= i < |pops| - 1 ==> Round(fronts[i], pops[i], fronts[i + 1]))
  }

  /** The trace before the next pop: nothing popped yet and the frontier
      holding the input alone, or a trace whose last pop was followed by a
      Round into the current frontier pq. */
  ghost predicate TraceSoFar(input: Board, pops: seq<Node>, fronts: seq<seq<Node>>, pq: seq<Node>)
    requires IsBoard(input)
  {
    (pops == [] && fronts == [] && pq == [Node(Heuristic(input), input)]) ||
    (Trace(input, pops, fronts) && Round(fronts[|pops| - 1], pops[|pops| - 1], pq))
  }

  /** Popping top from the current frontier extends the trace by one pop. */
  lemma {:induction false} TracePop(input: Board, pops: seq<Node>, fronts: seq<seq<Node>>, pq: seq<Node>, top: Node)
    requires IsBoard(input) && TraceSoFar(input, pops, fronts, pq) && PoppedFrom(pq, top)
    ensures Trace(input, pops + [top], fronts + [pq])
  {
    var pops', fronts' := pops + [top], fronts + [pq];
    forall i | 0 <= i < |pops'|
      ensures PoppedFrom(fronts'[i], pops'[i])
    {
      if i < |pops| {
        assert fronts'[i] == fronts[i] && pops'[i] == pops[i];
      }
    }
    forall i | 0 <= i < |pops'| - 1
      ensures Round(fronts'[i], pops'[i], fronts'[i + 1])
    {
      assert fronts'[i] == fronts[i] && pops'[i] == pops[i];
      if i + 1 < |pops| {
        assert fronts'[i + 1] == fronts[i + 1];
      }
    }
  }

  /** A Round after the last pop makes its result the current frontier. */
  lemma TraceRound(input: Board, pops: seq<Node>, fronts: seq<seq<Node>>, pq: seq<Node>)
    requires IsBoard(input) && Trace(input, pops, fronts)
    requires Round(fronts[|pops| - 1], pops[|pops| - 1], pq)
    ensures TraceSoFar(input, pops, fronts, pq)
  {
  }

  /** Expanding the entry at m, whose first empty cell is (row, col), is a
      Round. */
  lemma ExpandIsRound(before: seq<Node>, m: int, row: int, col: int)
    requires 0 <= m < |before| && IsBoard(before[m].board) && 0 <= row < 9 && 0 <= col < 9
    requires before[m].board[row][col] == 0 && FilledBefore(before[m].board, row, col)
    ensures Round(before, before[m], Expanded(before, m, row, col))
  {
  }

  /** A search whose frontier runs empty has popped at least once, and its
      last pop led to the empty frontier. */
  lemma TraceExhausted(input: Board, pops: seq<Node>, fronts: seq<seq<Node>>)
    requires IsBoard(input) && TraceSoFar(input, pops, fronts, [])
    ensures |pops| >= 1 && Trace(input, pops, fronts)
    ensures Round(fronts[|pops| - 1], pops[|pops| - 1], [])
  {
  }

  /** One round that does not return keeps every loop invariant of a_star:
      the entries stay well formed, no solution of the input is lost, the
      weight drops, and the trace now ends in the new frontier. */
  lemma {:induction false} RoundKeepsInvariants(input: Board, before: seq<Node>, m: int, row: int, col: int,
                                                pops: seq<Node>, fronts: seq<seq<Node>>)
    requires IsBoard(input) && 0 <= m < |before| && 0 <= row < 9 && 0 <= col < 9
    requires forall k :: 0 <= k < |before| ==> NodeOk(before[k], input)
    requires forall s :: IsCompletion(s, input) ==>
      exists k :: 0 <= k < |before| && Extends(s, before[k].board)
    requires NodeOk(before[m], input)
    requires before[m].board[row][col] == 0 && FilledBefore(before[m].board, row, col)
    requires Trace(input, pops, fronts) && fronts[|pops| - 1] == before && pops[|pops| - 1] == before[m]
    ensures var pq := Expanded(before, m, row, col);
      && (forall k :: 0 <= k < |pq| ==> NodeOk(pq[k], input))
      && (forall s :: IsCompletion(s, input) ==> exists k :: 0 <= k < |pq| && Extends(s, pq[k].board))
      && Weight(pq) < Weight(before)
      && TraceSoFar(input, pops, fronts, pq)
  {
    ExpandKeepsNodes(before, m, row, col, input);
    ExpandKeepsSolutions(before, m, row, col, input);
    ExpandLowersWeight(before, m, row, col);
    ExpandIsRound(before, m, row, col);
    TraceRound(input, pops, fronts, Expanded(before, m, row, col));
  }

  /** a_star. The result is the returned board (None on exhaustion) and the
      number of pops. A returned board is complete and keeps the clues; for
      a consistent input it is a solution. None is returned only when the
      input has no solution. A complete input comes back unchanged after one
      pop, whether or not it is consistent. */
  method AStar(input: Board) returns (solution: Option<Board>, steps: nat, ghost pops: seq<Node>, ghost fronts: seq<seq<Node>>)
    requires IsBoard(input)
    ensures steps >= 1 && steps == |pops|
    ensures Trace(input, pops, fronts)
    ensures solution.Some? ==> solution.value == pops[steps - 1].board
    ensures solution.None? ==> Round(fronts[steps - 1], pops[steps - 1], [])
    ensures solution.Some? ==>
      IsBoard(solution.value) && Complete(solution.value) && Refines(solution.value, input)
    ensures solution.Some? && Consistent(input) ==> IsCompletion(solution.value, input)
    ensures solution.None? ==> forall s :: !IsCompletion(s, input)
    ensures Complete(input) ==> solution == Some(input) && steps == 1
  {
    var start := input;
    var pq := [Node(Heuristic(start), start)];
    steps := 0;
    pops, fronts := [], [];
    forall s | IsCompletion(s, input)
      ensures Extends(s, pq[0].board)
    {
    }
    while pq != []
      invariant forall k :: 0 <= k < |pq| ==> NodeOk(pq[k], input)
      invariant forall s :: IsCompletion(s, input) ==>
        exists k :: 0 <= k < |pq| && Extends(s, pq[k].board)
      invariant steps == 0 ==> pq == [Node(Heuristic(input), input)]
      invariant steps > 0 ==> !Complete(input)
      invariant |pops| == steps && TraceSoFar(input, pops, fronts, pq)
      decreases Weight(pq)
    {
      ghost var before := pq;
      var top, rest := HeapPop(pq);
      ghost var m :| 0 <= m < |before| && top == before[m] && rest == before[..m] + before[m + 1..];
      assert PoppedFrom(before, top);
      TracePop(input, pops, fronts, before, top);
      pops, fronts := pops + [top], fronts + [before];
      var current := top.board;
      steps := steps + 1;
      var empty := FindEmpty(current);
      if empty.None? {
        return Some(current), steps, pops, fronts;
      }
      var (row, col) := empty.value;
      pq := PushChildren(rest, current, row, col);
      assert pq == Expanded(before, m, row, col);
      RoundKeepsInvariants(input, before, m, row, col, pops, fronts);
    }
    TraceExhausted(input, pops, fronts);
    solution := None;
  }
}
