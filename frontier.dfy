/** The frontier of the search: a list of (heuristic, board) tuples used as
    a binary heap through heapq. heapq orders the tuples with Python's own
    comparison: the key first, then the boards lexicographically, row by row
    and cell by cell. That order is total, so heappop always hands back the
    same value: the least tuple. The model keeps the entries in a sequence
    and removes the least one; the heap's internal layout is not modelled. */
module Frontier {
  import opened Grid

  /** One heap entry: a board keyed by its heuristic. */
  datatype Node = Node(key: nat, board: Board)

  /** Python's < on two lists of ints: the first difference decides, and a
      proper prefix comes first. */
  predicate RowLess(x: seq<int>, y: seq<int>) {
    if x == [] then y != []
    else if y == [] then false
    else x[0] < y[0] || (x[0] == y[0] && RowLess(x[1..], y[1..]))
  }

  /** Python's < on two lists of rows, rows compared by RowLess. */
  predicate BoardLess(x: Board, y: Board) {
    if x == [] then y != []
    else if y == [] then false
    else RowLess(x[0], y[0]) || (x[0] == y[0] && BoardLess(x[1..], y[1..]))
  }

  /** Python's < on the tuples (key, board). */
  predicate NodeLess(a: Node, b: Node) {
    a.key < b.key || (a.key == b.key && BoardLess(a.board, b.board))
  }

  lemma {:induction false} RowLessOrder(x: seq<int>, y: seq<int>, z: seq<int>)
    ensures !RowLess(x, x)
    ensures RowLess(x, y) && RowLess(y, z) ==> RowLess(x, z)
    ensures x == y || RowLess(x, y) || RowLess(y, x)
  {
    if x != [] {
      if y != [] && z != [] {
        RowLessOrder(x[1..], y[1..], z[1..]);
      } else if y != [] {
        RowLessOrder(x[1..], y[1..], []);
      } else {
        RowLessOrder(x[1..], x[1..], []);
      }
      if y != [] && x[1..] == y[1..] && x[0] == y[0] {
        assert x == [x[0]] + x[1..] && y == [y[0]] + y[1..];
      }
    }
  }

  lemma {:induction false} BoardLessOrder(x: Board, y: Board, z: Board)
    ensures !BoardLess(x, x)
    ensures BoardLess(x, y) && BoardLess(y, z) ==> BoardLess(x, z)
    ensures x == y || BoardLess(x, y) || BoardLess(y, x)
  {
    if x != [] {
      if y != [] && z != [] {
        RowLessOrder(x[0], y[0], z[0]);
        BoardLessOrder(x[1..], y[1..], z[1..]);
      } else if y != [] {
        RowLessOrder(x[0], y[0], x[0]);
        BoardLessOrder(x[1..], y[1..], []);
      } else {
        RowLessOrder(x[0], x[0], x[0]);
        BoardLessOrder(x[1..], x[1..], []);
      }
      if y != [] && x[1..] == y[1..] && x[0] == y[0] {
        assert x == [x[0]] + x[1..] && y == [y[0]] + y[1..];
      }
    }
  }

  /** The tuple order is a strict total order: irreflexive, transitive, and
      any two different entries are comparable. */
  lemma NodeLessOrder(a: Node, b: Node, c: Node)
    ensures !NodeLess(a, a)
    ensures NodeLess(a, b) && NodeLess(b, c) ==> NodeLess(a, c)
    ensures a == b || NodeLess(a, b) || NodeLess(b, a)
  {
    BoardLessOrder(a.board, b.board, c.board);
  }

  /** Two entries that are each no greater than the other are equal, so the
      least entry of a frontier is determined by its contents alone. */
  lemma LeastIsUnique(a: Node, b: Node)
    requires !NodeLess(a, b) && !NodeLess(b, a)
    ensures a == b
  {
    NodeLessOrder(a, b, a);
  }

  /** heapq.heappop: remove and return the least entry, which in
      particular has the least key of the frontier. */
  method HeapPop(pq: seq<Node>) returns (top: Node, rest: seq<Node>)
    requires |pq| > 0
    ensures forall k :: 0 <= k < |pq| ==> !NodeLess(pq[k], top)
    ensures forall k :: 0 <= k < |pq| ==> top.key <= pq[k].key
    ensures exists m :: 0 <= m < |pq| && top == pq[m] && rest == pq[..m] + pq[m + 1..]
  {
    var m := 0;
    NodeLessOrder(pq[0], pq[0], pq[0]);
    for i := 1 to |pq|
      invariant 0 <= m < i
      invariant forall k :: 0 <= k < i ==> !NodeLess(pq[k], pq[m])
    {
      if NodeLess(pq[i], pq[m]) {
        forall k | 0 <= k < i
          ensures !NodeLess(pq[k], pq[i])
        {
          NodeLessOrder(pq[k], pq[i], pq[m]);
        }
        NodeLessOrder(pq[i], pq[i], pq[i]);
        m := i;
      }
    }
    top, rest := pq[m], pq[..m] + pq[m + 1..];
  }

  function Pow10(k: nat): (p: nat)
    ensures p >= 1
  {
    if k == 0 then 1 else 10 * Pow10(k - 1)
  }

  /** The termination measure of the search: the sum of 10^key over the
      frontier. Expanding an entry of key k > 0 replaces 10^k by at most
      nine times 10^(k-1). */
  function Weight(pq: seq<Node>): nat {
    if pq == [] then 0 else Weight(pq[..|pq| - 1]) + Pow10(pq[|pq| - 1].key)
  }

  lemma {:induction false} WeightAppend(a: seq<Node>, b: seq<Node>)
    ensures Weight(a + b) == Weight(a) + Weight(b)
  {
    if b != [] {
      assert (a + b)[..|a + b| - 1] == a + b[..|b| - 1];
      WeightAppend(a, b[..|b| - 1]);
    } else {
      assert a + b == a;
    }
  }

  /** Removing one entry takes its 10^key out of the weight. */
  lemma {:induction false} WeightRemove(pq: seq<Node>, m: int)
    requires 0 <= m < |pq|
    ensures Weight(pq[..m] + pq[m + 1..]) == Weight(pq) - Pow10(pq[m].key)
  {
    var front, x, back := pq[..m], pq[m], pq[m + 1..];
    SplitAt(pq, m);
    WeightSingle(x);
    WeightAppend(front + [x], back);
    WeightAppend(front, [x]);
    WeightAppend(front, back);
  }

  lemma SplitAt(pq: seq<Node>, m: int)
    requires 0 <= m < |pq|
    ensures pq == pq[..m] + [pq[m]] + pq[m + 1..]
  {
  }

  lemma WeightSingle(x: Node)
    ensures Weight([x]) == Pow10(x.key)
  {
    assert [x][..0] == [];
  }

  /** Entries that all have key k weigh 10^k each. */
  lemma {:induction false} WeightUniform(cs: seq<Node>, k: nat)
    requires forall i :: 0 <= i < |cs| ==> cs[i].key == k
    ensures Weight(cs) == |cs| * Pow10(k)
  {
    if cs != [] {
      WeightUniform(cs[..|cs| - 1], k);
    }
  }
}
