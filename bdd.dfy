/**
  A reduced, ordered binary decision diagram manager.  Nodes are immutable
  once created; the manager hash-conses them through a unique table keyed
  by (variable, low id, high id), drops redundant tests, and numbers new
  nodes from a counter.  Diagrams are built from truth tables by Shannon
  expansion, splitting the table in halves on variables 0, 1, 2, ...
*/
module Bdd {
  import opened Wrappers
  import opened PyText
  import opened Binary
  import opened TruthTable

  /** A node: `if x_variable then high else low`; terminals have variable -1. */
  class BddNode {
    const variable: int
    const low: BddNode?
    const high: BddNode?
    const id: int

    constructor (variable: int, low: BddNode?, high: BddNode?, id: int)
      ensures this.variable == variable && this.low == low && this.high == high && this.id == id
    {
      this.variable := variable;
      this.low := low;
      this.high := high;
      this.id := id;
    }

    predicate IsTerminal()
    {
      variable == -1
    }
  }

  /**
    A well-formed node: a terminal with id 0 or 1 and no children, or a test
    of a variable whose two children are well formed and were numbered
    before it.
  */
  ghost predicate Wf(n: BddNode)
    decreases n.id
  {
    if n.IsTerminal() then n.low == null && n.high == null && (n.id == 0 || n.id == 1)
    else
      n.variable >= 0 && n.low != null && n.high != null
      && 0 <= n.low.id < n.id && 0 <= n.high.id < n.id
      && Wf(n.low) && Wf(n.high)
  }

  /** Every variable tested below `n` is below `k`. */
  ghost predicate Below(n: BddNode, k: int)
    requires Wf(n)
    decreases n.id
  {
    n.IsTerminal() || (n.variable < k && Below(n.low, k) && Below(n.high, k))
  }

  /** Variables strictly increase along every path, starting at `lo` or above. */
  ghost predicate Ordered(n: BddNode, lo: int)
    requires Wf(n)
    decreases n.id
  {
    n.IsTerminal()
    || (lo <= n.variable && Ordered(n.low, n.variable + 1) && Ordered(n.high, n.variable + 1))
  }

  /**
    The value of the diagram at an input row: follow `high` where the row
    has '1' at the tested variable and `low` otherwise; the terminal with
    id 1 means true.
  */
  ghost function Eval(n: BddNode, row: string): bool
    requires Wf(n) && Below(n, |row|)
    decreases n.id
  {
    if n.IsTerminal() then n.id == 1
    else if row[n.variable] == '1' then Eval(n.high, row)
    else Eval(n.low, row)
  }

  /**
    `n` is the diagram of the truth-table slice from `start`, for the
    variables `v .. k-1`: at every row of `k` bits it is true exactly when
    the entry picked by the row's bits from `v` on is 1.
  */
  ghost predicate Represents(n: BddNode, tt: seq<int>, start: int, v: int, k: int)
  {
    Wf(n) && Below(n, k) && 0 <= start && 0 <= v <= k
    && forall row: string {:trigger Eval(n, row)} :: |row| == k ==>
         start + BitsValue(row[v..]) < |tt| && (Eval(n, row) <==> tt[start + BitsValue(row[v..])] == 1)
  }

  /** `m` is `n` or a node below it: the nodes a diagram is made of. */
  ghost predicate Reaches(n: BddNode, m: BddNode)
    requires Wf(n)
    decreases n.id
  {
    n == m || (!n.IsTerminal() && (Reaches(n.low, m) || Reaches(n.high, m)))
  }

  /** Every node recorded in `b` but not in `a` is part of the diagram of `root`. */
  ghost predicate AddedUnder(a: map<int, BddNode>, b: map<int, BddNode>, root: BddNode)
    requires Wf(root)
  {
    forall i :: i in b && i !in a ==> Reaches(root, b[i])
  }

  /** The key of a test node in the unique table. */
  ghost function KeyOf(n: BddNode): (int, int, int)
    requires Wf(n) && !n.IsTerminal()
  {
    (n.variable, n.low.id, n.high.id)
  }

  /** No entry of `a` is lost or replaced in `b`. */
  ghost predicate Grows(a: map<int, BddNode>, b: map<int, BddNode>)
  {
    forall i :: i in a ==> i in b && b[i] == a[i]
  }

  /** Every entry of a slice of the truth table equals `x`. */
  predicate AllAre(s: seq<int>, x: int)
  {
    forall k :: 0 <= k < |s| ==> s[k] == x
  }

  /** `[1 if i in on_set else 0 for i in range(2 ** n)]`: don't-cares read as 0. */
  function MintermTable(n: nat, on: set<int>): (r: seq<int>)
    ensures |r| == Pow2(n)
    ensures forall i :: 0 <= i < |r| ==> (r[i] == 1 <==> i in on) && (r[i] == 0 <==> i !in on)
  {
    seq(Pow2(n), i => if i in on then 1 else 0)
  }

  /** `n` is the node recorded under `n.id` in the node map. */
  ghost predicate Records(nodes: map<int, BddNode>, n: BddNode)
  {
    n.id in nodes && nodes[n.id] == n
  }

  /** The node map numbers ids `0 .. nextId-1`, each to a well-formed node with that id. */
  ghost predicate Numbered(nodes: map<int, BddNode>, nextId: int)
  {
    (forall i :: i in nodes <==> 0 <= i < nextId)
    && (forall i :: i in nodes ==> nodes[i].id == i && Wf(nodes[i]))
  }

  /** The children of every recorded test node are recorded too. */
  ghost predicate Closed(nodes: map<int, BddNode>)
  {
    forall i {:trigger nodes[i].low} {:trigger nodes[i].high} ::
      i in nodes && !nodes[i].IsTerminal() && nodes[i].low != null && nodes[i].high != null ==>
        Records(nodes, nodes[i].low) && Records(nodes, nodes[i].high)
  }

  /**
    The test nodes are exactly the entries of the unique table, each under
    its own key, and none tests a variable with equal children.
  */
  ghost predicate Indexed(table: map<(int, int, int), BddNode>, nodes: map<int, BddNode>)
  {
    (forall i :: i in nodes && 2 <= i ==>
       Wf(nodes[i]) && !nodes[i].IsTerminal() && KeyOf(nodes[i]) in table && table[KeyOf(nodes[i])] == nodes[i])
    && (forall k :: k in table ==>
          Records(nodes, table[k]) && Wf(table[k]) && !table[k].IsTerminal() && KeyOf(table[k]) == k && k.1 != k.2)
  }

  /**
    The manager's invariant: the terminals are ids 0 and 1, the node map is
    numbered densely and closed under children, and the unique table
    indexes its test nodes.
  */
  ghost predicate Manager(zero: BddNode, one: BddNode, nextId: int,
                          table: map<(int, int, int), BddNode>, nodes: map<int, BddNode>)
  {
    zero.IsTerminal() && zero.low == null && zero.high == null && zero.id == 0
    && one.IsTerminal() && one.low == null && one.high == null && one.id == 1
    && nextId >= 2 && Numbered(nodes, nextId)
    && nodes[0] == zero && nodes[1] == one
    && Closed(nodes) && Indexed(table, nodes)
  }

  /** Two recorded nodes with the same id are the same node. */
  lemma SameId(nodes: map<int, BddNode>, m: BddNode, n: BddNode)
    requires Records(nodes, m) && Records(nodes, n) && m.id == n.id
    ensures m == n
  {
  }

  /** Recording a well-formed node under the next id keeps the numbering dense. */
  lemma AddNumbered(nodes: map<int, BddNode>, nextId: int, node: BddNode)
    requires Numbered(nodes, nextId) && node.id == nextId && Wf(node)
    ensures Numbered(nodes[nextId := node], nextId + 1)
  {
  }

  /** Recording a node whose children are recorded keeps the map closed under children. */
  lemma AddClosed(nodes: map<int, BddNode>, nextId: int, node: BddNode)
    requires Closed(nodes) && nextId !in nodes && node.id == nextId && node.low != null && node.high != null
    requires Records(nodes, node.low) && Records(nodes, node.high)
    ensures Closed(nodes[nextId := node])
  {
    var nodes' := nodes[nextId := node];
    forall i | i in nodes' && !nodes'[i].IsTerminal() && nodes'[i].low != null && nodes'[i].high != null
      ensures Records(nodes', nodes'[i].low) && Records(nodes', nodes'[i].high)
    {
      if i != nextId {
        assert nodes'[i] == nodes[i];
        assert Records(nodes, nodes[i].low) && Records(nodes, nodes[i].high);
      }
    }
  }

  /** Recording a fresh test node under a new key and the next id keeps the table an index of the test nodes. */
  lemma {:induction false} AddIndexed(table: map<(int, int, int), BddNode>, nodes: map<int, BddNode>,
                                      nextId: int, node: BddNode)
    requires Indexed(table, nodes) && nextId !in nodes && node.id == nextId
    requires Wf(node) && !node.IsTerminal() && KeyOf(node) !in table && KeyOf(node).1 != KeyOf(node).2
    ensures Indexed(table[KeyOf(node) := node], nodes[nextId := node])
  {
    var key := KeyOf(node);
    var table' := table[key := node];
    var nodes' := nodes[nextId := node];
    forall i | i in nodes' && 2 <= i
      ensures Wf(nodes'[i]) && !nodes'[i].IsTerminal() && KeyOf(nodes'[i]) in table' && table'[KeyOf(nodes'[i])] == nodes'[i]
    {
      if i != nextId {
        assert nodes'[i] == nodes[i];
        assert KeyOf(nodes[i]) in table;
      }
    }
    forall k | k in table'
      ensures Records(nodes', table'[k]) && Wf(table'[k]) && !table'[k].IsTerminal() && KeyOf(table'[k]) == k && k.1 != k.2
    {
      if k != key {
        assert table'[k] == table[k] && Records(nodes, table[k]);
      }
    }
  }

  /** Recording a fresh test node of two recorded, distinct children under the next id keeps the invariant. */
  lemma AddNode(zero: BddNode, one: BddNode, nextId: int,
                table: map<(int, int, int), BddNode>, nodes: map<int, BddNode>,
                node: BddNode)
    requires Manager(zero, one, nextId, table, nodes)
    requires node.id == nextId && node.variable >= 0 && node.low != null && node.high != null
    requires Records(nodes, node.low) && Records(nodes, node.high) && node.low.id != node.high.id
    requires (node.variable, node.low.id, node.high.id) !in table
    ensures Manager(zero, one, nextId + 1, table[(node.variable, node.low.id, node.high.id) := node],
                    nodes[nextId := node])
  {
    assert Wf(node.low) && Wf(node.high);
    AddNumbered(nodes, nextId, node);
    AddClosed(nodes, nextId, node);
    AddIndexed(table, nodes, nextId, node);
  }

  /** The test nodes of a manager are all its nodes but the two terminals. */
  lemma TestNodes(zero: BddNode, one: BddNode, nextId: int,
                  table: map<(int, int, int), BddNode>, nodes: map<int, BddNode>)
    ensures Manager(zero, one, nextId, table, nodes) ==>
      |set i | i in nodes && !nodes[i].IsTerminal()| == |nodes| - 2
  {
    if Manager(zero, one, nextId, table, nodes) {
      var tests := set i | i in nodes && !nodes[i].IsTerminal();
      forall i ensures i in tests <==> i in nodes.Keys - {0, 1} {
        if i in nodes && 2 <= i {
          assert !nodes[i].IsTerminal();
        }
      }
      assert tests == nodes.Keys - {0, 1};
      assert nodes.Keys == tests + {0, 1};
    }
  }

  /** The ids `0 .. n-1`: `n` of them. */
  function Ids(n: nat): (r: set<int>)
    ensures forall i :: i in r <==> 0 <= i < n
    ensures |r| == n
  {
    if n == 0 then {} else Ids(n - 1) + {n - 1}
  }

  /** Ids are handed out densely: a manager records exactly `nextId` nodes. */
  lemma NodeIds(zero: BddNode, one: BddNode, nextId: int,
                table: map<(int, int, int), BddNode>, nodes: map<int, BddNode>)
    ensures Manager(zero, one, nextId, table, nodes) ==> |nodes| == nextId
  {
    if Manager(zero, one, nextId, table, nodes) {
      assert nodes.Keys == Ids(nextId);
    }
  }

  /**
    A test of `v` over two ordered children on later variables, or the one
    child when the test was redundant, is ordered from `v` on.
  */
  lemma TestStep(node: BddNode, v: int, low: BddNode, high: BddNode, k: int)
    requires Wf(node) && Wf(low) && Wf(high)
    requires Ordered(low, v + 1) && Ordered(high, v + 1) && Below(low, k) && Below(high, k) && v < k
    requires (node == low && low == high)
      || (!node.IsTerminal() && node.variable == v && node.low == low && node.high == high)
    ensures Ordered(node, v) && Below(node, k)
  {
  }

  /**
    What `make_node` builds means `if x_v then high else low`: the test node
    of `v` over `low` and `high`, or the one child when the test was
    redundant, evaluates at every long enough row as the test would.
  */
  lemma TestEval(node: BddNode, v: int, low: BddNode, high: BddNode, row: string)
    requires Wf(node) && Wf(low) && Wf(high) && 0 <= v < |row| && Below(low, |row|) && Below(high, |row|)
    requires (node == low && low == high)
      || (!node.IsTerminal() && node.variable == v && node.low == low && node.high == high)
    ensures Below(node, |row|)
    ensures Eval(node, row) == if row[v] == '1' then Eval(high, row) else Eval(low, row)
  {
  }

  /**
    One step of Shannon expansion on a row: testing bit `v` picks the first
    or the second half of the slice, and the rest of the row picks the
    entry inside that half.
  */
  lemma ShannonRow(tt: seq<int>, start: int, mid: int, end: int, v: nat, row: string,
                   e: bool, eLow: bool, eHigh: bool)
    requires 0 <= start && end <= |tt| && v < |row|
    requires mid - start == end - mid == Pow2(|row| - (v + 1))
    requires start + BitsValue(row[v + 1..]) < mid && mid + BitsValue(row[v + 1..]) < end
    requires eLow <==> tt[start + BitsValue(row[v + 1..])] == 1
    requires eHigh <==> tt[mid + BitsValue(row[v + 1..])] == 1
    requires e == if row[v] == '1' then eHigh else eLow
    ensures start + BitsValue(row[v..]) < end && (e <==> tt[start + BitsValue(row[v..])] == 1)
  {
    BitsValueFrom(row, v);
  }

  /**
    Joining the diagrams of the two halves by a test of `v` (or by the one
    child, when the test was redundant) gives the diagram of the whole
    slice.
  */
  lemma ShannonJoin(tt: seq<int>, start: int, mid: int, end: int, v: nat, n: nat,
                    node: BddNode, fLow: BddNode, fHigh: BddNode)
    requires 0 <= start && end <= |tt| && v < n
    requires mid - start == end - mid == Pow2(n - (v + 1))
    requires Wf(node) && Wf(fLow) && Wf(fHigh) && Below(fLow, n) && Below(fHigh, n) && Below(node, n)
    requires (node == fLow && fLow == fHigh)
      || (!node.IsTerminal() && node.variable == v && node.low == fLow && node.high == fHigh)
    requires Represents(fLow, tt, start, v + 1, n) && Represents(fHigh, tt, mid, v + 1, n)
    ensures Represents(node, tt, start, v, n)
  {
    forall row: string | |row| == n
      ensures start + BitsValue(row[v..]) < |tt| && (Eval(node, row) <==> tt[start + BitsValue(row[v..])] == 1)
    {
      ShannonRow(tt, start, mid, end, v, row, Eval(node, row), Eval(fLow, row), Eval(fHigh, row));
    }
  }

  /** A diagram of the whole table is true at row `i` of the input enumeration exactly when entry `i` is 1. */
  lemma RootRows(root: BddNode, tt: seq<int>, n: nat)
    requires |tt| == Pow2(n) && Represents(root, tt, 0, 0, n)
    ensures |Product(n)| == |tt|
    ensures forall i :: 0 <= i < |tt| ==>
      |Product(n)[i]| == n && Below(root, |Product(n)[i]|) && (Eval(root, Product(n)[i]) <==> tt[i] == 1)
  {
    ProductRows(n);
    forall i | 0 <= i < |tt|
      ensures |Product(n)[i]| == n && Below(root, |Product(n)[i]|) && (Eval(root, Product(n)[i]) <==> tt[i] == 1)
    {
      assert Product(n)[i][0..] == Product(n)[i];
    }
  }

  /** Splitting a slice of `2^(n - v)` entries at its midpoint gives two halves of `2^(n - (v + 1))`. */
  lemma Halves(start: int, mid: int, end: int, v: nat, n: nat)
    requires v < n && mid == start + (end - start) / 2
    ensures end - start == Pow2(n - v) ==> mid - start == end - mid == Pow2(n - (v + 1))
  {
    assert Pow2(n - v) == 2 * Pow2(n - (v + 1));
  }

  /**
    The nodes added while building the two halves and joining them are all
    part of the joined diagram: the join is the test over the two halves,
    or the one half when the test was redundant.
  */
  lemma AddedJoin(a: map<int, BddNode>, b: map<int, BddNode>, c: map<int, BddNode>, d: map<int, BddNode>,
                  node: BddNode, fLow: BddNode, fHigh: BddNode)
    requires Wf(node) && Wf(fLow) && Wf(fHigh)
    requires Grows(b, c) && Grows(c, d)
    requires AddedUnder(a, b, fLow) && AddedUnder(b, c, fHigh) && AddedUnder(c, d, node)
    requires node == fLow || (!node.IsTerminal() && node.low == fLow && node.high == fHigh)
    requires node == fLow ==> fLow == fHigh
    ensures AddedUnder(a, d, node)
  {
    forall i | i in d && i !in a ensures Reaches(node, d[i]) {
      if i !in c {
      } else if i !in b {
        assert d[i] == c[i];
        assert Reaches(fHigh, c[i]);
      } else {
        assert d[i] == c[i] == b[i];
        assert Reaches(fLow, b[i]);
      }
    }
  }

  /** In a valid manager every node of a recorded diagram is recorded. */
  lemma {:induction false} ReachesRecorded(b: Bdd, n: BddNode, m: BddNode)
    requires b.Valid() && b.Has(n) && Reaches(n, m)
    ensures b.Has(m)
    decreases n.id
  {
    if n != m {
      assert n.id >= 2;
      assert Records(b.allNodes, n.low) && Records(b.allNodes, n.high);
      if Reaches(n.low, m) {
        ReachesRecorded(b, n.low, m);
      } else {
        ReachesRecorded(b, n.high, m);
      }
    }
  }

  /**
    One level of Shannon expansion: given the diagrams of the two halves of a
    slice of `2^(n - v)` entries and the node that joins them, the joined
    node is ordered from `v` and stands for the whole slice.
  */
  lemma SplitStep(tt: seq<int>, start: int, mid: int, end: int, v: nat, n: nat,
                  node: BddNode, fLow: BddNode, fHigh: BddNode)
    requires 0 <= start <= end <= |tt| && v < n && end - start == Pow2(n - v) && mid == start + (end - start) / 2
    requires Wf(node) && Wf(fLow) && Wf(fHigh)
    requires Ordered(fLow, v + 1) && Ordered(fHigh, v + 1)
    requires Represents(fLow, tt, start, v + 1, n) && Represents(fHigh, tt, mid, v + 1, n)
    requires fLow.id == fHigh.id ==> node == fLow && fLow == fHigh
    requires fLow.id != fHigh.id ==>
      !node.IsTerminal() && node.variable == v && node.low == fLow && node.high == fHigh
    ensures Ordered(node, v) && Represents(node, tt, start, v, n)
  {
    TestStep(node, v, fLow, fHigh, n);
    Halves(start, mid, end, v, n);
    ShannonJoin(tt, start, mid, end, v, n, node, fLow, fHigh);
  }

  class Bdd {
    const numVars: int
    const zero: BddNode
    const one: BddNode
    var nextId: int
    var uniqueTable: map<(int, int, int), BddNode>
    var allNodes: map<int, BddNode>

    /** `n` is the node this manager records under `n.id`. */
    ghost predicate Has(n: BddNode)
      reads this
    {
      Records(allNodes, n)
    }

    ghost predicate Valid()
      reads this
    {
      Manager(zero, one, nextId, uniqueTable, allNodes)
    }

    /** `BDD(num_vars)`: only the two terminals, and the next id is 2. */
    constructor (numVars: int)
      ensures Valid()
      ensures this.numVars == numVars && nextId == 2 && uniqueTable == map[]
      ensures allNodes == map[0 := zero, 1 := one]
    {
      var z := new BddNode(-1, null, null, 0);
      var o := new BddNode(-1, null, null, 1);
      this.numVars := numVars;
      zero := z;
      one := o;
      nextId := 2;
      uniqueTable := map[];
      allNodes := map[0 := z, 1 := o];
    }

    /**
      `make_node`: a test with equal children is its child; a key already in
      the unique table gives back the node stored there and allocates
      nothing; otherwise a fresh node takes the next id and is recorded
      under its key and its id.
    */
    method MakeNode(v: int, low: BddNode, high: BddNode) returns (node: BddNode)
      requires Valid() && Has(low) && Has(high) && 0 <= v
      modifies this
      ensures Valid() && Has(node) && Grows(old(allNodes), allNodes) && Wf(node)
      ensures AddedUnder(old(allNodes), allNodes, node)
      ensures low.id == high.id ==> node == low && low == high && unchanged(this)
      ensures low.id != high.id && (v, low.id, high.id) in old(uniqueTable) ==>
        node == old(uniqueTable)[(v, low.id, high.id)] && unchanged(this)
      ensures low.id != high.id && (v, low.id, high.id) !in old(uniqueTable) ==>
        fresh(node) && node.id == old(nextId) && nextId == old(nextId) + 1
        && uniqueTable == old(uniqueTable)[(v, low.id, high.id) := node]
        && allNodes == old(allNodes)[node.id := node]
      ensures low.id != high.id ==>
        !node.IsTerminal() && node.variable == v && node.low == low && node.high == high
        && (v, low.id, high.id) in uniqueTable && uniqueTable[(v, low.id, high.id)] == node
    {
      if low.id == high.id {
        SameId(allNodes, low, high);
        return low;
      }
      var key := (v, low.id, high.id);
      if key in uniqueTable {
        node := uniqueTable[key];
        SameId(allNodes, node.low, low);
        SameId(allNodes, node.high, high);
        return;
      }
      node := new BddNode(v, low, high, nextId);
      AddNode(zero, one, nextId, uniqueTable, allNodes, node);
      nextId := nextId + 1;
      uniqueTable := uniqueTable[key := node];
      allNodes := allNodes[node.id := node];
    }
  
    /**
      `_shannon_expand` on a slice of `2^(numVars - v)` entries, the only
      slices its caller hands it: a slice of zeros gives the 0 terminal, a
      slice of ones the 1 terminal; past the last variable the first entry
      decides; otherwise the first half becomes the low child and the second
      half the high child, both on the next variable.  The diagram's value at
      every row equals "the entry picked by the row's bits from `v` on is 1".
    */
    method ShannonExpand(tt: seq<int>, start: int, end: int, v: int) returns (node: BddNode)
      requires Valid() && 0 <= start <= end <= |tt| && 0 <= v <= numVars && end - start == Pow2(numVars - v)
      modifies this
      decreases numVars - v, 1
      ensures Valid() && Has(node) && Grows(old(allNodes), allNodes) && Wf(node)
      ensures AddedUnder(old(allNodes), allNodes, node)
      ensures AllAre(tt[start..end], 0) ==> node == zero
      ensures !AllAre(tt[start..end], 0) && AllAre(tt[start..end], 1) ==> node == one
      ensures Represents(node, tt, start, v, numVars) && Ordered(node, v)
    {
      var values := tt[start..end];
      if AllAre(values, 0) {
        node := zero;
        ConstantSlice(tt, start, end, v, 0);
        return;
      }
      if AllAre(values, 1) {
        node := one;
        ConstantSlice(tt, start, end, v, 1);
        return;
      }
      if v >= numVars {
        node := if tt[start] == 1 then one else zero;
        forall row: string | |row| == numVars
          ensures BitsValue(row[v..]) == 0
        {
          assert row[v..] == [];
        }
        return;
      }
      node := SplitOn(tt, start, end, v);
    }

    /**
      The recursive case of `_shannon_expand`: the first half of the slice
      becomes the low child and the second half the high child, both on
      variable `v + 1`, joined by `make_node` on `v`.
    */
    method SplitOn(tt: seq<int>, start: int, end: int, v: int) returns (node: BddNode)
      requires Valid() && 0 <= start <= end <= |tt| && 0 <= v < numVars && end - start == Pow2(numVars - v)
      modifies this
      decreases numVars - v, 0
      ensures Valid() && Has(node) && Grows(old(allNodes), allNodes) && Wf(node)
      ensures AddedUnder(old(allNodes), allNodes, node)
      ensures Represents(node, tt, start, v, numVars) && Ordered(node, v)
    {
      var mid := start + (end - start) / 2;
      Halves(start, mid, end, v, numVars);
      ghost var before := allNodes;
      var fLow := ShannonExpand(tt, start, mid, v + 1);
      ghost var afterLow := allNodes;
      var fHigh := ShannonExpand(tt, mid, end, v + 1);
      ghost var afterHigh := allNodes;
      node := MakeNode(v, fLow, fHigh);
      SplitStep(tt, start, mid, end, v, numVars, node, fLow, fHigh);
      AddedJoin(before, afterLow, afterHigh, allNodes, node, fLow, fHigh);
    }

    /** A constant slice of `2^(numVars - v)` entries is read at every row as that constant. */
    lemma ConstantSlice(tt: seq<int>, start: int, end: int, v: int, c: int)
      requires 0 <= start <= end <= |tt| && 0 <= v <= numVars && end - start == Pow2(numVars - v)
      requires AllAre(tt[start..end], c)
      ensures forall row: string :: |row| == numVars ==> start + BitsValue(row[v..]) < end && tt[start + BitsValue(row[v..])] == c
    {
      forall row: string | |row| == numVars
        ensures start + BitsValue(row[v..]) < end && tt[start + BitsValue(row[v..])] == c
      {
        assert tt[start..end][BitsValue(row[v..])] == c;
      }
    }

    /**
      `build_from_truth_table`: a table whose length is not `2^numVars` is an
      error; otherwise the diagram reaches the 1 terminal at row `i` of the
      input enumeration exactly when entry `i` is 1, and its variables
      increase along every path.
    */
    method BuildFromTruthTable(tt: seq<int>, varNames: seq<string>) returns (r: Result<BddNode, string>)
      requires Valid()
      modifies this
      ensures Valid() && Grows(old(allNodes), allNodes)
      ensures r.Err? <==> numVars < 0 || |tt| != Pow2(numVars)
      ensures r.Err? ==> unchanged(this)
      ensures r.Ok? ==> Has(r.value) && Wf(r.value) && Ordered(r.value, 0) && Below(r.value, numVars)
      ensures r.Ok? ==> AddedUnder(old(allNodes), allNodes, r.value)
      ensures r.Ok? ==> numVars >= 0 && |Product(numVars)| == |tt|
      ensures r.Ok? ==> forall i :: 0 <= i < |tt| ==>
        |Product(numVars)[i]| == numVars && (Eval(r.value, Product(numVars)[i]) <==> tt[i] == 1)
    {
      if numVars < 0 || |tt| != Pow2(numVars) {
        return Err("Truth table size " + ShowNat(|tt|) + " != 2^" + ShowInt(numVars));
      }
      var root := ShannonExpand(tt, 0, |tt|, 0);
      RootRows(root, tt, numVars);
      r := Ok(root);
    }

    /**
      `build_from_minterm_spec`: the function that is 1 exactly on the
      on-set; don't-cares read as 0.  A negative input count, or one that
      differs from the manager's, is an error.
    */
    method BuildFromMintermSpec(nInputs: int, on: set<int>, dc: set<int>) returns (r: Result<BddNode, string>)
      requires Valid()
      modifies this
      ensures Valid() && Grows(old(allNodes), allNodes)
      ensures r.Err? <==> nInputs < 0 || nInputs != numVars
      ensures r.Err? ==> unchanged(this)
      ensures r.Ok? ==> Has(r.value) && Wf(r.value) && Ordered(r.value, 0) && Below(r.value, numVars)
      ensures r.Ok? ==> AddedUnder(old(allNodes), allNodes, r.value)
      ensures r.Ok? ==> numVars >= 0 && |Product(numVars)| == Pow2(numVars)
      ensures r.Ok? ==> forall i :: 0 <= i < Pow2(numVars) ==>
        |Product(numVars)[i]| == numVars && (Eval(r.value, Product(numVars)[i]) <==> i in on)
    {
      if nInputs < 0 {
        return Err("2 ** n_inputs is not an integer count");
      }
      var tt := MintermTable(nInputs, on);
      var varNames := seq(nInputs, i requires 0 <= i => "x" + ShowNat(i));
      if numVars >= 0 && Pow2(nInputs) == Pow2(numVars) {
        Pow2Injective(nInputs, numVars);
      }
      r := BuildFromTruthTable(tt, varNames);
    }

    /** `get_node_count`: the number of recorded nodes, terminals included. */
    function NodeCount(): (r: nat)
      reads this
      ensures Valid() ==> r == nextId
    {
      NodeIds(zero, one, nextId, uniqueTable, allNodes);
      |allNodes|
    }

    /** `get_non_terminal_count`: the recorded nodes that test a variable. */
    function NonTerminalCount(): (r: nat)
      reads this
      ensures Valid() ==> r == NodeCount() - 2
    {
      TestNodes(zero, one, nextId, uniqueTable, allNodes);
      |set i | i in allNodes && !allNodes[i].IsTerminal()|
    }
  }

  /** In a valid manager the unique table is canonical: two test nodes with the same key are one node. */
  lemma Canonical(b: Bdd, m: BddNode, n: BddNode)
    requires b.Valid() && b.Has(m) && b.Has(n)
    requires !m.IsTerminal() && !n.IsTerminal()
    requires m.variable == n.variable && m.low == n.low && m.high == n.high
    ensures m == n
  {
    assert m.id >= 2 && n.id >= 2;
    assert b.uniqueTable[KeyOf(m)] == m;
  }

  /** In a valid manager no test node has equal children: the redundant-test rule always applied. */
  lemma Reduced(b: Bdd, n: BddNode)
    requires b.Valid() && b.Has(n) && !n.IsTerminal()
    ensures n.low != n.high
  {
    assert n.id >= 2;
    assert b.uniqueTable[KeyOf(n)] == n;
  }
}
