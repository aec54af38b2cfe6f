/**
 * The binary search tree of employee records kept by `EmployeeDirectory`
 * (Employee.cpp), keyed by `EmployeeID`. Each node owns its two subtrees, so
 * the tree is modelled as a value; the abstract content of a tree is the map
 * `Entries` from employee id to record.
 */
module EmployeeTree {
  import opened Options

  /** The payload of an `Employee` node. */
  datatype Employee = Employee(
    employeeId: int,
    firstName: string,
    lastName: string,
    department: string,
    salary: int)

  /** `Nil` is the null pointer; `Node` is an `Employee` with its `left` and `right` links. */
  datatype Tree = Nil | Node(record: Employee, left: Tree, right: Tree)

  /** The ids stored anywhere in the tree. */
  function Keys(t: Tree): set<int> {
    match t
    case Nil => {}
    case Node(e, l, r) => Keys(l) + {e.employeeId} + Keys(r)
  }

  /** The ordering invariant: every id on the left is smaller, every id on the right larger. */
  ghost predicate BST(t: Tree) {
    match t
    case Nil => true
    case Node(e, l, r) =>
      && (forall k :: k in Keys(l) ==> k < e.employeeId)
      && (forall k :: k in Keys(r) ==> e.employeeId < k)
      && BST(l) && BST(r)
  }

  /** The records of the tree indexed by id: what the directory holds, whatever its shape. */
  function Entries(t: Tree): (m: map<int, Employee>)
    ensures m.Keys == Keys(t)
    ensures forall k :: k in m ==> m[k].employeeId == k
  {
    match t
    case Nil => map[]
    case Node(e, l, r) => (Entries(l) + Entries(r))[e.employeeId := e]
  }

  /** `insert`: descend by comparison and hang a new leaf; an equal id leaves the tree as it is. */
  function Insert(t: Tree, e: Employee): (r: Tree)
    ensures Keys(r) == Keys(t) + {e.employeeId}
  {
    match t
    case Nil => Node(e, Nil, Nil)
    case Node(n, l, rt) =>
      if e.employeeId < n.employeeId then Node(n, Insert(l, e), rt)
      else if e.employeeId > n.employeeId then Node(n, l, Insert(rt, e))
      else t
  }

  /** `search`: the record whose id equals `id` on the comparison path, or `None` for null. */
  function Search(t: Tree, id: int): (found: Option<Employee>)
    ensures found.Some? ==> found.value.employeeId == id && id in Keys(t)
  {
    match t
    case Nil => None
    case Node(e, l, r) =>
      if e.employeeId == id then Some(e)
      else if id < e.employeeId then Search(l, id)
      else Search(r, id)
  }

  /** The record reached by following `left` links from the root of a non-empty tree. */
  function Leftmost(t: Tree): (m: Employee)
    requires t.Node?
    ensures m.employeeId in Keys(t)
    ensures m in InOrder(t)
  {
    if t.left.Nil? then t.record else Leftmost(t.left)
  }

  /**
   * `findMin`: walks `current` down the left links; a null tree gives `None`.
   */
  method FindMin(t: Tree) returns (m: Option<Employee>)
    ensures t.Nil? ==> m.None?
    ensures t.Node? ==> m == Some(Leftmost(t))
    ensures BST(t) && t.Node? ==>
      m.value.employeeId in Entries(t) && Entries(t)[m.value.employeeId] == m.value &&
      forall k :: k in Keys(t) ==> m.value.employeeId <= k
  {
    if t.Nil? {
      return None;
    }
    var current := t;
    while current.left != Nil
      invariant current.Node? && Leftmost(current) == Leftmost(t)
      decreases current
    {
      current := current.left;
    }
    m := Some(current.record);
    if BST(t) {
      LeftmostIsMinimum(t);
    }
  }

  /**
   * `deleteNode`: a node with at most one child is replaced by that child; a
   * node with two children takes the whole record of the leftmost node of its
   * right subtree, which is then deleted from the right subtree.
   */
  function DeleteNode(t: Tree, id: int): (r: Tree)
    ensures Keys(r) <= Keys(t)
  {
    match t
    case Nil => Nil
    case Node(e, l, rt) =>
      if id < e.employeeId then Node(e, DeleteNode(l, id), rt)
      else if id > e.employeeId then Node(e, l, DeleteNode(rt, id))
      else if l.Nil? then rt
      else if rt.Nil? then l
      else
        var successor := Leftmost(rt);
        Node(successor, l, DeleteNode(rt, successor.employeeId))
  }

  /** `InOrder`: left subtree, node, right subtree, as the sequence of records visited. */
  function InOrder(t: Tree): seq<Employee> {
    match t
    case Nil => []
    case Node(e, l, r) => InOrder(l) + [e] + InOrder(r)
  }

  /** `reverseInorder`: right subtree, node, left subtree. */
  function ReverseInOrder(t: Tree): seq<Employee> {
    match t
    case Nil => []
    case Node(e, l, r) => ReverseInOrder(r) + [e] + ReverseInOrder(l)
  }

  /** The order in which `destroyTree` releases the nodes: both children before the node. */
  function PostOrder(t: Tree): seq<Employee> {
    match t
    case Nil => []
    case Node(e, l, r) => PostOrder(l) + PostOrder(r) + [e]
  }

  function Reverse<T>(s: seq<T>): (r: seq<T>)
    ensures |r| == |s|
  {
    if s == [] then [] else Reverse(s[1..]) + [s[0]]
  }

  ghost predicate StrictlyAscending(s: seq<Employee>) {
    forall i, j :: 0 <= i < j < |s| ==> s[i].employeeId < s[j].employeeId
  }

  ghost predicate StrictlyDescending(s: seq<Employee>) {
    forall i, j :: 0 <= i < j < |s| ==> s[i].employeeId > s[j].employeeId
  }

  // ---------------------------------------------------------------------------
  // Search

  /** On a search tree, `search` finds exactly the stored record for `id`, and nothing for an absent id. */
  lemma {:induction false} SearchCorrect(t: Tree, id: int)
    requires BST(t)
    ensures Search(t, id) == if id in Entries(t) then Some(Entries(t)[id]) else None
  {
    match t
    case Nil =>
    case Node(e, l, r) =>
      if id < e.employeeId {
        SearchCorrect(l, id);
        assert id !in Keys(r);
      } else if id > e.employeeId {
        SearchCorrect(r, id);
        assert id !in Keys(l);
      }
  }

  // ---------------------------------------------------------------------------
  // Insert

  /** Insertion keeps the ordering invariant. */
  lemma {:induction false} InsertKeepsBST(t: Tree, e: Employee)
    requires BST(t)
    ensures BST(Insert(t, e))
  {
    match t
    case Nil =>
    case Node(n, l, r) =>
      if e.employeeId < n.employeeId {
        InsertKeepsBST(l, e);
      } else if e.employeeId > n.employeeId {
        InsertKeepsBST(r, e);
      }
  }

  /** An id that `search` already finds makes `insert` a no-op: no payload and no link changes. */
  lemma {:induction false} InsertFoundIsNoOp(t: Tree, e: Employee)
    requires Search(t, e.employeeId).Some?
    ensures Insert(t, e) == t
  {
    match t
    case Nil =>
    case Node(n, l, r) =>
      if e.employeeId < n.employeeId {
        InsertFoundIsNoOp(l, e);
      } else if e.employeeId > n.employeeId {
        InsertFoundIsNoOp(r, e);
      }
  }

  /** On a search tree, insertion adds the record under a new id and keeps the old record under an existing one. */
  lemma {:induction false} InsertEntries(t: Tree, e: Employee)
    requires BST(t)
    ensures Entries(Insert(t, e)) ==
      if e.employeeId in Keys(t) then Entries(t) else Entries(t)[e.employeeId := e]
  {
    match t
    case Nil =>
    case Node(n, l, r) =>
      var k := e.employeeId;
      if k < n.employeeId {
        InsertEntries(l, e);
        assert Insert(t, e) == Node(n, Insert(l, e), r);
        assert Entries(Insert(t, e)) == (Entries(Insert(l, e)) + Entries(r))[n.employeeId := n];
        if k !in Keys(l) {
          assert k !in Keys(r);
          UpdateLeftCommutes(Entries(l), Entries(r), n.employeeId, n, k, e);
        }
      } else if k > n.employeeId {
        InsertEntries(r, e);
        assert Insert(t, e) == Node(n, l, Insert(r, e));
        assert Entries(Insert(t, e)) == (Entries(l) + Entries(Insert(r, e)))[n.employeeId := n];
        if k !in Keys(r) {
          UpdateRightCommutes(Entries(l), Entries(r), n.employeeId, n, k, e);
        }
      }
  }

  /** Inserting and then searching the same id gives the inserted record, unless the id was already there. */
  lemma InsertThenSearch(t: Tree, e: Employee, id: int)
    requires BST(t)
    ensures Search(Insert(t, e), id) ==
      if id == e.employeeId && e.employeeId !in Keys(t) then Some(e) else Search(t, id)
  {
    InsertKeepsBST(t, e);
    InsertEntries(t, e);
    SearchCorrect(t, id);
    SearchCorrect(Insert(t, e), id);
  }

  // ---------------------------------------------------------------------------
  // findMin and the in-order successor

  /** The leftmost record of a search tree carries the smallest id and is the record stored under it. */
  lemma {:induction false} LeftmostIsMinimum(t: Tree)
    requires BST(t) && t.Node?
    ensures forall k :: k in Keys(t) ==> Leftmost(t).employeeId <= k
    ensures Leftmost(t).employeeId in Entries(t)
    ensures Entries(t)[Leftmost(t).employeeId] == Leftmost(t)
  {
    if t.left.Node? {
      LeftmostIsMinimum(t.left);
      assert Leftmost(t).employeeId !in Keys(t.right);
    }
  }

  // ---------------------------------------------------------------------------
  // deleteNode

  /** Deleting an id that `search` does not find returns the tree unchanged. */
  lemma {:induction false} DeleteMissingIsNoOp(t: Tree, id: int)
    requires Search(t, id).None?
    ensures DeleteNode(t, id) == t
  {
    match t
    case Nil =>
    case Node(e, l, r) =>
      if id < e.employeeId {
        DeleteMissingIsNoOp(l, id);
      } else if id > e.employeeId {
        DeleteMissingIsNoOp(r, id);
      }
  }

  /** On a search tree, deletion keeps the ordering invariant and removes exactly the id `id`. */
  lemma {:induction false} DeleteNodeKeepsBST(t: Tree, id: int)
    requires BST(t)
    ensures BST(DeleteNode(t, id))
    ensures Keys(DeleteNode(t, id)) == Keys(t) - {id}
  {
    match t
    case Nil =>
    case Node(e, l, r) =>
      var n := e.employeeId;
      if id < n {
        DeleteNodeKeepsBST(l, id);
        assert DeleteNode(t, id) == Node(e, DeleteNode(l, id), r);
      } else if id > n {
        DeleteNodeKeepsBST(r, id);
        assert DeleteNode(t, id) == Node(e, l, DeleteNode(r, id));
      } else if l.Nil? {
        assert DeleteNode(t, id) == r;
      } else if r.Nil? {
        assert DeleteNode(t, id) == l;
      } else {
        DeleteNodeKeepsBST(r, Leftmost(r).employeeId);
        DeleteSuccessorKeepsBST(t);
      }
  }

  /** The ordering after the two-child splice, given the ordering after deleting the successor below. */
  lemma DeleteSuccessorKeepsBST(t: Tree)
    requires BST(t) && t.Node? && t.left.Node? && t.right.Node?
    requires var s := Leftmost(t.right).employeeId;
      BST(DeleteNode(t.right, s)) && Keys(DeleteNode(t.right, s)) == Keys(t.right) - {s}
    ensures BST(DeleteNode(t, t.record.employeeId))
    ensures Keys(DeleteNode(t, t.record.employeeId)) == Keys(t) - {t.record.employeeId}
  {
    var e, l, r := t.record, t.left, t.right;
    var s := Leftmost(r);
    LeftmostIsMinimum(r);
    var d := DeleteNode(r, s.employeeId);
    assert DeleteNode(t, e.employeeId) == Node(s, l, d);
    assert forall k :: k in Keys(d) ==> s.employeeId < k by {
      forall k | k in Keys(d)
        ensures s.employeeId < k
      {
        assert k in Keys(r) && k != s.employeeId;
      }
    }
    assert forall k :: k in Keys(l) ==> k < s.employeeId by {
      forall k | k in Keys(l)
        ensures k < s.employeeId
      {
        assert k < e.employeeId;
      }
    }
    assert BST(Node(s, l, d));
    assert e.employeeId !in Keys(l) && e.employeeId !in Keys(r);
    assert Keys(Node(s, l, d)) == Keys(l) + Keys(r) by {
      assert Keys(Node(s, l, d)) == Keys(l) + {s.employeeId} + (Keys(r) - {s.employeeId});
    }
  }

  /** On a search tree, deletion removes exactly the record under `id` and keeps every other record. */
  lemma {:induction false} DeleteNodeEntries(t: Tree, id: int)
    requires BST(t)
    ensures Entries(DeleteNode(t, id)) == Entries(t) - {id}
  {
    match t
    case Nil =>
    case Node(e, l, r) =>
      var n := e.employeeId;
      if id < n {
        DeleteNodeEntries(l, id);
        assert Entries(DeleteNode(t, id)) == Entries(t) - {id} by {
          assert id !in Keys(r);
          var d := DeleteNode(l, id);
          assert DeleteNode(t, id) == Node(e, d, r);
          RemoveLeftCommutes(Entries(l), Entries(r), n, e, id);
        }
      } else if id > n {
        DeleteNodeEntries(r, id);
        assert Entries(DeleteNode(t, id)) == Entries(t) - {id} by {
          assert id !in Keys(l);
          var d := DeleteNode(r, id);
          assert DeleteNode(t, id) == Node(e, l, d);
          RemoveRightCommutes(Entries(l), Entries(r), n, e, id);
        }
      } else if l.Nil? || r.Nil? {
        assert Entries(DeleteNode(t, id)) == Entries(t) - {id} by {
          assert id !in Keys(l) && id !in Keys(r);
          assert DeleteNode(t, id) == if l.Nil? then r else l;
          RemoveRoot(Entries(l), Entries(r), n, e);
        }
      } else {
        DeleteNodeEntries(r, Leftmost(r).employeeId);
        DeleteSuccessorEntries(t);
      }
  }

  /** The entries after the two-child splice: the successor's record moves up and its old node goes. */
  lemma DeleteSuccessorEntries(t: Tree)
    requires BST(t) && t.Node? && t.left.Node? && t.right.Node?
    requires Entries(DeleteNode(t.right, Leftmost(t.right).employeeId)) == Entries(t.right) - {Leftmost(t.right).employeeId}
    ensures Entries(DeleteNode(t, t.record.employeeId)) == Entries(t) - {t.record.employeeId}
  {
    var e, l, r := t.record, t.left, t.right;
    var n := e.employeeId;
    var s := Leftmost(r);
    LeftmostIsMinimum(r);
    var d := DeleteNode(r, s.employeeId);
    assert Entries(d) == Entries(r) - {s.employeeId};
    assert DeleteNode(t, n) == Node(s, l, d);
    assert Entries(DeleteNode(t, n)) == (Entries(l) + Entries(d))[s.employeeId := s];
    assert Entries(t) == (Entries(l) + Entries(r))[n := e];
    assert n !in Keys(l) && n !in Keys(r) && s.employeeId !in Keys(l);
    RemoveRootBySuccessor(Entries(l), Entries(r), n, e, s.employeeId);
  }

  /**
   * The two-child case promotes the in-order successor: the node takes the
   * whole record of the smallest id greater than `id`, and that id is left in
   * the right subtree no more.
   */
  lemma DeleteTwoChildrenPromotesSuccessor(t: Tree)
    requires BST(t) && t.Node? && t.left.Node? && t.right.Node?
    ensures var d := DeleteNode(t, t.record.employeeId);
      var s := d.record;
      && d.Node? && d.left == t.left
      && s.employeeId in Keys(t.right)
      && t.record.employeeId < s.employeeId
      && (forall k :: k in Keys(t) && t.record.employeeId < k ==> s.employeeId <= k)
      && s == Entries(t)[s.employeeId]
      && s.employeeId !in Keys(d.right)
  {
    var r := t.right;
    LeftmostIsMinimum(r);
    DeleteNodeKeepsBST(r, Leftmost(r).employeeId);
  }

  // ---------------------------------------------------------------------------
  // Traversals

  /** Every record of a traversal is stored in the tree under its own id. */
  lemma {:induction false} InOrderIds(t: Tree)
    ensures forall e :: e in InOrder(t) ==> e.employeeId in Keys(t)
  {
    match t
    case Nil =>
    case Node(e, l, r) =>
      InOrderIds(l);
      InOrderIds(r);
  }

  /** On a search tree, the ascending traversal has strictly increasing ids. */
  lemma {:induction false} InOrderAscending(t: Tree)
    requires BST(t)
    ensures StrictlyAscending(InOrder(t))
  {
    match t
    case Nil =>
    case Node(e, l, r) =>
      InOrderAscending(l);
      InOrderAscending(r);
      InOrderIds(l);
      InOrderIds(r);
      var a, b := InOrder(l), InOrder(r);
      var s := InOrder(t);
      assert s == a + [e] + b;
      forall i, j | 0 <= i < j < |s|
        ensures s[i].employeeId < s[j].employeeId
      {
        if j < |a| {
          assert s[i] == a[i] && s[j] == a[j];
        } else if i > |a| {
          assert s[i] == b[i - |a| - 1] && s[j] == b[j - |a| - 1];
        } else {
          if i < |a| {
            assert s[i] == a[i] && s[i] in a;
          }
          if j > |a| {
            assert s[j] == b[j - |a| - 1] && s[j] in b;
          }
        }
      }
  }

  /** On a search tree, the ascending traversal lists exactly the stored records. */
  lemma {:induction false} InOrderListsEntries(t: Tree)
    requires BST(t)
    ensures forall e :: e in InOrder(t) <==> e.employeeId in Entries(t) && Entries(t)[e.employeeId] == e
  {
    match t
    case Nil =>
    case Node(n, l, r) =>
      InOrderListsEntries(l);
      InOrderListsEntries(r);
      InOrderIds(l);
      InOrderIds(r);
      forall e
        ensures e in InOrder(t) <==> e.employeeId in Entries(t) && Entries(t)[e.employeeId] == e
      {
        if e.employeeId < n.employeeId {
          assert e.employeeId !in Keys(r);
        } else if e.employeeId > n.employeeId {
          assert e.employeeId !in Keys(l);
        } else {
          assert e.employeeId !in Keys(l) && e.employeeId !in Keys(r);
        }
      }
  }

  lemma {:induction false} ReverseAppend<T>(a: seq<T>, b: seq<T>)
    ensures Reverse(a + b) == Reverse(b) + Reverse(a)
  {
    if a == [] {
      assert a + b == b;
    } else {
      assert (a + b)[1..] == a[1..] + b;
      ReverseAppend(a[1..], b);
    }
  }

  lemma {:induction false} ReverseAt<T>(s: seq<T>, k: nat)
    requires k < |s|
    ensures Reverse(s)[k] == s[|s| - 1 - k]
  {
    if k < |s| - 1 {
      ReverseAt(s[1..], k);
    }
  }

  /** The descending traversal is the ascending traversal read backwards, for every tree. */
  lemma {:induction false} ReverseInOrderIsReversed(t: Tree)
    ensures ReverseInOrder(t) == Reverse(InOrder(t))
  {
    match t
    case Nil =>
    case Node(e, l, r) =>
      ReverseInOrderIsReversed(l);
      ReverseInOrderIsReversed(r);
      ReverseAppend(InOrder(l) + [e], InOrder(r));
      ReverseAppend(InOrder(l), [e]);
  }

  /** On a search tree, the descending traversal has strictly decreasing ids. */
  lemma ReverseInOrderDescending(t: Tree)
    requires BST(t)
    ensures StrictlyDescending(ReverseInOrder(t))
  {
    ReverseInOrderIsReversed(t);
    InOrderAscending(t);
    var s := InOrder(t);
    forall i, j | 0 <= i < j < |s|
      ensures ReverseInOrder(t)[i].employeeId > ReverseInOrder(t)[j].employeeId
    {
      ReverseAt(s, i);
      ReverseAt(s, j);
    }
  }

  /** Teardown releases every node exactly once: the same records as the in-order walk. */
  lemma {:induction false} PostOrderVisitsEachNodeOnce(t: Tree)
    ensures multiset(PostOrder(t)) == multiset(InOrder(t))
  {
    match t
    case Nil =>
    case Node(e, l, r) =>
      PostOrderVisitsEachNodeOnce(l);
      PostOrderVisitsEachNodeOnce(r);
  }

  // ---------------------------------------------------------------------------
  // Map facts used to compare the entries of a node before and after a change

  lemma UpdateLeftCommutes<V>(a: map<int, V>, b: map<int, V>, n: int, x: V, k: int, v: V)
    requires k != n && k !in b
    ensures (a[k := v] + b)[n := x] == (a + b)[n := x][k := v]
  {
  }

  lemma UpdateRightCommutes<V>(a: map<int, V>, b: map<int, V>, n: int, x: V, k: int, v: V)
    requires k != n
    ensures (a + b[k := v])[n := x] == (a + b)[n := x][k := v]
  {
  }

  lemma RemoveLeftCommutes<V>(a: map<int, V>, b: map<int, V>, n: int, x: V, k: int)
    requires k != n && k !in b
    ensures ((a - {k}) + b)[n := x] == (a + b)[n := x] - {k}
  {
  }

  lemma RemoveRightCommutes<V>(a: map<int, V>, b: map<int, V>, n: int, x: V, k: int)
    requires k != n && k !in a
    ensures (a + (b - {k}))[n := x] == (a + b)[n := x] - {k}
  {
  }

  lemma RemoveRoot<V>(a: map<int, V>, b: map<int, V>, n: int, x: V)
    requires n !in a && n !in b
    ensures a + b == (a + b)[n := x] - {n}
  {
  }

  lemma RemoveRootBySuccessor<V>(a: map<int, V>, b: map<int, V>, n: int, x: V, s: int)
    requires n !in a && n !in b && s in b && s !in a
    ensures (a + (b - {s}))[s := b[s]] == (a + b)[n := x] - {n}
  {
  }
}
