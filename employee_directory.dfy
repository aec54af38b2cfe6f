/**
 * `EmployeeDirectory` (Employee.cpp): the mutable root of the employee tree,
 * filled from the lines of the employee file and changed by `addEmployee`
 * and `deleteEmployee`. The file's contents are passed in as a sequence of
 * lines; the console output is replaced by returned values.
 */
module Directory {
  import opened Options
  import opened EmployeeTree
  import opened TextParsing

  /** The record a line of the file describes, or `None` for a line that is skipped. */
  function ParseLine(line: string): (e: Option<Employee>)
    ensures e.Some? <==> multiset(line)[' '] >= 4
  {
    TokenizeAcceptsIffFourSpaces(line);
    match Tokenize(line)
    case None => None
    case Some(tokens) =>
      Some(Employee(ParseInt(tokens[0]), tokens[1], tokens[2], tokens[3], ParseInt(tokens[4])))
  }

  /** A record written as one line of the file: its five fields separated by single spaces. */
  function RecordLine(e: Employee): string {
    IntToString(e.employeeId) + " " + e.firstName + " " + e.lastName + " " + e.department + " " +
    IntToString(e.salary)
  }

  /** One round of the read loop: a line that parses is inserted, any other line is skipped. */
  function LoadLine(t: Tree, line: string): (r: Tree)
    ensures multiset(line)[' '] < 4 ==> r == t
    ensures multiset(line)[' '] >= 4 ==> Keys(r) == Keys(t) + {ParseLine(line).value.employeeId}
  {
    match ParseLine(line)
    case None => t
    case Some(e) => Insert(t, e)
  }

  /** The tree after reading `lines` in order into `t`. */
  function LoadAll(t: Tree, lines: seq<string>): Tree {
    if lines == [] then t else LoadLine(LoadAll(t, lines[..|lines| - 1]), lines[|lines| - 1])
  }

  /** The records after reading `lines` in order into `m`: the first record read under an id is the one kept. */
  function Absorb(m: map<int, Employee>, lines: seq<string>): map<int, Employee> {
    if lines == [] then m
    else
      var before := Absorb(m, lines[..|lines| - 1]);
      match ParseLine(lines[|lines| - 1])
      case None => before
      case Some(e) => if e.employeeId in before then before else before[e.employeeId := e]
  }

  // ---------------------------------------------------------------------------
  // Lemmas

  /** Reading one more line is one more round of the read loop. */
  lemma LoadAllStep(t: Tree, lines: seq<string>, i: nat)
    requires i < |lines|
    ensures LoadAll(t, lines[..i + 1]) == LoadLine(LoadAll(t, lines[..i]), lines[i])
  {
    assert lines[..i + 1][..i] == lines[..i];
  }

  /** A line that splits into tokens is inserted as the record those tokens describe. */
  lemma LoadLineParsed(t: Tree, line: string, tokens: seq<string>)
    requires Tokenize(line) == Some(tokens)
    ensures |tokens| == 5
    ensures LoadLine(t, line) ==
      Insert(t, Employee(ParseInt(tokens[0]), tokens[1], tokens[2], tokens[3], ParseInt(tokens[4])))
  {
    TokenizeAcceptsIffFourSpaces(line);
  }

  lemma NoSpaceInIntToString(x: int)
    ensures ' ' !in IntToString(x)
  {
    var digits := NatToString(if x < 0 then -x else x);
    assert ' ' !in digits by {
      forall i | 0 <= i < |digits|
        ensures digits[i] != ' '
      {
        assert IsDigit(digits[i]);
      }
    }
    if x < 0 {
      assert IntToString(x) == "-" + digits;
    }
  }

  /** A record whose name and department hold no space is read back from the line it is written as. */
  lemma ParseLineOfRecordLine(e: Employee)
    requires ' ' !in e.firstName && ' ' !in e.lastName && ' ' !in e.department
    ensures ParseLine(RecordLine(e)) == Some(e)
  {
    var tokens := [IntToString(e.employeeId), e.firstName, e.lastName, e.department, IntToString(e.salary)];
    NoSpaceInIntToString(e.employeeId);
    assert JoinWithSpaces(tokens[4..]) == tokens[4];
    assert JoinWithSpaces(tokens[3..]) == tokens[3] + " " + JoinWithSpaces(tokens[4..]);
    assert JoinWithSpaces(tokens[2..]) == tokens[2] + " " + JoinWithSpaces(tokens[3..]);
    assert JoinWithSpaces(tokens[1..]) == tokens[1] + " " + JoinWithSpaces(tokens[2..]);
    assert JoinWithSpaces(tokens) == RecordLine(e);
    SplitFieldsOfJoin(tokens);
    ParseIntOfIntToString(e.employeeId, []);
    ParseIntOfIntToString(e.salary, []);
    assert IntToString(e.employeeId) + [] == IntToString(e.employeeId);
    assert IntToString(e.salary) + [] == IntToString(e.salary);
  }

  /** Reading the file keeps the ordering invariant. */
  lemma {:induction false} LoadAllKeepsBST(t: Tree, lines: seq<string>)
    requires BST(t)
    ensures BST(LoadAll(t, lines))
    decreases |lines|
  {
    if lines != [] {
      LoadAllKeepsBST(t, lines[..|lines| - 1]);
      var u := LoadAll(t, lines[..|lines| - 1]);
      if ParseLine(lines[|lines| - 1]).Some? {
        InsertKeepsBST(u, ParseLine(lines[|lines| - 1]).value);
      }
    }
  }

  /**
   * The records held after reading the file do not depend on the shape of the
   * tree: the first line read under each id wins, later duplicates are dropped.
   */
  lemma {:induction false} LoadAllEntries(t: Tree, lines: seq<string>)
    requires BST(t)
    ensures Entries(LoadAll(t, lines)) == Absorb(Entries(t), lines)
    decreases |lines|
  {
    if lines != [] {
      var front := lines[..|lines| - 1];
      LoadAllEntries(t, front);
      LoadAllKeepsBST(t, front);
      var u := LoadAll(t, front);
      if ParseLine(lines[|lines| - 1]).Some? {
        InsertEntries(u, ParseLine(lines[|lines| - 1]).value);
      }
    }
  }

  // ---------------------------------------------------------------------------
  // The directory object

  class EmployeeDirectory {
    var root: Tree

    ghost predicate Valid()
      reads this
    {
      BST(root)
    }

    /** The directory loaded from the lines of its employee file. */
    constructor (fileLines: seq<string>)
      ensures Valid()
      ensures root == LoadAll(Nil, fileLines)
      ensures Entries(root) == Absorb(map[], fileLines)
    {
      root := Nil;
      new;
      LoadEmployees(fileLines);
      LoadAllEntries(Nil, fileLines);
    }

    /** `loadEmployeesFromFile` without the file: every line is split and, if it has five tokens, inserted. */
    method LoadEmployees(lines: seq<string>)
      requires Valid()
      modifies this
      ensures Valid()
      ensures root == LoadAll(old(root), lines)
    {
      var i := 0;
      while i < |lines|
        invariant 0 <= i <= |lines|
        invariant BST(root)
        invariant root == LoadAll(old(root), lines[..i])
      {
        var line := lines[i];
        LoadAllStep(old(root), lines, i);
        var fields := SplitLine(line);
        if fields.Some? {
          var tokens := fields.value;
          LoadLineParsed(root, line, tokens);
          var id := StringToInt(tokens[0]);
          var salary := StringToInt(tokens[4]);
          var newEmployee := Employee(id, tokens[1], tokens[2], tokens[3], salary);
          InsertKeepsBST(root, newEmployee);
          root := Insert(root, newEmployee);
        }
        i := i + 1;
      }
      assert lines[..i] == lines;
    }

    /** `addEmployee`: a new id adds the record; an id already present keeps the old record. */
    method AddEmployee(id: int, firstName: string, lastName: string, department: string, salary: int)
      requires Valid()
      modifies this
      ensures Valid()
      ensures root == Insert(old(root), Employee(id, firstName, lastName, department, salary))
      ensures Entries(root) ==
        if id in old(Keys(root)) then old(Entries(root))
        else old(Entries(root))[id := Employee(id, firstName, lastName, department, salary)]
    {
      var newEmployee := Employee(id, firstName, lastName, department, salary);
      InsertKeepsBST(root, newEmployee);
      InsertEntries(root, newEmployee);
      root := Insert(root, newEmployee);
    }

    /**
     * `deleteEmployee`: an id that `search` does not find leaves the tree alone
     * and reports failure; otherwise `deleteNode` removes exactly that record.
     */
    method DeleteEmployee(id: int) returns (deleted: bool)
      requires Valid()
      modifies this
      ensures Valid()
      ensures deleted <==> id in old(Keys(root))
      ensures !deleted ==> root == old(root)
      ensures deleted ==> root == DeleteNode(old(root), id)
      ensures Entries(root) == old(Entries(root)) - {id}
    {
      SearchCorrect(root, id);
      if Search(root, id).None? {
        return false;
      }
      DeleteNodeKeepsBST(root, id);
      DeleteNodeEntries(root, id);
      root := DeleteNode(root, id);
      deleted := true;
    }

    /** `searchAndDisplay`: the record stored under `id`, or `None` where the source reports "not found". */
    method SearchAndDisplay(id: int) returns (found: Option<Employee>)
      requires Valid()
      ensures found == Search(root, id)
      ensures found == if id in Entries(root) then Some(Entries(root)[id]) else None
    {
      SearchCorrect(root, id);
      found := Search(root, id);
    }

    /** `displayAllAscending`: the rows printed, which list every stored record once, by increasing id. */
    method DisplayAllAscending() returns (rows: seq<Employee>)
      requires Valid()
      ensures rows == InOrder(root)
      ensures StrictlyAscending(rows)
      ensures forall e :: e in rows <==> e.employeeId in Entries(root) && Entries(root)[e.employeeId] == e
    {
      InOrderAscending(root);
      InOrderListsEntries(root);
      rows := InOrder(root);
    }

    /** `displayAllDescending`: the ascending rows in reverse order. */
    method DisplayAllDescending() returns (rows: seq<Employee>)
      requires Valid()
      ensures rows == ReverseInOrder(root)
      ensures rows == Reverse(InOrder(root))
      ensures StrictlyDescending(rows)
    {
      ReverseInOrderIsReversed(root);
      ReverseInOrderDescending(root);
      rows := ReverseInOrder(root);
    }
  }

  /** Ids of a sequence of records, in order. */
  function Ids(s: seq<Employee>): seq<int> {
    seq(|s|, i requires 0 <= i < |s| => s[i].employeeId)
  }

  /**
   * The calls of `main` on a directory that starts empty: three inserts,
   * misses on 1234 and 9999, the ascending and descending listings, then
   * `deleteEmployee(1233)`, which `search` rejects so that the tree and the
   * final ascending listing are unchanged.
   */
  lemma MainScenario()
    ensures var t := Insert(Insert(Insert(Nil,
        Employee(1230, "Ali", "Asad", "Retail", 20000)),
        Employee(1240, "Hareem", "Khan", "IT", 50000)),
        Employee(1237, "Ammara", "Usman", "Sales", 45000));
      && Search(t, 1234) == None
      && Search(t, 9999) == None
      && Ids(InOrder(t)) == [1230, 1237, 1240]
      && Ids(ReverseInOrder(t)) == [1240, 1237, 1230]
      && Search(t, 1233) == None
  {
    var a := Employee(1230, "Ali", "Asad", "Retail", 20000);
    var b := Employee(1240, "Hareem", "Khan", "IT", 50000);
    var c := Employee(1237, "Ammara", "Usman", "Sales", 45000);
    var t := Insert(Insert(Insert(Nil, a), b), c);
    assert t == Node(a, Nil, Node(b, Node(c, Nil, Nil), Nil));
    assert InOrder(t) == [a, c, b];
    assert ReverseInOrder(t) == [b, c, a];
  }
}
