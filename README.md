# Employee directory: a verified model

This project models the employee directory in `Employee.cpp`. The directory is a binary search tree of employee records keyed by `EmployeeID`, and is filled from a text file of one employee per line. The model covers:

- insertion, where a duplicate id is ignored;
- point search and `findMin`;
- deletion with in-order-successor splicing;
- ascending and descending traversal;
- the public `addEmployee` / `deleteEmployee` / `searchAndDisplay` / `display…` operations;
- the two text helpers used when loading: `stringToInt` and the five-token line splitter.

Layout:

- `options.dfy`: `Option`. It stands in for a null pointer or a skipped line.
- `employee_tree.dfy` (module `EmployeeTree`):
  - The `Employee` record and the `Tree` datatype. A node exclusively owns its two subtrees.
  - The ordering invariant `BST`, the key set `Keys`, and `Entries`. `Entries` is the map from id to record, and it is the abstract content of a tree.
  - The tree operations as functions. `findMin`'s `while` loop is the method `FindMin`, proved equal to `Leftmost`.
  - The lemmas about all of these.
- `text_parsing.dfy` (module `TextParsing`):
  - `stringToInt`'s loop is the method `StringToInt`, proved equal to `ParseInt`.
  - The tokenizer loop is the method `SplitLine`, with its `tokens[5]` array. It is proved equal to `Tokenize`.
  - Lemmas about both: reading back a printed integer, and which lines are accepted.
- `employee_directory.dfy` (module `Directory`):
  - The class `EmployeeDirectory`, with its mutable `root`.
  - The per-line load step `LoadLine` and the fold `LoadAll` over the file's lines.
  - Lemmas saying that loading keeps the invariant and that the first record read under an id wins.

Two points of the code that the model keeps as they are:

- The loader splits a line only at the space character. It accepts every line with at least four spaces: the first four tokens end at the first four spaces (they may be empty), and the fifth token is the whole rest of the line, spaces included. `Tokenize` and `TokenizeAcceptsIffFourSpaces` state exactly this.
- `deleteEmployee` on a missing id prints a message and returns nothing. `DeleteEmployee` returns a `bool` in place of that message.

## Model

| member | source | states |
|---|---|---|
| `EmployeeTree.Entries` | Employee.cpp:22-31 | the records of a tree as a map whose domain is exactly the tree's id set and in which each record is filed under its own `EmployeeID` |
| `EmployeeTree.Insert` | Employee.cpp:42-52 | the id set after `insert` is the old id set plus the new id |
| `EmployeeTree.InsertKeepsBST` | Employee.cpp:42-52 | `insert` keeps the ordering invariant (left ids smaller, right ids larger) |
| `EmployeeTree.InsertFoundIsNoOp` | Employee.cpp:46-51 | when `search` already finds the id, `insert` returns the tree unchanged: no payload is overwritten and no link changes |
| `EmployeeTree.InsertEntries` | Employee.cpp:42-52 | on a search tree, a new id gains the inserted record and every other record is kept; an existing id keeps its old record |
| `EmployeeTree.InsertThenSearch` | Employee.cpp:42-63 | searching right after an insert finds the inserted record when its id was new; every other search answers as before |
| `EmployeeTree.Search` | Employee.cpp:53-63 | a record found by `search` carries the requested id, and that id is in the tree |
| `EmployeeTree.SearchCorrect` | Employee.cpp:53-63 | on a search tree, `search` returns the stored record exactly when the id is present, and null (`None`) otherwise, including on the empty tree |
| `EmployeeTree.Leftmost` | Employee.cpp:64-70 | the leftmost record of a non-empty tree is one of its records |
| `EmployeeTree.FindMin` | Employee.cpp:64-70 | the `while` loop returns null for an empty tree and the leftmost record otherwise; on a search tree, that record has the smallest id and is the record stored under it |
| `EmployeeTree.LeftmostIsMinimum` | Employee.cpp:64-70 | on a search tree, the leftmost record has the minimum id of the tree and is the record stored under that id |
| `EmployeeTree.DeleteNode` | Employee.cpp:71-96 | `deleteNode` never adds an id |
| `EmployeeTree.DeleteMissingIsNoOp` | Employee.cpp:71-96 | deleting an id that `search` does not find returns the tree unchanged |
| `EmployeeTree.DeleteNodeKeepsBST` | Employee.cpp:71-96 | on a search tree, `deleteNode` keeps the ordering invariant, and the id set becomes the old one minus `id` |
| `EmployeeTree.DeleteSuccessorKeepsBST` | Employee.cpp:87-93 | the two-child splice keeps the invariant and removes exactly the deleted id, given that deleting the successor from the right subtree does |
| `EmployeeTree.DeleteNodeEntries` | Employee.cpp:71-96 | on a search tree, `deleteNode` removes exactly the record under `id` and keeps every other record with its payload |
| `EmployeeTree.DeleteSuccessorEntries` | Employee.cpp:87-93 | copying the successor's fields into the node, then deleting the successor below it, removes just the deleted id's record |
| `EmployeeTree.DeleteTwoChildrenPromotesSuccessor` | Employee.cpp:87-93 | in the two-child case the left subtree is kept and the node takes the full record stored under the smallest id greater than the deleted one; that id no longer occurs in the new right subtree |
| `EmployeeTree.InOrderIds` | Employee.cpp:97-103 | every record listed by `InOrder` carries an id of the tree |
| `EmployeeTree.InOrderAscending` | Employee.cpp:97-103 | on a search tree, the in-order sequence has strictly increasing ids |
| `EmployeeTree.InOrderListsEntries` | Employee.cpp:97-103 | on a search tree, a record appears in the in-order sequence exactly when it is the record stored under its id |
| `EmployeeTree.ReverseInOrderIsReversed` | Employee.cpp:97-110 | for every tree, the reverse in-order sequence is exactly the in-order sequence reversed |
| `EmployeeTree.ReverseInOrderDescending` | Employee.cpp:104-110 | on a search tree, the reverse in-order sequence has strictly decreasing ids |
| `EmployeeTree.PostOrderVisitsEachNodeOnce` | Employee.cpp:111-117 | `destroyTree`'s post-order visit releases the same records as the in-order walk, each as many times (once per node) |
| `TextParsing.DigitRun` | Employee.cpp:13-19 | the length of the digit run the loop consumes: all digits, followed by a non-digit or the end |
| `TextParsing.DigitRunIsUnique` | Employee.cpp:13-19 | a digit prefix followed by a non-digit or the end is that run |
| `TextParsing.StringToInt` | Employee.cpp:5-21 | the loop returns `ParseInt(s)`: the sign of an optional leading `-` times the value of the longest digit run after it, stopping at the first non-digit |
| `TextParsing.ParseIntOfIntToString` | Employee.cpp:5-21 | `stringToInt` reads back the decimal rendering of any integer, however the token continues after a non-digit |
| `TextParsing.ParseIntSign` | Employee.cpp:5-21 | the result is negative only if the first character is `-`; a leading `-` never gives a positive result; no digits gives 0 |
| `TextParsing.FindSpace` | Employee.cpp:130 | a position returned by `find(' ', pos_start)` holds a space and lies at or after `pos_start` |
| `TextParsing.FindSpaceIsFirst` | Employee.cpp:130 | `find` skips no space: nothing before the returned position (or before the end, for `npos`) is a space |
| `TextParsing.FindSpaceAt` | Employee.cpp:130 | the first space at or after `pos_start` is the position `find` returns |
| `TextParsing.SplitLine` | Employee.cpp:126-137 | the tokenizer loop, over the `tokens[5]` array, yields `Tokenize(line)`: five tokens when four spaces were found, none otherwise |
| `TextParsing.SplitFieldsShape` | Employee.cpp:130-136 | a successful split gives exactly n space-free tokens and a remainder; joined with single spaces they give back the input |
| `TextParsing.SplitFieldsSucceedsIffSpaces` | Employee.cpp:130-137 | the split into n cuts succeeds exactly when the input holds at least n spaces |
| `TextParsing.SplitFieldsOfJoin` | Employee.cpp:130-136 | space-free tokens followed by any remainder, joined with spaces, are split back into the same tokens |
| `TextParsing.TokenizeAcceptsIffFourSpaces` | Employee.cpp:126-137 | a line yields tokens exactly when it has at least four spaces; the first four tokens are the space-free pieces between spaces, and the fifth is the whole remainder |
| `Directory.ParseLine` | Employee.cpp:137-143 | a line yields a record exactly when it has at least four spaces |
| `Directory.LoadLine` | Employee.cpp:137-145 | a line with fewer than four spaces leaves the tree unchanged; otherwise the parsed record's id joins the id set |
| `Directory.ParseLineOfRecordLine` | Employee.cpp:126-143 | a record whose names and department hold no space, written as its five fields joined by single spaces, is read back unchanged: the id is `stringToInt` of token 0, tokens 1 to 3 are the first name, last name and department, and the salary is `stringToInt` of token 4 |
| `Directory.LoadAllKeepsBST` | Employee.cpp:125-146 | loading any sequence of lines keeps the ordering invariant |
| `Directory.LoadAllEntries` | Employee.cpp:125-146 | the records after loading do not depend on the tree's shape: for each id, the first line read wins and later duplicates are dropped |
| `Directory.EmployeeDirectory.constructor` | Employee.cpp:151-153 | the directory starts empty, loads the given file lines, and holds a search tree with the first-wins records of those lines |
| `Directory.EmployeeDirectory.LoadEmployees` | Employee.cpp:125-146 | the read loop keeps the invariant and leaves `root` equal to `LoadAll` of the old root and the lines |
| `Directory.EmployeeDirectory.AddEmployee` | Employee.cpp:162-166 | `root` becomes `insert` of the new record; a new id gains the record, an existing id keeps its old one; the invariant is kept |
| `Directory.EmployeeDirectory.DeleteEmployee` | Employee.cpp:167-174 | reports whether the id was present; an absent id leaves `root` untouched; otherwise `root` becomes `deleteNode`'s result, and the records lose exactly that id |
| `Directory.EmployeeDirectory.SearchAndDisplay` | Employee.cpp:175-184 | returns the record stored under the id, or `None` where the source prints "not found" |
| `Directory.EmployeeDirectory.DisplayAllAscending` | Employee.cpp:185-189 | the rows printed are the in-order sequence: every stored record once, by strictly increasing id |
| `Directory.EmployeeDirectory.DisplayAllDescending` | Employee.cpp:190-194 | the rows printed are the in-order rows reversed, by strictly decreasing id |
| `Directory.MainScenario` | Employee.cpp:196-207 | `main`'s calls on an initially empty directory: misses for 1234 and 9999, listings 1230, 1237, 1240 and back, and `deleteEmployee(1233)` stops at its failed `search`, so the tree and the final ascending listing are unchanged |

## Left out

- In-place relinking: `insert` and `deleteNode` rewrite `node->left`/`node->right` and overwrite a node's fields one by one. Here they build the new tree as a value, so aliasing and pointer identity are not modelled. The two-child case is modelled as a node that takes the successor's whole record.
- Memory management is not modelled: `delete node` in `deleteNode`, and the leak of the freshly allocated node when `addEmployee` or the loader inserts a duplicate id. `destroyTree` is modelled only through the order in which it visits the nodes (`PostOrder`).
- File I/O is not modelled: `ifstream`, `getline`, the open-failure message, and the hard-coded name `employee.txt`. The constructor takes the file's lines as a parameter. Line-ending handling such as a trailing `\r` belongs to `getline` and is not modelled.
- Console output is not modelled: `displayRecord`, `printHeader`, and the messages of `addEmployee`, `deleteEmployee`, `searchAndDisplay` and the display functions. The operations return what they would print: a found flag, an optional record, or the sequence of rows.
- StringToInt: uses unbounded integers. The C++ `result * 10 + digit` overflows a 32-bit `int` (undefined behaviour) on long digit runs, and that is not modelled. `EmployeeID` and `Salary` are likewise unbounded `int`s.
- Strings are sequences of `char`, where the code's `std::string` holds bytes; only the space and the digits `'0'` to `'9'` matter to the parsing rules, so this changes nothing modelled.
- MainScenario: starts from an empty directory. `main`'s directory first loads `employee.txt`, whose contents are not part of this model.
- Recursion depth and stack use on degenerate (chain-shaped) trees are not modelled.
