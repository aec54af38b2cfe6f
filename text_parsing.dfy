/**
 * The two text helpers of Employee.cpp: `stringToInt`, and the splitting of
 * one line of the employee file into five tokens done inside
 * `loadEmployeesFromFile`.
 */
module TextParsing {
  import opened Options

  // ---------------------------------------------------------------------------
  // stringToInt

  predicate IsDigit(c: char) {
    '0' <= c <= '9'
  }

  predicate AllDigits(s: string) {
    forall i :: 0 <= i < |s| ==> IsDigit(s[i])
  }

  function DigitValue(c: char): (d: nat)
    requires IsDigit(c)
    ensures d < 10
  {
    (c as int) - ('0' as int)
  }

  /** The length of the longest prefix of `s` made of decimal digits. */
  function DigitRun(s: string): (n: nat)
    ensures n <= |s|
    ensures AllDigits(s[..n])
    ensures n < |s| ==> !IsDigit(s[n])
  {
    if |s| > 0 && IsDigit(s[0]) then
      var rest := DigitRun(s[1..]);
      assert s[..1 + rest] == [s[0]] + s[1..][..rest];
      1 + rest
    else
      0
  }

  /** The value of a string of decimal digits, most significant digit first. */
  function DecimalValue(d: string): nat
    requires AllDigits(d)
  {
    if d == [] then 0 else DecimalValue(d[..|d| - 1]) * 10 + DigitValue(d[|d| - 1])
  }

  /** 1 when `s` starts with a minus sign, where the digits then start; 0 otherwise. */
  function SignLength(s: string): (n: nat)
    ensures n <= |s|
  {
    if |s| > 0 && s[0] == '-' then 1 else 0
  }

  /** What `stringToInt` computes: an optional `-`, then the value of the longest run of digits. */
  function ParseInt(s: string): int {
    var start := SignLength(s);
    var digits := s[start..][..DigitRun(s[start..])];
    (if start == 1 then -1 else 1) * DecimalValue(digits)
  }

  /**
   * `stringToInt`: a `-` in the first position sets the sign, then digits are
   * accumulated until the first character that is not a digit.
   */
  method StringToInt(s: string) returns (value: int)
    ensures value == ParseInt(s)
  {
    var result := 0;
    var sign := 1;
    var i := 0;
    if |s| > 0 && s[0] == '-' {
      sign := -1;
      i := 1;
    }
    ghost var start := i;
    while i < |s|
      invariant start <= i <= |s|
      invariant AllDigits(s[start..i])
      invariant result == DecimalValue(s[start..i])
    {
      if IsDigit(s[i]) {
        assert s[start..i + 1][..i - start] == s[start..i];
        result := result * 10 + DigitValue(s[i]);
        i := i + 1;
      } else {
        break;
      }
    }
    assert s[start..][..i - start] == s[start..i];
    DigitRunIsUnique(s[start..], i - start);
    value := sign * result;
  }

  /** A digit prefix followed by a non-digit (or the end) is the longest one. */
  lemma {:induction false} DigitRunIsUnique(s: string, n: nat)
    requires n <= |s| && AllDigits(s[..n])
    requires n < |s| ==> !IsDigit(s[n])
    ensures DigitRun(s) == n
  {
    if n > 0 {
      assert s[0] == s[..n][0];
      assert s[1..][..n - 1] == s[..n][1..];
      DigitRunIsUnique(s[1..], n - 1);
    }
  }

  /** The decimal rendering of a natural number, as `operator<<` writes it. */
  function NatToString(n: nat): (s: string)
    ensures |s| > 0 && AllDigits(s)
  {
    var last := ('0' as int + n % 10) as char;
    if n < 10 then [last] else NatToString(n / 10) + [last]
  }

  /** The decimal rendering of an integer, with a leading `-` when it is negative. */
  function IntToString(x: int): (s: string)
    ensures |s| > 0
  {
    if x < 0 then "-" + NatToString(-x) else NatToString(x)
  }

  lemma {:induction false} DecimalValueOfNatToString(n: nat)
    ensures DecimalValue(NatToString(n)) == n
  {
    var s := NatToString(n);
    if n >= 10 {
      DecimalValueOfNatToString(n / 10);
      assert s[..|s| - 1] == NatToString(n / 10);
    }
  }

  /**
   * `stringToInt` reads back the decimal rendering of any integer, and stops
   * at the first character after it that is not a digit.
   */
  lemma ParseIntOfIntToString(x: int, rest: string)
    requires rest == [] || !IsDigit(rest[0])
    ensures ParseInt(IntToString(x) + rest) == x
  {
    var digits := NatToString(if x < 0 then -x else x);
    var s := IntToString(x) + rest;
    var start := SignLength(s);
    assert start == (if x < 0 then 1 else 0) by {
      if x >= 0 {
        assert s[0] == digits[0] && IsDigit(digits[0]);
      }
    }
    assert s[start..] == digits + rest;
    DigitRunIsUnique(digits + rest, |digits|);
    assert (digits + rest)[..|digits|] == digits;
    DecimalValueOfNatToString(if x < 0 then -x else x);
  }

  /** The result is negative only after a leading `-`, and 0 when no digit follows the sign. */
  lemma ParseIntSign(s: string)
    ensures ParseInt(s) < 0 ==> |s| > 0 && s[0] == '-'
    ensures |s| > 0 && s[0] == '-' ==> ParseInt(s) <= 0
    ensures DigitRun(s[SignLength(s)..]) == 0 ==> ParseInt(s) == 0
  {
    var start := SignLength(s);
    assert s[start..][..0] == [];
  }

  // ---------------------------------------------------------------------------
  // The per-line tokenizer of loadEmployeesFromFile

  /** `line.find(' ', from)`: the first space at or after `from`, `None` for `npos`. */
  function FindSpace(line: string, from: nat): (p: Option<nat>)
    requires from <= |line|
    ensures p.Some? ==> from <= p.value < |line| && line[p.value] == ' '
    decreases |line| - from
  {
    if from == |line| then None
    else if line[from] == ' ' then Some(from)
    else FindSpace(line, from + 1)
  }

  /** What `find` skips holds no space: the position found is the first one. */
  lemma {:induction false} FindSpaceIsFirst(line: string, from: nat)
    requires from <= |line|
    ensures FindSpace(line, from).Some? ==> ' ' !in line[from..FindSpace(line, from).value]
    ensures FindSpace(line, from).None? ==> ' ' !in line[from..]
    decreases |line| - from
  {
    if from < |line| && line[from] != ' ' {
      FindSpaceIsFirst(line, from + 1);
      var p := FindSpace(line, from + 1);
      if p.Some? {
        assert line[from..p.value] == [line[from]] + line[from + 1..p.value];
      } else {
        assert line[from..] == [line[from]] + line[from + 1..];
      }
    }
  }

  /**
   * Splits `s` at its first `n` spaces into `n` space-free tokens followed by
   * the whole remainder; `None` when `s` has fewer than `n` spaces.
   */
  function SplitFields(s: string, n: nat): Option<seq<string>>
    decreases n
  {
    if n == 0 then Some([s])
    else
      match FindSpace(s, 0)
      case None => None
      case Some(p) => Prepend([s[..p]], SplitFields(s[p + 1..], n - 1))
  }

  function Prepend(front: seq<string>, rest: Option<seq<string>>): Option<seq<string>> {
    match rest
    case None => None
    case Some(r) => Some(front + r)
  }

  /** The five tokens of a line of the employee file, or `None` for a line that is skipped. */
  function Tokenize(line: string): Option<seq<string>> {
    SplitFields(line, 4)
  }

  /** The tokens joined back with one space between neighbours. */
  function JoinWithSpaces(tokens: seq<string>): string
    requires |tokens| > 0
  {
    if |tokens| == 1 then tokens[0] else tokens[0] + " " + JoinWithSpaces(tokens[1..])
  }

  /** A space with no space before it (from `from` on) is what `find` returns. */
  lemma {:induction false} FindSpaceAt(s: string, from: nat, p: nat)
    requires from <= p < |s| && s[p] == ' ' && ' ' !in s[from..p]
    ensures FindSpace(s, from) == Some(p)
    decreases p - from
  {
    if from < p {
      assert s[from..p] == [s[from]] + s[from + 1..p];
      FindSpaceAt(s, from + 1, p);
    }
  }

  /** With no space from `from` on, `find` returns `npos`. */
  lemma {:induction false} FindSpaceIsNone(s: string, from: nat)
    requires from <= |s| && ' ' !in s[from..]
    ensures FindSpace(s, from) == None
    decreases |s| - from
  {
    if from < |s| {
      assert s[from..] == [s[from]] + s[from + 1..];
      FindSpaceIsNone(s, from + 1);
    }
  }

  /** Searching from `from` finds the first space of the suffix that starts there. */
  lemma FindSpaceInSuffix(line: string, from: nat)
    requires from <= |line|
    ensures FindSpace(line, from).None? ==> FindSpace(line[from..], 0).None?
    ensures FindSpace(line, from).Some? ==> FindSpace(line[from..], 0) == Some(FindSpace(line, from).value - from)
  {
    var rest := line[from..];
    assert rest[0..] == rest;
    FindSpaceIsFirst(line, from);
    match FindSpace(line, from)
    case None =>
      FindSpaceIsNone(rest, 0);
    case Some(p) =>
      assert rest[0..p - from] == line[from..p];
      FindSpaceAt(rest, 0, p - from);
  }

  /** The same split read from position `from` of `line` on, the way the loop walks the line. */
  function SplitFieldsFrom(line: string, from: nat, n: nat): Option<seq<string>>
    requires from <= |line|
    decreases n
  {
    if n == 0 then Some([line[from..]])
    else
      match FindSpace(line, from)
      case None => None
      case Some(p) => Prepend([line[from..p]], SplitFieldsFrom(line, p + 1, n - 1))
  }

  lemma {:induction false} SplitFieldsFromSuffix(line: string, from: nat, n: nat)
    requires from <= |line|
    ensures SplitFieldsFrom(line, from, n) == SplitFields(line[from..], n)
    decreases n
  {
    if n > 0 {
      match FindSpace(line, from)
      case None =>
        FindSpaceInSuffix(line, from);
        assert SplitFields(line[from..], n) == None;
      case Some(p) =>
        SplitFieldsFromSuffix(line, p + 1, n - 1);
        SplitStep(line, from, p, n);
        assert SplitFieldsFrom(line, from, n) == Prepend([line[from..p]], SplitFieldsFrom(line, p + 1, n - 1));
    }
  }

  /**
   * The loop of `loadEmployeesFromFile` over one line: up to four tokens are
   * cut at successive spaces into `tokens`; after the fourth, the rest of the
   * line becomes the fifth token. Only a line that reached five tokens is used.
   */
  method SplitLine(line: string) returns (fields: Option<seq<string>>)
    ensures fields == Tokenize(line)
  {
    var tokens := new string[5];
    var posStart: nat := 0;
    var tokenCount := 0;
    var posEnd := FindSpace(line, posStart);
    ghost var done: seq<string> := [];
    assert Prepend([], SplitFieldsFrom(line, 0, 4)) == SplitFieldsFrom(line, 0, 4) by {
      if SplitFieldsFrom(line, 0, 4).Some? {
        assert [] + SplitFieldsFrom(line, 0, 4).value == SplitFieldsFrom(line, 0, 4).value;
      }
    }
    while posEnd.Some? && tokenCount < 4
      invariant 0 <= tokenCount <= 4 && posStart <= |line|
      invariant posEnd == FindSpace(line, posStart)
      invariant tokens[..tokenCount] == done
      invariant SplitFieldsFrom(line, 0, 4) == Prepend(done, SplitFieldsFrom(line, posStart, 4 - tokenCount))
      decreases 4 - tokenCount
    {
      var token := line[posStart..posEnd.value];
      PrependTwice(done, [token], SplitFieldsFrom(line, posEnd.value + 1, 3 - tokenCount));
      tokens[tokenCount] := token;
      done := done + [token];
      tokenCount := tokenCount + 1;
      posStart := posEnd.value + 1;
      posEnd := FindSpace(line, posStart);
    }
    if tokenCount == 4 {
      tokens[tokenCount] := line[posStart..];
      assert tokens[..] == done + [line[posStart..]];
      tokenCount := tokenCount + 1;
    }
    if tokenCount == 5 {
      fields := Some(tokens[..]);
    } else {
      fields := None;
    }
    SplitFieldsFromSuffix(line, 0, 4);
    assert line[0..] == line;
  }

  /** One cut: the token up to the next space, then the split of what follows it. */
  lemma SplitStep(line: string, from: nat, p: nat, n: nat)
    requires from <= |line| && FindSpace(line, from) == Some(p) && n > 0
    ensures SplitFields(line[from..], n) == Prepend([line[from..p]], SplitFields(line[p + 1..], n - 1))
  {
    FindSpaceInSuffix(line, from);
    assert line[from..][..p - from] == line[from..p];
    assert line[from..][p - from + 1..] == line[p + 1..];
  }

  lemma PrependTwice(a: seq<string>, b: seq<string>, rest: Option<seq<string>>)
    ensures Prepend(a, Prepend(b, rest)) == Prepend(a + b, rest)
  {
    if rest.Some? {
      assert a + (b + rest.value) == (a + b) + rest.value;
    }
  }

  /**
   * A successful split gives `n` space-free tokens and the remainder, and
   * joining them back with spaces restores the input.
   */
  lemma {:induction false} SplitFieldsShape(s: string, n: nat)
    requires SplitFields(s, n).Some?
    ensures |SplitFields(s, n).value| == n + 1
    ensures forall i :: 0 <= i < n ==> ' ' !in SplitFields(s, n).value[i]
    ensures JoinWithSpaces(SplitFields(s, n).value) == s
    decreases n
  {
    if n > 0 {
      var p := FindSpace(s, 0).value;
      FindSpaceIsFirst(s, 0);
      assert s[0..p] == s[..p];
      SplitFieldsShape(s[p + 1..], n - 1);
      var ts := SplitFields(s, n).value;
      assert ts == [s[..p]] + SplitFields(s[p + 1..], n - 1).value;
      assert ts[1..] == SplitFields(s[p + 1..], n - 1).value;
      assert s == s[..p] + " " + s[p + 1..];
      forall i | 0 <= i < n
        ensures ' ' !in ts[i]
      {
        if i > 0 {
          assert ts[i] == ts[1..][i - 1];
        }
      }
    }
  }

  /** Splitting succeeds exactly when the input holds at least `n` spaces. */
  lemma {:induction false} SplitFieldsSucceedsIffSpaces(s: string, n: nat)
    ensures SplitFields(s, n).Some? <==> multiset(s)[' '] >= n
    decreases n
  {
    if n > 0 {
      FindSpaceIsFirst(s, 0);
      match FindSpace(s, 0)
      case None =>
        assert s[0..] == s;
      case Some(p) =>
        SplitFieldsSucceedsIffSpaces(s[p + 1..], n - 1);
        assert s == s[..p] + [' '] + s[p + 1..];
        assert s[0..p] == s[..p];
        assert multiset(s[..p])[' '] == 0;
    }
  }

  /** Splitting the join of `n` space-free tokens and a remainder gives the tokens back. */
  lemma {:induction false} SplitFieldsOfJoin(tokens: seq<string>)
    requires |tokens| > 0
    requires forall i :: 0 <= i < |tokens| - 1 ==> ' ' !in tokens[i]
    ensures SplitFields(JoinWithSpaces(tokens), |tokens| - 1) == Some(tokens)
    decreases |tokens|
  {
    if |tokens| > 1 {
      var s := JoinWithSpaces(tokens);
      var first := tokens[0];
      assert ' ' !in first;
      var tail := JoinWithSpaces(tokens[1..]);
      assert s == first + " " + tail;
      assert s[0..|first|] == first;
      FindSpaceAt(s, 0, |first|);
      assert s[..|first|] == first;
      assert s[|first| + 1..] == tail;
      SplitFieldsOfJoin(tokens[1..]);
      assert [first] + tokens[1..] == tokens;
    } else {
      assert [tokens[0]] == tokens;
    }
  }

  /** A line gives five tokens exactly when it holds at least four spaces. */
  lemma TokenizeAcceptsIffFourSpaces(line: string)
    ensures Tokenize(line).Some? <==> multiset(line)[' '] >= 4
    ensures Tokenize(line).Some? ==>
      |Tokenize(line).value| == 5 &&
      (forall i :: 0 <= i < 4 ==> ' ' !in Tokenize(line).value[i]) &&
      JoinWithSpaces(Tokenize(line).value) == line
  {
    SplitFieldsSucceedsIffSpaces(line, 4);
    if Tokenize(line).Some? {
      SplitFieldsShape(line, 4);
    }
  }
}
