/** The calculator of ex2/expression.cpp: operator priorities, C++ `int` arithmetic, the
    shunting-yard conversion to postfix (`to_suffix`) and prefix (`to_prefix`), and stack
    evaluation of postfix (`eval_suffix`) and prefix (`eval_prefix`) text. The `ArrayStack`s
    of the source are sequences with the top at the end; `int` is unbounded. */
module Expressions {
  import opened Errors
  import opened Basics

  // ---------------------------------------------------------------------------------------
  // Characters and operators

  /** `isdigit` on a character. */
  predicate IsDigit(c: char)
  {
    '0' <= c <= '9'
  }

  /** `isspace` on a character: blank, tab, newline, vertical tab, form feed, carriage return. */
  predicate IsSpace(c: char)
  {
    c == ' ' || 9 <= c as int <= 13
  }

  /** `is_op` (ex2/expression.cpp:21-23). */
  predicate IsOp(c: char)
  {
    c == '+' || c == '-' || c == '*' || c == '/' || c == '%'
  }

  /** `get_priority` (ex2/expression.cpp:10-19). */
  function Priority(op: char): (p: nat)
    ensures p == 1 <==> op == '+' || op == '-'
    ensures p == 2 <==> op == '*' || op == '/' || op == '%'
    ensures p <= 2
  {
    match op
    case '+' => 1
    case '-' => 1
    case '*' => 2
    case '/' => 2
    case '%' => 2
    case _ => 0
  }

  /** Exactly the operators have a priority, and multiplicative ones bind tighter. */
  lemma OperatorsHavePriority(c: char, d: char)
    ensures IsOp(c) <==> Priority(c) > 0
    ensures IsOp(c) && IsOp(d) ==> (Priority(c) > Priority(d) <==> (c == '*' || c == '/' || c == '%') && (d == '+' || d == '-'))
  {
  }

  // ---------------------------------------------------------------------------------------
  // C++ integer arithmetic

  function Abs(x: int): nat
  {
    if x < 0 then -x else x
  }

  /** C++ `a / b` on `int`: the quotient truncated toward zero. */
  function TruncDiv(a: int, b: int): int
    requires b != 0
  {
    var q := Abs(a) / Abs(b);
    if (a < 0) == (b < 0) then q else -q
  }

  /** C++ `a % b` on `int`: what is left after the truncated quotient. */
  function TruncMod(a: int, b: int): int
    requires b != 0
  {
    a - TruncDiv(a, b) * b
  }

  /** The C++ division rules: the remainder is smaller than the divisor in magnitude and has
      the sign of the dividend. */
  lemma TruncDivision(a: int, b: int)
    requires b != 0
    ensures TruncDiv(a, b) * b + TruncMod(a, b) == a
    ensures Abs(TruncMod(a, b)) < Abs(b)
    ensures TruncMod(a, b) == 0 || (TruncMod(a, b) < 0 <==> a < 0)
    ensures Abs(TruncDiv(a, b)) == Abs(a) / Abs(b)
  {
    TruncModValue(a, b);
    DivFacts(Abs(a), Abs(b));
    var q0, r0 := Abs(a) / Abs(b), Abs(a) % Abs(b);
    assert TruncDiv(a, b) == q0 || TruncDiv(a, b) == -q0;
    assert TruncMod(a, b) == r0 || TruncMod(a, b) == -r0;
  }

  /** Euclidean division of a non-negative number by a positive one. */
  lemma DivFacts(A: int, B: int)
    requires A >= 0 && B > 0
    ensures A / B >= 0 && 0 <= A % B < B
  {
  }

  /** The truncated remainder is the remainder of the magnitudes, with the dividend's sign. */
  lemma TruncModValue(a: int, b: int)
    requires b != 0
    ensures TruncMod(a, b) == if a < 0 then -(Abs(a) % Abs(b)) else Abs(a) % Abs(b)
  {
    var A, B := Abs(a), Abs(b);
    var q0, r0 := A / B, A % B;
    assert A == q0 * B + r0;
    if b < 0 {
      NegMul(q0, B);
      assert q0 * b == -(q0 * B);
    } else {
      assert q0 * b == q0 * B;
    }
    if (a < 0) == (b < 0) {
      assert TruncDiv(a, b) == q0;
    } else {
      assert TruncDiv(a, b) == -q0;
      NegMul(q0, b);
    }
  }

  lemma NegMul(x: int, y: int)
    ensures (-x) * y == -(x * y) && x * (-y) == -(x * y)
  {
  }

  /** `calc(a, b, op)` (ex2/expression.cpp:25-42). */
  function Calc(a: int, b: int, op: char): (r: Result<int>)
    ensures r.Err? <==> !IsOp(op) || ((op == '/' || op == '%') && b == 0)
    ensures r.Err? ==> r.error == if IsOp(op) then RuntimeError("divided by 0!!!!!!") else RuntimeError("unknown operator")
  {
    match op
    case '+' => Ok(a + b)
    case '-' => Ok(a - b)
    case '*' => Ok(a * b)
    case '/' => if b == 0 then Err(RuntimeError("divided by 0!!!!!!")) else Ok(TruncDiv(a, b))
    case '%' => if b == 0 then Err(RuntimeError("divided by 0!!!!!!")) else Ok(TruncMod(a, b))
    case _ => Err(RuntimeError("unknown operator"))
  }

  /** `/` and `%` of `calc` fit together as C++ division does. */
  lemma CalcDivMod(a: int, b: int)
    requires b != 0
    ensures Calc(a, b, '/').Ok? && Calc(a, b, '%').Ok?
    ensures Calc(a, b, '/').value * b + Calc(a, b, '%').value == a
    ensures Abs(Calc(a, b, '%').value) < Abs(b)
    ensures Calc(a, b, '%').value == 0 || (Calc(a, b, '%').value < 0 <==> a < 0)
  {
    TruncDivision(a, b);
  }

  /** The digit characters of `s`, in order. */
  function Digits(s: string): string
  {
    if s == [] then [] else Digits(s[..|s| - 1]) + (if IsDigit(s[|s| - 1]) then [s[|s| - 1]] else [])
  }

  lemma {:induction false} DigitsAppend(a: string, b: string)
    ensures Digits(a + b) == Digits(a) + Digits(b)
    decreases |b|
  {
    if b != [] {
      assert (a + b)[..|a + b| - 1] == a + b[..|b| - 1];
      DigitsAppend(a, b[..|b| - 1]);
    } else {
      assert a + b == a;
    }
  }

  /** A string without digits contributes none. */
  lemma {:induction false} DigitsNone(s: string)
    requires forall k :: 0 <= k < |s| ==> !IsDigit(s[k])
    ensures Digits(s) == []
    decreases |s|
  {
    if s != [] {
      DigitsNone(s[..|s| - 1]);
    }
  }

  /** An all-digit string is its own digits. */
  lemma {:induction false} DigitsAll(s: string)
    requires forall k :: 0 <= k < |s| ==> IsDigit(s[k])
    ensures Digits(s) == s
    decreases |s|
  {
    if s != [] {
      DigitsAll(s[..|s| - 1]);
    }
  }

  /** The length of the leading run of digits. */
  function DigitRun(s: string): (n: nat)
    ensures n <= |s| && (forall k :: 0 <= k < n ==> IsDigit(s[k])) && (n == |s| || !IsDigit(s[n]))
  {
    if s == [] || !IsDigit(s[0]) then 0 else 1 + DigitRun(s[1..])
  }

  /** A run of `m` digits followed by a non-digit or the end is the leading run. */
  lemma {:induction false} DigitRunExact(s: string, m: nat)
    requires m <= |s| && (forall k :: 0 <= k < m ==> IsDigit(s[k])) && (m == |s| || !IsDigit(s[m]))
    ensures DigitRun(s) == m
    decreases m
  {
    if m > 0 {
      DigitRunExact(s[1..], m - 1);
    }
  }

  /** The decimal value of a digit string. */
  function DecimalValue(d: string): nat
  {
    if d == [] then 0 else DecimalValue(d[..|d| - 1]) * 10 + (if IsDigit(d[|d| - 1]) then d[|d| - 1] as int - '0' as int else 0)
  }

  /** `stoi` on a token that starts with a digit: the value of its leading digits. */
  function Stoi(t: string): nat
  {
    DecimalValue(t[..DigitRun(t)])
  }

  // ---------------------------------------------------------------------------------------
  // `to_suffix`: the shunting-yard scan

  /** The loop on `)` (ex2/expression.cpp:59-67): pops and prints operators down to the
      nearest `(`, which is dropped; with no `(` the stack is emptied. */
  function CloseParen(st: seq<char>, out: string): (seq<char>, string)
    decreases |st|
  {
    if st == [] then ([], out)
    else if st[|st| - 1] == '(' then (st[..|st| - 1], out)
    else CloseParen(st[..|st| - 1], out + [st[|st| - 1], ' '])
  }

  /** The loop before pushing operator `c` (ex2/expression.cpp:68-74): pops and prints the
      stacked operators above the nearest `(` whose priority is at least that of `c`. */
  function PopHigher(st: seq<char>, out: string, c: char): (seq<char>, string)
    decreases |st|
  {
    if st != [] && st[|st| - 1] != '(' && Priority(st[|st| - 1]) >= Priority(c)
    then PopHigher(st[..|st| - 1], out + [st[|st| - 1], ' '], c)
    else (st, out)
  }

  /** The final loop (ex2/expression.cpp:78-82): prints the whole stack, top first. */
  function Flush(st: seq<char>, out: string): string
    decreases |st|
  {
    if st == [] then out else Flush(st[..|st| - 1], out + [st[|st| - 1], ' '])
  }

  /** One round of the loop of `to_suffix` (ex2/expression.cpp:47-76) on the unread input
      `rest`, with operator stack `st` and output so far `out`: the new unread input, stack
      and output. Whitespace and unknown characters are skipped; a digit run is copied
      followed by one blank; `(` is stacked; `)` and operators pop as above. */
  function Step(rest: string, st: seq<char>, out: string): (r: (string, seq<char>, string))
    requires rest != []
    ensures |r.0| < |rest|
  {
    var c := rest[0];
    if IsSpace(c) then (rest[1..], st, out)
    else if IsDigit(c) then
      var n := DigitRun(rest);
      (rest[n..], st, out + rest[..n] + " ")
    else if c == '(' then (rest[1..], st + ['('], out)
    else if c == ')' then
      var (st', out') := CloseParen(st, out);
      (rest[1..], st', out')
    else if IsOp(c) then
      var (st', out') := PopHigher(st, out, c);
      (rest[1..], st' + [c], out')
    else (rest[1..], st, out)
  }

  /** The scan of `to_suffix`: rounds until the input is used up, then the final flush. */
  function Scan(rest: string, st: seq<char>, out: string): string
    decreases |rest|
  {
    if rest == [] then Flush(st, out)
    else
      var r := Step(rest, st, out);
      Scan(r.0, r.1, r.2)
  }

  /** What `to_suffix(s)` returns. */
  function Suffix(s: string): string
  {
    Scan(s, [], "")
  }

  /** `to_suffix(s)` (ex2/expression.cpp:44-85). */
  method ToSuffix(s: string) returns (res: string)
    ensures res == Suffix(s)
  {
    res := "";
    var op: seq<char> := [];
    var i := 0;
    while i < |s|
      invariant 0 <= i <= |s|
      invariant Scan(s[i..], op, res) == Suffix(s)
    {
      ghost var next := Step(s[i..], op, res);
      if IsSpace(s[i]) {
        i := i + 1;
      } else if IsDigit(s[i]) {
        i, res := CopyNumber(s, i, res);
      } else if s[i] == '(' {
        op := op + ['('];
        i := i + 1;
      } else if s[i] == ')' {
        op, res := PopToParen(op, res);
        i := i + 1;
      } else if IsOp(s[i]) {
        op, res := PopNotLower(op, res, s[i]);
        op := op + [s[i]];
        i := i + 1;
      } else {
        i := i + 1;
      }
      assert next == (s[i..], op, res);
    }
    res := FlushStack(op, res);
  }

  /** The digit loop of `to_suffix` (ex2/expression.cpp:51-56): the run of digits starting
      at `i` is copied, then one blank. */
  method CopyNumber(s: string, i0: nat, res0: string) returns (i: nat, res: string)
    requires i0 < |s| && IsDigit(s[i0])
    ensures var n := DigitRun(s[i0..]);
              i == i0 + n && i <= |s| && s[i..] == s[i0..][n..] && res == res0 + s[i0..][..n] + " "
  {
    i, res := i0, res0;
    while i < |s| && IsDigit(s[i])
      invariant i0 <= i <= |s| && res == res0 + s[i0..i]
      invariant forall k :: i0 <= k < i ==> IsDigit(s[k])
    {
      assert s[i0..i + 1] == s[i0..i] + [s[i]];
      res := res + [s[i]];
      i := i + 1;
    }
    res := res + " ";
    DigitRunExact(s[i0..], i - i0);
    assert s[i0..][i - i0..] == s[i..] && s[i0..][..i - i0] == s[i0..i];
  }

  /** The loop on `)` of `to_suffix` (ex2/expression.cpp:60-66). */
  method PopToParen(st0: seq<char>, out0: string) returns (st: seq<char>, out: string)
    ensures (st, out) == CloseParen(st0, out0)
  {
    st, out := st0, out0;
    while st != [] && st[|st| - 1] != '('
      invariant CloseParen(st, out) == CloseParen(st0, out0)
      decreases |st|
    {
      out := out + [st[|st| - 1], ' '];
      st := st[..|st| - 1];
    }
    if st != [] {
      st := st[..|st| - 1];
    }
  }

  /** The loop before pushing an operator in `to_suffix` (ex2/expression.cpp:69-74). */
  method PopNotLower(st0: seq<char>, out0: string, c: char) returns (st: seq<char>, out: string)
    ensures (st, out) == PopHigher(st0, out0, c)
  {
    st, out := st0, out0;
    while st != [] && st[|st| - 1] != '(' && Priority(st[|st| - 1]) >= Priority(c)
      invariant PopHigher(st, out, c) == PopHigher(st0, out0, c)
      decreases |st|
    {
      out := out + [st[|st| - 1], ' '];
      st := st[..|st| - 1];
    }
  }

  /** The final loop of `to_suffix` (ex2/expression.cpp:78-82). */
  method FlushStack(st0: seq<char>, out0: string) returns (out: string)
    ensures out == Flush(st0, out0)
  {
    var st := st0;
    out := out0;
    while st != []
      invariant Flush(st, out) == Flush(st0, out0)
      decreases |st|
    {
      out := out + [st[|st| - 1], ' '];
      st := st[..|st| - 1];
    }
  }

  // ---------------------------------------------------------------------------------------
  // What the scan keeps: the numbers in order, and no `)`

  /** The stack holds only `(` and operators. */
  predicate Stackable(st: seq<char>)
  {
    forall k :: 0 <= k < |st| ==> st[k] == '(' || IsOp(st[k])
  }

  lemma {:induction false} CloseParenKeeps(st: seq<char>, out: string)
    requires Stackable(st)
    ensures Stackable(CloseParen(st, out).0)
    ensures Digits(CloseParen(st, out).1) == Digits(out)
    ensures ')' !in out ==> ')' !in CloseParen(st, out).1
    decreases |st|
  {
    if st != [] && st[|st| - 1] != '(' {
      DigitsAppend(out, [st[|st| - 1], ' ']);
      DigitsNone([st[|st| - 1], ' ']);
      CloseParenKeeps(st[..|st| - 1], out + [st[|st| - 1], ' ']);
    }
  }

  lemma {:induction false} PopHigherKeeps(st: seq<char>, out: string, c: char)
    requires Stackable(st)
    ensures Stackable(PopHigher(st, out, c).0)
    ensures Digits(PopHigher(st, out, c).1) == Digits(out)
    ensures ')' !in out ==> ')' !in PopHigher(st, out, c).1
    decreases |st|
  {
    if st != [] && st[|st| - 1] != '(' && Priority(st[|st| - 1]) >= Priority(c) {
      DigitsAppend(out, [st[|st| - 1], ' ']);
      DigitsNone([st[|st| - 1], ' ']);
      PopHigherKeeps(st[..|st| - 1], out + [st[|st| - 1], ' '], c);
    }
  }

  lemma {:induction false} FlushKeeps(st: seq<char>, out: string)
    requires Stackable(st)
    ensures Digits(Flush(st, out)) == Digits(out)
    ensures ')' !in out ==> ')' !in Flush(st, out)
    decreases |st|
  {
    if st != [] {
      DigitsAppend(out, [st[|st| - 1], ' ']);
      DigitsNone([st[|st| - 1], ' ']);
      FlushKeeps(st[..|st| - 1], out + [st[|st| - 1], ' ']);
    }
  }

  /** Copying a leading run of `n` digits and a blank moves those digits from the input to
      the output, and prints no `)`. */
  lemma NumberKeeps(rest: string, out: string, n: nat)
    requires n <= |rest| && forall k :: 0 <= k < n ==> IsDigit(rest[k])
    ensures Digits(out + rest[..n] + " ") + Digits(rest[n..]) == Digits(out) + Digits(rest)
    ensures ')' !in out ==> ')' !in out + rest[..n] + " "
  {
    calc {
      Digits(rest);
      { assert rest == rest[..n] + rest[n..]; }
      Digits(rest[..n] + rest[n..]);
      { DigitsAppend(rest[..n], rest[n..]); DigitsAll(rest[..n]); }
      rest[..n] + Digits(rest[n..]);
    }
    calc {
      Digits(out + rest[..n] + " ");
      { DigitsAppend(out + rest[..n], " "); DigitsNone(" "); }
      Digits(out + rest[..n]);
      { DigitsAppend(out, rest[..n]); DigitsAll(rest[..n]); }
      Digits(out) + rest[..n];
    }
    assert ')' !in rest[..n];
  }

  /** A leading non-digit contributes no digit. */
  lemma SkipKeeps(rest: string)
    requires rest != [] && !IsDigit(rest[0])
    ensures Digits(rest) == Digits(rest[1..])
  {
    calc {
      Digits(rest);
      { assert rest == [rest[0]] + rest[1..]; }
      Digits([rest[0]] + rest[1..]);
      { DigitsAppend([rest[0]], rest[1..]); DigitsNone([rest[0]]); }
      Digits(rest[1..]);
    }
  }

  /** One round keeps the stack made of `(` and operators, moves the digits from the input
      to the output in order, and prints no `)`. */
  lemma StepKeeps(rest: string, st: seq<char>, out: string)
    requires rest != [] && Stackable(st)
    ensures var r := Step(rest, st, out);
      Stackable(r.1) && Digits(r.2) + Digits(r.0) == Digits(out) + Digits(rest) &&
      (')' !in out ==> ')' !in r.2)
  {
    var c := rest[0];
    if IsDigit(c) {
      NumberKeeps(rest, out, DigitRun(rest));
    } else {
      SkipKeeps(rest);
      if c == ')' {
        CloseParenKeeps(st, out);
      } else if IsOp(c) {
        PopHigherKeeps(st, out, c);
      }
    }
  }

  lemma {:induction false} ScanKeeps(rest: string, st: seq<char>, out: string)
    requires Stackable(st)
    ensures Digits(Scan(rest, st, out)) == Digits(out) + Digits(rest)
    ensures ')' !in out ==> ')' !in Scan(rest, st, out)
    decreases |rest|
  {
    if rest == [] {
      FlushKeeps(st, out);
    } else {
      var r := Step(rest, st, out);
      StepKeeps(rest, st, out);
      ScanKeeps(r.0, r.1, r.2);
    }
  }

  /** `to_suffix` copies the digits of its input in order and never prints `)`. */
  lemma SuffixKeepsNumbers(s: string)
    ensures Digits(Suffix(s)) == Digits(s)
    ensures ')' !in Suffix(s)
  {
    ScanKeeps(s, [], "");
  }

  // ---------------------------------------------------------------------------------------
  // `to_prefix`

  /** The parenthesis swap of `to_prefix` (ex2/expression.cpp:89-95). */
  function SwapParen(c: char): char
  {
    if c == '(' then ')' else if c == ')' then '(' else c
  }

  /** `s` reversed with its parentheses swapped: the text `to_prefix` hands to `to_suffix`. */
  function Mirror(s: string): (r: string)
    ensures |r| == |s| && forall k :: 0 <= k < |s| ==> r[k] == SwapParen(s[|s| - 1 - k])
  {
    seq(|s|, k requires 0 <= k < |s| => SwapParen(s[|s| - 1 - k]))
  }

  /** `to_prefix(s)` (ex2/expression.cpp:87-99). */
  method ToPrefix(s: string) returns (prefix: string)
    ensures prefix == Reverse(Suffix(Mirror(s)))
  {
    var t := Reverse(s);
    var i := 0;
    while i < |t|
      invariant 0 <= i <= |t| == |s|
      invariant forall k :: 0 <= k < i ==> t[k] == Mirror(s)[k]
      invariant forall k :: i <= k < |t| ==> t[k] == s[|s| - 1 - k]
    {
      t := t[i := SwapParen(t[i])];
      i := i + 1;
    }
    assert t == Mirror(s);
    var suffix := ToSuffix(t);
    prefix := Reverse(suffix);
  }

  // ---------------------------------------------------------------------------------------
  // Reading tokens: `istringstream >> token`

  /** The length of the leading run of non-whitespace characters. */
  function WordEnd(s: string): (n: nat)
    ensures n <= |s| && (forall k :: 0 <= k < n ==> !IsSpace(s[k])) && (n == |s| || IsSpace(s[n]))
  {
    if s == [] || IsSpace(s[0]) then 0 else 1 + WordEnd(s[1..])
  }

  /** The whitespace-separated tokens of `s`, as `>>` reads them. */
  function Words(s: string): seq<string>
    decreases |s|
  {
    if s == [] then []
    else if IsSpace(s[0]) then Words(s[1..])
    else
      var n := WordEnd(s);
      [s[..n]] + Words(s[n..])
  }

  lemma {:induction false} WordEndAppend(a: string, b: string)
    requires a != [] && !IsSpace(a[0])
    requires b == [] || IsSpace(b[0]) || exists k :: 0 <= k < |a| && IsSpace(a[k])
    ensures WordEnd(a + b) == WordEnd(a)
    decreases |a|
  {
    if |a| > 1 && !IsSpace(a[1]) {
      assert (a + b)[1..] == a[1..] + b;
      if b != [] && !IsSpace(b[0]) {
        var k :| 0 <= k < |a| && IsSpace(a[k]);
        assert a[1..][k - 1] == a[k];
      }
      WordEndAppend(a[1..], b);
    } else if |a| == 1 {
      assert (a + b)[1..] == b;
    } else {
      assert (a + b)[1] == a[1];
    }
  }

  /** Text ending in whitespace, or followed by whitespace, splits into tokens on its own. */
  lemma {:induction false} WordsAppend(a: string, b: string)
    requires a == [] || b == [] || IsSpace(a[|a| - 1]) || IsSpace(b[0])
    ensures Words(a + b) == Words(a) + Words(b)
    decreases |a|
  {
    if a == [] {
      assert a + b == b;
    } else if IsSpace(a[0]) {
      assert (a + b)[1..] == a[1..] + b;
      WordsAppend(a[1..], b);
    } else {
      if b != [] && !IsSpace(b[0]) {
        assert IsSpace(a[|a| - 1]);
      }
      WordEndAppend(a, b);
      var n := WordEnd(a);
      if n < |a| {
        WordsAppend(a[n..], b);
      } else {
        assert a[n..] == [] && a[n..] + b == b;
      }
      WordsAppendFirst(a, b, n);
    }
  }

  /** The first token of `a` is the first token of `a + b`, and the rest follows. */
  lemma WordsAppendFirst(a: string, b: string, n: nat)
    requires a != [] && !IsSpace(a[0]) && n == WordEnd(a) == WordEnd(a + b)
    requires Words(a[n..] + b) == Words(a[n..]) + Words(b)
    ensures Words(a + b) == Words(a) + Words(b)
  {
    calc {
      Words(a + b);
      { assert (a + b)[0] == a[0]; }
      [(a + b)[..n]] + Words((a + b)[n..]);
      { assert (a + b)[..n] == a[..n] && (a + b)[n..] == a[n..] + b; }
      [a[..n]] + Words(a[n..] + b);
      [a[..n]] + (Words(a[n..]) + Words(b));
      ([a[..n]] + Words(a[n..])) + Words(b);
      Words(a) + Words(b);
    }
  }

  /** A single token without whitespace. */
  lemma WordsOne(t: string)
    requires t != [] && forall k :: 0 <= k < |t| ==> !IsSpace(t[k])
    ensures Words(t) == [t]
  {
    assert WordEnd(t) == |t| by {
      WordEndAll(t);
    }
    assert t[..|t|] == t && t[|t|..] == [];
  }

  lemma {:induction false} WordEndAll(t: string)
    requires forall k :: 0 <= k < |t| ==> !IsSpace(t[k])
    ensures WordEnd(t) == |t|
    decreases |t|
  {
    if t != [] {
      WordEndAll(t[1..]);
    }
  }

  lemma WordsSpace(t: string)
    requires forall k :: 0 <= k < |t| ==> IsSpace(t[k])
    ensures Words(t) == []
    decreases |t|
  {
    if t != [] {
      WordsSpace(t[1..]);
    }
  }

  // ---------------------------------------------------------------------------------------
  // `eval_suffix`, `eval_prefix`, `eval`

  /** The loop of `eval_suffix` (ex2/expression.cpp:105-119) over the tokens still to read,
      with the operand stack `nums`: a token starting with a digit is pushed as a number; a
      one-character operator pops `b` then `a` and pushes `calc(a, b, op)`, throwing
      "Invalid expression" when fewer than two operands are stacked; other tokens are
      skipped. At the end the top is the value, or 0 on an empty stack. */
  function RunSuffix(tokens: seq<string>, nums: seq<int>): Result<int>
    decreases |tokens|
  {
    if tokens == [] then Ok(if nums == [] then 0 else nums[|nums| - 1])
    else
      var t := tokens[0];
      if |t| > 0 && IsDigit(t[0]) then RunSuffix(tokens[1..], nums + [Stoi(t)])
      else if |t| == 1 && IsOp(t[0]) then
        if |nums| < 2 then Err(RuntimeError("Invalid expression"))
        else
          match Calc(nums[|nums| - 2], nums[|nums| - 1], t[0])
          case Err(x) => Err(x)
          case Ok(v) => RunSuffix(tokens[1..], nums[..|nums| - 2] + [v])
      else RunSuffix(tokens[1..], nums)
  }

  /** `eval_suffix(s)` (ex2/expression.cpp:101-120). */
  method EvalSuffix(s: string) returns (r: Result<int>)
    ensures r == RunSuffix(Words(s), [])
  {
    var tokens := Words(s);
    var nums: seq<int> := [];
    var i := 0;
    while i < |tokens|
      invariant 0 <= i <= |tokens|
      invariant RunSuffix(tokens[i..], nums) == RunSuffix(tokens, [])
    {
      var token := tokens[i];
      assert tokens[i..][0] == token && tokens[i..][1..] == tokens[i + 1..];
      if |token| > 0 && IsDigit(token[0]) {
        nums := nums + [Stoi(token)];
      } else if |token| == 1 && IsOp(token[0]) {
        if |nums| < 2 {
          return Err(RuntimeError("Invalid expression"));
        }
        var b := nums[|nums| - 1];
        var a := nums[|nums| - 2];
        nums := nums[..|nums| - 2];
        var v := Calc(a, b, token[0]);
        if v.Err? {
          return Err(v.error);
        }
        nums := nums + [v.value];
      }
      i := i + 1;
    }
    return Ok(if nums == [] then 0 else nums[|nums| - 1]);
  }

  /** The loop of `eval_prefix` (ex2/expression.cpp:130-145) over a token sequence: as
      `RunSuffix`, except that an operator pops `a` first and `b` second. */
  function RunPrefix(tokens: seq<string>, nums: seq<int>): Result<int>
    decreases |tokens|
  {
    if tokens == [] then Ok(if nums == [] then 0 else nums[|nums| - 1])
    else
      var t := tokens[0];
      if |t| > 0 && IsDigit(t[0]) then RunPrefix(tokens[1..], nums + [Stoi(t)])
      else if |t| == 1 && IsOp(t[0]) then
        if |nums| < 2 then Err(RuntimeError("Invalid expression"))
        else
          match Calc(nums[|nums| - 1], nums[|nums| - 2], t[0])
          case Err(x) => Err(x)
          case Ok(v) => RunPrefix(tokens[1..], nums[..|nums| - 2] + [v])
      else RunPrefix(tokens[1..], nums)
  }

  /** `eval_prefix(s)` as written (ex2/expression.cpp:122-146): the tokens are read left to
      right. */
  method EvalPrefixAsWritten(s: string) returns (r: Result<int>)
    ensures r == RunPrefix(Words(s), [])
  {
    var tokens := Words(s);
    var nums: seq<int> := [];
    var i := 0;
    while i < |tokens|
      invariant 0 <= i <= |tokens|
      invariant RunPrefix(tokens[i..], nums) == RunPrefix(tokens, [])
    {
      var token := tokens[i];
      assert tokens[i..][0] == token && tokens[i..][1..] == tokens[i + 1..];
      if |token| > 0 && IsDigit(token[0]) {
        nums := nums + [Stoi(token)];
      } else if |token| == 1 && IsOp(token[0]) {
        if |nums| < 2 {
          return Err(RuntimeError("Invalid expression"));
        }
        var a := nums[|nums| - 1];
        var b := nums[|nums| - 2];
        nums := nums[..|nums| - 2];
        var v := Calc(a, b, token[0]);
        if v.Err? {
          return Err(v.error);
        }
        nums := nums + [v.value];
      }
      i := i + 1;
    }
    return Ok(if nums == [] then 0 else nums[|nums| - 1]);
  }

  /** `eval_prefix(s)` with the scan the pop order calls for: the tokens are read right to
      left. */
  method EvalPrefix(s: string) returns (r: Result<int>)
    ensures r == RunPrefix(Reverse(Words(s)), [])
  {
    var tokens := Words(s);
    ghost var reversed := Reverse(tokens);
    var nums: seq<int> := [];
    var i := |tokens|;
    while i > 0
      invariant 0 <= i <= |tokens|
      invariant RunPrefix(reversed[|tokens| - i..], nums) == RunPrefix(reversed, [])
    {
      var token := tokens[i - 1];
      assert reversed[|tokens| - i..][0] == token && reversed[|tokens| - i..][1..] == reversed[|tokens| - (i - 1)..];
      if |token| > 0 && IsDigit(token[0]) {
        nums := nums + [Stoi(token)];
      } else if |token| == 1 && IsOp(token[0]) {
        if |nums| < 2 {
          return Err(RuntimeError("Invalid expression"));
        }
        var a := nums[|nums| - 1];
        var b := nums[|nums| - 2];
        nums := nums[..|nums| - 2];
        var v := Calc(a, b, token[0]);
        if v.Err? {
          return Err(v.error);
        }
        nums := nums + [v.value];
      }
      i := i - 1;
    }
    assert reversed[|tokens|..] == [];
    return Ok(if nums == [] then 0 else nums[|nums| - 1]);
  }

  /** `eval(s)` (ex2/expression.cpp:148-150). */
  method Eval(s: string) returns (r: Result<int>)
    ensures r == RunSuffix(Words(Suffix(s)), [])
  {
    var suffix := ToSuffix(s);
    r := EvalSuffix(suffix);
  }

  // ---------------------------------------------------------------------------------------
  // Expressions: what the conversions and evaluations mean

  /** An arithmetic expression over non-negative decimal literals. */
  datatype Expr = Num(digits: string) | Bin(op: char, left: Expr, right: Expr)

  predicate WellFormed(e: Expr)
  {
    match e
    case Num(d) => d != [] && forall k :: 0 <= k < |d| ==> IsDigit(d[k])
    case Bin(op, l, r) => IsOp(op) && WellFormed(l) && WellFormed(r)
  }

  /** The fully parenthesized infix text of `e`. */
  function Show(e: Expr): string
  {
    match e
    case Num(d) => d
    case Bin(op, l, r) => "(" + Show(l) + [op] + Show(r) + ")"
  }

  /** The postfix text of `e`, each token followed by a blank. */
  function Post(e: Expr): string
  {
    match e
    case Num(d) => d + " "
    case Bin(op, l, r) => Post(l) + Post(r) + [op, ' ']
  }

  /** The prefix text of `e`, each token preceded by a blank. */
  function Pre(e: Expr): string
  {
    match e
    case Num(d) => " " + d
    case Bin(op, l, r) => [' ', op] + Pre(l) + Pre(r)
  }

  /** The postfix tokens of `e`. */
  function PostTokens(e: Expr): seq<string>
  {
    match e
    case Num(d) => [d]
    case Bin(op, l, r) => PostTokens(l) + PostTokens(r) + [[op]]
  }

  /** The prefix tokens of `e`. */
  function PreTokens(e: Expr): seq<string>
  {
    match e
    case Num(d) => [d]
    case Bin(op, l, r) => [[op]] + PreTokens(l) + PreTokens(r)
  }

  /** The value of `e` under `calc`, left operand first; an error is the first one met. */
  function Value(e: Expr): Result<int>
  {
    match e
    case Num(d) => Ok(DecimalValue(d))
    case Bin(op, l, r) =>
      match Value(l)
      case Err(x) => Err(x)
      case Ok(a) =>
        match Value(r)
        case Err(x) => Err(x)
        case Ok(b) => Calc(a, b, op)
  }

  /** The only error a well-formed expression can raise is division by zero. */
  lemma {:induction false} ValueError(e: Expr)
    requires WellFormed(e) && Value(e).Err?
    ensures Value(e).error == RuntimeError("divided by 0!!!!!!")
  {
    match e
    case Num(d) =>
    case Bin(op, l, r) =>
      if Value(l).Err? {
        ValueError(l);
      } else if Value(r).Err? {
        ValueError(r);
      }
  }

  /** The scan copies a number followed by non-digit text. */
  lemma ScanNumber(d: string, rest: string, st: seq<char>, out: string)
    requires d != [] && forall k :: 0 <= k < |d| ==> IsDigit(d[k])
    requires rest == [] || !IsDigit(rest[0])
    ensures Scan(d + rest, st, out) == Scan(rest, st, out + (d + " "))
  {
    assert (d + rest)[0] == d[0] && IsDigit(d[0]) && !IsSpace(d[0]);
    DigitRunExact(d + rest, |d|);
    assert (d + rest)[|d|..] == rest && (d + rest)[..|d|] == d;
    assert out + d + " " == out + (d + " ");
  }

  /** The scan stacks `(`. */
  lemma ScanOpen(x: string, st: seq<char>, out: string)
    ensures Scan("(" + x, st, out) == Scan(x, st + ['('], out)
  {
    assert ("(" + x)[0] == '(' && ("(" + x)[1..] == x;
  }

  /** The scan stacks an operator just above `(`. */
  lemma ScanOperator(op: char, x: string, st: seq<char>, out: string)
    requires IsOp(op)
    ensures Scan([op] + x, st + ['('], out) == Scan(x, st + ['(', op], out)
  {
    assert ([op] + x)[0] == op && ([op] + x)[1..] == x;
    assert PopHigher(st + ['('], out, op) == (st + ['('], out);
    assert st + ['('] + [op] == st + ['(', op];
  }

  /** The scan closes a parenthesis over one operator. */
  lemma ScanClose(op: char, x: string, st: seq<char>, out: string)
    requires IsOp(op)
    ensures Scan(")" + x, st + ['(', op], out) == Scan(x, st, out + [op, ' '])
  {
    assert (")" + x)[0] == ')' && (")" + x)[1..] == x;
    assert (st + ['(', op])[..|st| + 1] == st + ['('] && (st + ['('])[..|st|] == st;
    assert CloseParen(st + ['(', op], out) == (st, out + [op, ' ']);
  }

  /** The shunting-yard scan turns the infix text of an expression into its postfix text,
      whatever is stacked below and whatever non-digit text follows. */
  lemma {:induction false} ScanShow(e: Expr, rest: string, st: seq<char>, out: string)
    requires WellFormed(e) && (rest == [] || !IsDigit(rest[0]))
    ensures Scan(Show(e) + rest, st, out) == Scan(rest, st, out + Post(e))
  {
    match e
    case Num(d) =>
      ScanNumber(d, rest, st, out);
    case Bin(op, l, r) =>
      var r2 := ")" + rest;
      var r1 := [op] + (Show(r) + r2);
      var o1 := out + Post(l);
      var o2 := o1 + Post(r);
      calc {
        Scan(Show(e) + rest, st, out);
        { assert Show(e) + rest == "(" + (Show(l) + r1); }
        Scan("(" + (Show(l) + r1), st, out);
        { ScanOpen(Show(l) + r1, st, out); }
        Scan(Show(l) + r1, st + ['('], out);
        { ScanShow(l, r1, st + ['('], out); }
        Scan(r1, st + ['('], o1);
        { ScanOperator(op, Show(r) + r2, st, o1); }
        Scan(Show(r) + r2, st + ['(', op], o1);
        { ScanShow(r, r2, st + ['(', op], o1); }
        Scan(r2, st + ['(', op], o2);
        { ScanClose(op, rest, st, o2); }
        Scan(rest, st, o2 + [op, ' ']);
        { assert o2 + [op, ' '] == out + Post(e); }
        Scan(rest, st, out + Post(e));
      }
  }

  /** `to_suffix` of a fully parenthesized expression is its postfix text. */
  lemma SuffixOfShow(e: Expr)
    requires WellFormed(e)
    ensures Suffix(Show(e)) == Post(e)
  {
    ScanShow(e, [], [], "");
    assert Show(e) + [] == Show(e);
  }

  /** Postfix text reads back as the postfix tokens. */
  lemma {:induction false} WordsPost(e: Expr)
    requires WellFormed(e)
    ensures Words(Post(e)) == PostTokens(e)
  {
    match e
    case Num(d) =>
      WordsAppend(d, " ");
      WordsOne(d);
      WordsSpace(" ");
    case Bin(op, l, r) =>
      WordsPost(l);
      WordsPost(r);
      WordsAppend(Post(l) + Post(r), [op, ' ']);
      PostEndsInSpace(r);
      WordsAppend(Post(l), Post(r));
      PostEndsInSpace(l);
      WordsAppend([op], " ");
      WordsOne([op]);
      WordsSpace(" ");
      assert [op] + " " == [op, ' '];
  }

  lemma PostEndsInSpace(e: Expr)
    ensures Post(e) != [] && Post(e)[|Post(e)| - 1] == ' '
  {
  }

  /** Prefix text reads back as the prefix tokens. */
  lemma {:induction false} WordsPre(e: Expr)
    requires WellFormed(e)
    ensures Words(Pre(e)) == PreTokens(e)
  {
    match e
    case Num(d) =>
      WordsAppend(" ", d);
      WordsOne(d);
      WordsSpace(" ");
    case Bin(op, l, r) =>
      WordsPre(l);
      WordsPre(r);
      PreStartsWithSpace(l);
      PreStartsWithSpace(r);
      WordsPreBin(op, Pre(l), Pre(r));
  }

  /** The prefix text of an operation splits into the operator and its operands' texts. */
  lemma WordsPreBin(op: char, a: string, b: string)
    requires IsOp(op) && a != [] && a[0] == ' ' && b != [] && b[0] == ' '
    ensures Words([' ', op] + a + b) == [[op]] + Words(a) + Words(b)
  {
    calc {
      Words([' ', op] + a + b);
      { assert [' ', op] + a + b == [' ', op] + (a + b); }
      Words([' ', op] + (a + b));
      { WordsOperator(op, a + b); }
      [[op]] + Words(a + b);
      { WordsAppend(a, b); }
      [[op]] + (Words(a) + Words(b));
    }
  }

  lemma PreStartsWithSpace(e: Expr)
    ensures Pre(e) != [] && Pre(e)[0] == ' '
  {
  }

  /** A blank, an operator, then text starting with a blank. */
  lemma WordsOperator(op: char, rest: string)
    requires IsOp(op) && rest != [] && rest[0] == ' '
    ensures Words([' ', op] + rest) == [[op]] + Words(rest)
  {
    WordsAppend([' ', op], rest);
    WordsAppend(" ", [op]);
    assert " " + [op] == [' ', op];
    WordsOne([op]);
    WordsSpace(" ");
  }

  /** The postfix run over an expression's tokens leaves its value on the stack, or
      stops with its error. */
  lemma {:induction false} RunPost(e: Expr, rest: seq<string>, nums: seq<int>)
    requires WellFormed(e)
    ensures RunSuffix(PostTokens(e) + rest, nums) ==
              match Value(e) case Err(x) => Err(x) case Ok(v) => RunSuffix(rest, nums + [v])
  {
    match e
    case Num(d) =>
      RunNumber(d, rest, nums);
    case Bin(op, l, r) =>
      assert PostTokens(e) + rest == PostTokens(l) + (PostTokens(r) + ([[op]] + rest));
      RunPost(l, PostTokens(r) + ([[op]] + rest), nums);
      if Value(l).Ok? {
        var a := Value(l).value;
        RunPost(r, [[op]] + rest, nums + [a]);
        if Value(r).Ok? {
          RunOperator(op, rest, nums, a, Value(r).value);
        }
      }
  }

  /** Both runs push the value of a number token. */
  lemma RunNumber(d: string, rest: seq<string>, nums: seq<int>)
    requires d != [] && forall k :: 0 <= k < |d| ==> IsDigit(d[k])
    ensures RunSuffix([d] + rest, nums) == RunSuffix(rest, nums + [DecimalValue(d)])
    ensures RunPrefix([d] + rest, nums) == RunPrefix(rest, nums + [DecimalValue(d)])
  {
    DigitRunExact(d, |d|);
    assert d[..|d|] == d;
    assert ([d] + rest)[0] == d && ([d] + rest)[1..] == rest;
  }

  /** An operator token applies to the top two values: in the postfix run the lower one is
      the left operand, in the prefix run the upper one. */
  lemma RunOperator(op: char, rest: seq<string>, nums: seq<int>, a: int, b: int)
    requires IsOp(op)
    ensures var c := Calc(a, b, op);
              RunSuffix([[op]] + rest, nums + [a] + [b]) ==
                if c.Err? then Err(c.error) else RunSuffix(rest, nums + [c.value])
    ensures var c := Calc(a, b, op);
              RunPrefix([[op]] + rest, nums + [b] + [a]) ==
                if c.Err? then Err(c.error) else RunPrefix(rest, nums + [c.value])
  {
    assert (nums + [a] + [b])[..|nums| + 2 - 2] == nums;
    assert (nums + [b] + [a])[..|nums| + 2 - 2] == nums;
    assert ([[op]] + rest)[0] == [op] && ([[op]] + rest)[1..] == rest;
  }

  /** `eval` of the fully parenthesized text of an expression is its value. */
  lemma EvalOfShow(e: Expr)
    requires WellFormed(e)
    ensures RunSuffix(Words(Suffix(Show(e))), []) == Value(e)
  {
    SuffixOfShow(e);
    WordsPost(e);
    RunPost(e, [], []);
    assert PostTokens(e) + [] == PostTokens(e);
  }

  /** The expression `to_prefix` sees: operands swapped, literals reversed. */
  function Flip(e: Expr): Expr
  {
    match e
    case Num(d) => Num(Reverse(d))
    case Bin(op, l, r) => Bin(op, Flip(r), Flip(l))
  }

  lemma {:induction false} FlipWellFormed(e: Expr)
    requires WellFormed(e)
    ensures WellFormed(Flip(e))
  {
    match e
    case Num(d) =>
    case Bin(op, l, r) =>
      FlipWellFormed(l);
      FlipWellFormed(r);
  }

  lemma MirrorAppend(a: string, b: string)
    ensures Mirror(a + b) == Mirror(b) + Mirror(a)
  {
  }

  /** Reversing the infix text and swapping its parentheses gives the infix text of the
      flipped expression. */
  lemma {:induction false} MirrorShow(e: Expr)
    requires WellFormed(e)
    ensures Mirror(Show(e)) == Show(Flip(e))
  {
    match e
    case Num(d) =>
    case Bin(op, l, r) =>
      MirrorShow(l);
      MirrorShow(r);
      MirrorBin(Show(l), op, Show(r));
  }

  /** Mirroring a parenthesized operation swaps its operands' mirrored texts. */
  lemma MirrorBin(a: string, op: char, b: string)
    requires IsOp(op)
    ensures Mirror("(" + a + [op] + b + ")") == "(" + Mirror(b) + [op] + Mirror(a) + ")"
  {
    calc {
      Mirror("(" + a + [op] + b + ")");
      { MirrorAppend("(" + a + [op] + b, ")"); }
      Mirror(")") + Mirror("(" + a + [op] + b);
      { MirrorAppend("(" + a + [op], b); }
      Mirror(")") + (Mirror(b) + Mirror("(" + a + [op]));
      { MirrorAppend("(" + a, [op]); }
      Mirror(")") + (Mirror(b) + (Mirror([op]) + Mirror("(" + a)));
      { MirrorAppend("(", a); }
      Mirror(")") + (Mirror(b) + (Mirror([op]) + (Mirror(a) + Mirror("("))));
      { assert Mirror(")") == "(" && Mirror([op]) == [op] && Mirror("(") == ")"; }
      "(" + (Mirror(b) + ([op] + (Mirror(a) + ")")));
      { assert "(" + (Mirror(b) + ([op] + (Mirror(a) + ")"))) == "(" + Mirror(b) + [op] + Mirror(a) + ")"; }
      "(" + Mirror(b) + [op] + Mirror(a) + ")";
    }
  }

  /** The reversed postfix text of the flipped expression is the prefix text. */
  lemma {:induction false} ReversePostFlip(e: Expr)
    requires WellFormed(e)
    ensures Reverse(Post(Flip(e))) == Pre(e)
  {
    match e
    case Num(d) =>
      ReverseAppend(Reverse(d), " ");
      ReverseReverse(d);
    case Bin(op, l, r) =>
      ReversePostFlip(l);
      ReversePostFlip(r);
      ReverseAppend(Post(Flip(r)) + Post(Flip(l)), [op, ' ']);
      ReverseAppend(Post(Flip(r)), Post(Flip(l)));
  }

  /** `to_prefix` of a fully parenthesized expression is its prefix text. */
  lemma PrefixOfShow(e: Expr)
    requires WellFormed(e)
    ensures Reverse(Suffix(Mirror(Show(e)))) == Pre(e)
  {
    MirrorShow(e);
    FlipWellFormed(e);
    SuffixOfShow(Flip(e));
    ReversePostFlip(e);
  }

  /** `eval_prefix` as written rejects the prefix text of every expression with an
      operator: the operator comes first and finds an empty stack. */
  lemma PrefixAsWrittenRejects(e: Expr)
    requires WellFormed(e) && e.Bin?
    ensures RunPrefix(Words(Pre(e)), []) == Err(RuntimeError("Invalid expression"))
  {
    WordsPre(e);
  }

  /** The right-to-left prefix run over an expression's tokens leaves its value on the
      stack, or stops with its error. */
  lemma {:induction false} RunPre(e: Expr, rest: seq<string>, nums: seq<int>)
    requires WellFormed(e)
    ensures RunPrefix(Reverse(PreTokens(e)) + rest, nums) ==
              match Value(e) case Err(x) => Err(x) case Ok(v) => RunPrefix(rest, nums + [v])
  {
    match e
    case Num(d) =>
      assert Reverse([d]) == [d];
      RunNumber(d, rest, nums);
    case Bin(op, l, r) =>
      ReversePreBin(op, PreTokens(l), PreTokens(r), rest);
      RunPre(r, Reverse(PreTokens(l)) + ([[op]] + rest), nums);
      if Value(r).Ok? {
        var b := Value(r).value;
        RunPre(l, [[op]] + rest, nums + [b]);
        if Value(l).Ok? {
          RunOperator(op, rest, nums, Value(l).value, b);
        }
      } else if Value(l).Err? {
        ValueError(l);
        ValueError(r);
      }
  }

  /** Read backwards, the prefix tokens of an operation list the right operand, the left
      operand, then the operator. */
  lemma ReversePreBin(op: char, l: seq<string>, r: seq<string>, rest: seq<string>)
    ensures Reverse([[op]] + l + r) + rest == Reverse(r) + (Reverse(l) + ([[op]] + rest))
  {
    ReverseAppend([[op]] + l, r);
    ReverseAppend([[op]], l);
    assert Reverse([[op]]) == [[op]];
  }

  /** Read right to left, the prefix text of an expression evaluates to its value. */
  lemma PrefixValue(e: Expr)
    requires WellFormed(e)
    ensures RunPrefix(Reverse(Words(Pre(e))), []) == Value(e)
  {
    WordsPre(e);
    RunPre(e, [], []);
    assert Reverse(PreTokens(e)) + [] == Reverse(PreTokens(e));
  }
}
