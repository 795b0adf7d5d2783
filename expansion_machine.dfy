/** The meaning of a terminfo parameterized string (terminfo(5),
    "Parameterized Strings") as `Expansion.ExpandArguments` gives it: text
    is copied, and each `%` directive pushes, pops, computes or formats
    values on a stack. This module states that meaning as functions of an
    explicit machine state; the imperative `ExpansionState` class is proved
    against them.

    An exception the expansion throws is an `Err`; a plain `Exception` is
    written `InvalidOperation`, since the only handler that sees it turns it
    into an `InvalidOperationException`. */
module ExpansionMachine {
  import opened Wrappers
  import opened Primitives
  import opened CheckedArithmetic
  import opened ExpansionParameters

  /** Why one level of expansion stopped: at the end of the string, or at a
      `%t`, `%e` or `%;` that belongs to an enclosing `%?`. */
  datatype StatementState = FoundEndOfString | FoundThen | FoundElse | FoundEndIf

  /** Everything an expansion reads and updates: the source and the read
      position of `ExpansionReader`, the nine argument slots, the stack, and
      the variables a-z and A-Z (a missing key is a slot never set). */
  datatype Machine = Machine(
    source: string,
    position: nat,
    arguments: seq<Parameter>,
    stack: seq<Parameter>,
    dynamicValues: map<char, Parameter>,
    staticValues: map<char, Parameter>)

  ghost predicate Valid(m: Machine)
  {
    m.position <= |m.source| && |m.arguments| <= 9
  }

  /** m2 is a later state of the same expansion: same source, a position
      no earlier, as many arguments. */
  ghost predicate Advances(m: Machine, m2: Machine)
  {
    m2.source == m.source && m.position <= m2.position <= |m.source|
    && |m2.arguments| == |m.arguments|
  }

  /** m2 is m with only the read position moved forward. */
  ghost predicate OnlyReads(m: Machine, m2: Machine)
  {
    m2 == m.(position := m2.position) && m.position <= m2.position <= |m.source|
  }

  // ------------------------------------------------------- state primitives

  /** `ReadChar()`: the next source character; the end of the string is an
      invalid operation. */
  function ReadChar(m: Machine): (r: Result<(char, Machine)>)
    requires m.position <= |m.source|
    ensures r.Ok? <==> m.position < |m.source|
    ensures r.Ok? ==> r.value.0 == m.source[m.position] && r.value.1 == m.(position := m.position + 1)
    ensures r.Err? ==> r.error == InvalidOperation
  {
    if m.position < |m.source| then Ok((m.source[m.position], m.(position := m.position + 1)))
    else Err(InvalidOperation)
  }

  function Push(m: Machine, p: Parameter): Machine
  {
    m.(stack := m.stack + [p])
  }

  /** `Stack.Pop()`: the top (last pushed) value; an empty stack is an
      invalid operation. */
  function Pop(m: Machine): (r: Result<(Parameter, Machine)>)
    ensures r.Ok? <==> m.stack != []
    ensures r.Err? ==> r.error == InvalidOperation
    ensures r.Ok? ==> m.stack == r.value.1.stack + [r.value.0]
                      && r.value.1 == m.(stack := r.value.1.stack)
  {
    if m.stack == [] then Err(InvalidOperation)
    else Ok((m.stack[|m.stack| - 1], m.(stack := m.stack[..|m.stack| - 1])))
  }

  lemma PopUndoesPush(m: Machine, p: Parameter)
    ensures Pop(Push(m, p)) == Ok((p, m))
  {
    assert (m.stack + [p])[..|m.stack|] == m.stack;
  }

  /** The argument slot of index '1'..'9' exists. */
  predicate HasArgument(m: Machine, index: char)
  {
    '1' <= index <= '9' && index as int - '1' as int < |m.arguments|
  }

  /** `Arguments[index]`: a slot outside '1'..'9' or past the arguments
      given is a bad argument. */
  function GetArgument(m: Machine, index: char): (r: Result<Parameter>)
    ensures r.Ok? <==> HasArgument(m, index)
    ensures r.Ok? ==> r.value == m.arguments[index as int - '1' as int]
    ensures r.Err? ==> r.error == ExpansionBadArgument
  {
    if HasArgument(m, index) then Ok(m.arguments[index as int - '1' as int])
    else Err(ExpansionBadArgument)
  }

  /** `Arguments[index] = value`, with the getter's check. */
  function SetArgument(m: Machine, index: char, p: Parameter): (r: Result<Machine>)
    ensures r.Ok? <==> HasArgument(m, index)
    ensures r.Ok? ==> r.value == m.(arguments := m.arguments[index as int - '1' as int := p])
    ensures r.Err? ==> r.error == ExpansionBadArgument
  {
    if HasArgument(m, index) then Ok(m.(arguments := m.arguments[index as int - '1' as int := p]))
    else Err(ExpansionBadArgument)
  }

  predicate IsLower(c: char)
  {
    'a' <= c <= 'z'
  }

  predicate IsUpper(c: char)
  {
    'A' <= c <= 'Z'
  }

  // -------------------------------------------------------------- operators

  function Pow2(n: nat): (r: nat)
    ensures r >= 1
  {
    if n == 0 then 1 else 2 * Pow2(n - 1)
  }

  lemma {:induction false} Pow2Sum(a: nat, b: nat)
    ensures Pow2(a + b) == Pow2(a) * Pow2(b)
  {
    if a > 0 {
      Pow2Sum(a - 1, b);
    }
  }

  lemma Pow2Of32()
    ensures Pow2(32) == UINT32_MAX + 1
  {
    assert Pow2(8) == 0x100;
    Pow2Sum(8, 8);
    Pow2Sum(8, 16);
    Pow2Sum(8, 24);
  }

  /** One bit of `&`, `|` or `^`. */
  function BitOf(op: char, x: nat, y: nat): (r: nat)
    requires x < 2 && y < 2
    ensures r < 2
  {
    if op == '&' then x * y
    else if op == '|' then (if x + y > 0 then 1 else 0)
    else if x != y then 1 else 0
  }

  /** The bitwise operation op on the low n bits of a and b, least
      significant bit first. */
  function Bitwise(op: char, a: nat, b: nat, n: nat): nat
    decreases n
  {
    if n == 0 then 0
    else 2 * Bitwise(op, a / 2, b / 2, n - 1) + BitOf(op, a % 2, b % 2)
  }

  /** The bitwise operation on n bits gives an n-bit result. */
  lemma {:induction false} BitwiseBound(op: char, a: nat, b: nat, n: nat)
    ensures Bitwise(op, a, b, n) < Pow2(n)
  {
    if n > 0 {
      BitwiseBound(op, a / 2, b / 2, n - 1);
    }
  }

  /** A bitwise operator on two `Int32` values, through their 32-bit
      patterns. */
  function Bitwise32(op: char, x: Int32, y: Int32): (r: Int32)
  {
    BitwiseBound(op, AsUInt32(x), AsUInt32(y), 32);
    Pow2Of32();
    var u := Bitwise(op, AsUInt32(x), AsUInt32(y), 32);
    if u > INT32_MAX then u - UINT32_MAX - 1 else u
  }

  /** Exclusive or with the same value twice gives the low bits back. */
  lemma {:induction false} ExclusiveOrTwice(a: nat, b: nat, n: nat)
    requires a < Pow2(n)
    ensures Bitwise('^', Bitwise('^', a, b, n), b, n) == a
    decreases n
  {
    if n > 0 {
      var z := Bitwise('^', a, b, n);
      assert z / 2 == Bitwise('^', a / 2, b / 2, n - 1) && z % 2 == BitOf('^', a % 2, b % 2);
      ExclusiveOrTwice(a / 2, b / 2, n - 1);
    }
  }

  /** Unchecked 32-bit arithmetic: the result wraps around. */
  function Wrap32(x: int): (r: Int32)
    ensures INT32_MIN <= x <= INT32_MAX ==> r == x
    ensures (r - x) % (UINT32_MAX + 1) == 0
  {
    Wrap(W32, x)
  }

  /** A truncated quotient fits unless it is `MinValue / -1`. */
  lemma QuotientFits(x: Int32, y: Int32)
    requires y != 0 && !(x == INT32_MIN && y == -1)
    ensures INT32_MIN <= TruncatedDivRem(x, y).0 <= INT32_MAX
    ensures INT32_MIN <= TruncatedDivRem(x, y).1 <= INT32_MAX
  {
    TruncatedQuotientBound(x, y);
    TruncatedDivRemSpec(x, y);
    if y == 1 || y == -1 {
      assert TruncatedDivRem(x, y).0 == x * y;
    }
  }

  /** `p1 op p2` for the binary operators + - * / m & | ^ = < > A O, with
      `^` the exclusive or of terminfo(5). Division and remainder truncate
      toward zero; a zero divisor and `MinValue / -1` throw. `A` and `O`
      short-circuit: the second operand is not converted when the first
      decides. */
  function Binary(op: char, p1: Parameter, p2: Parameter): (r: Result<Int32>)
    requires op in "+-*/m&|^=<>AO"
  {
    if op == 'A' then
      var b1 :- AsBool(p1);
      if !b1 then Ok(0) else var b2 :- AsBool(p2); Ok(FromBool(b2).value)
    else if op == 'O' then
      var b1 :- AsBool(p1);
      if b1 then Ok(1) else var b2 :- AsBool(p2); Ok(FromBool(b2).value)
    else
      var x :- AsNumber(p1);
      var y :- AsNumber(p2);
      Arithmetic(op, x, y)
  }

  /** The operators of `Binary` that take two numbers. */
  function Arithmetic(op: char, x: Int32, y: Int32): (r: Result<Int32>)
    requires op in "+-*/m&|^=<>"
  {
    match op
    case '+' => Ok(Wrap32(x + y))
    case '-' => Ok(Wrap32(x - y))
    case '*' => Ok(Wrap32(x * y))
    case '/' =>
      if y == 0 then Err(DivideByZero)
      else if x == INT32_MIN && y == -1 then Err(Overflow)
      else QuotientFits(x, y); Ok(TruncatedDivRem(x, y).0)
    case 'm' =>
      if y == 0 then Err(DivideByZero)
      else if x == INT32_MIN && y == -1 then Err(Overflow)
      else QuotientFits(x, y); Ok(TruncatedDivRem(x, y).1)
    case '&' | '|' | '^' => Ok(Bitwise32(op, x, y))
    case '=' => Ok(FromBool(x == y).value)
    case '<' => Ok(FromBool(x < y).value)
    case '>' => Ok(FromBool(x > y).value)
  }

  /** `Binary` as written: `%^` computes `p1 - p2`. */
  function BinaryAsWritten(op: char, p1: Parameter, p2: Parameter): (r: Result<Int32>)
    requires op in "+-*/m&|^=<>AO"
    ensures op != '^' ==> r == Binary(op, p1, p2)
    ensures op == '^' ==> r == Binary('-', p1, p2)
  {
    if op == '^' then
      var x :- AsNumber(p1);
      var y :- AsNumber(p2);
      Ok(Wrap32(x - y))
    else Binary(op, p1, p2)
  }

  /** `%^` as written subtracts: 6 and 3 give 3 where the exclusive or is 5. */
  lemma ExclusiveOrAsWrittenSubtracts()
    ensures BinaryAsWritten('^', Number(6), Number(3)) == Ok(3)
    ensures Binary('^', Number(6), Number(3)) == Ok(5)
  {
    ZeroBits(29);
    assert Bitwise('^', 1, 0, 30) == 1;
    assert Bitwise('^', 3, 1, 31) == 2;
    assert Bitwise('^', 6, 3, 32) == 5;
    assert Bitwise32('^', 6, 3) == 5;
  }

  lemma {:induction false} ZeroBits(n: nat)
    ensures Bitwise('^', 0, 0, n) == 0
  {
    if n > 0 {
      ZeroBits(n - 1);
    }
  }

  lemma SignedExclusiveOrTwice(x: Int32, y: Int32)
    ensures Bitwise32('^', Bitwise32('^', x, y), y) == x
  {
    BitwiseBound('^', AsUInt32(x), AsUInt32(y), 32);
    Pow2Of32();
    var u := Bitwise('^', AsUInt32(x), AsUInt32(y), 32);
    assert AsUInt32(Bitwise32('^', x, y)) == u;
    ExclusiveOrTwice(AsUInt32(x), AsUInt32(y), 32);
  }

  /** The corrected `%^` undoes itself, which subtraction does not. */
  lemma ExclusiveOrUndoes(x: Int32, y: Int32)
    ensures Binary('^', Number(Binary('^', Number(x), Number(y)).value), Number(y)) == Ok(x)
  {
    var z := Bitwise32('^', x, y);
    assert Binary('^', Number(x), Number(y)) == Ok(z);
    assert Binary('^', Number(z), Number(y)) == Ok(Bitwise32('^', z, y));
    SignedExclusiveOrTwice(x, y);
  }

  /** Division and remainder put the dividend back together, the remainder
      taking the sign of the dividend. */
  lemma DivisionPair(x: Int32, y: Int32)
    requires y != 0 && !(x == INT32_MIN && y == -1)
    ensures var q, m := Binary('/', Number(x), Number(y)), Binary('m', Number(x), Number(y));
            q.Ok? && m.Ok? && x == q.value * y + m.value
            && (x >= 0 ==> m.value >= 0) && (x < 0 ==> m.value <= 0) && Abs(m.value) < Abs(y)
  {
    TruncatedDivRemSpec(x, y);
  }

  /** The errors of division and remainder. */
  lemma DivisionErrors(op: char, x: Int32, y: Int32)
    requires op == '/' || op == 'm'
    ensures y == 0 ==> Binary(op, Number(x), Number(y)) == Err(DivideByZero)
    ensures x == INT32_MIN && y == -1 ==> Binary(op, Number(x), Number(y)) == Err(Overflow)
  {
  }

  /** A comparison or logical operator yields 1 or 0. */
  lemma TruthValues(op: char, p1: Parameter, p2: Parameter)
    requires op in "=<>AO"
    requires Binary(op, p1, p2).Ok?
    ensures Binary(op, p1, p2).value in {0, 1}
  {
  }

  /** `%A` and `%O` decide on the first operand alone when they can: a
      string second operand is then never looked at. */
  lemma LogicalShortCircuit(s: NetString)
    ensures Binary('A', Number(0), Text(s)) == Ok(0)
    ensures Binary('O', Number(7), Text(s)) == Ok(1)
    ensures Binary('A', Number(7), Text(s)) == Err(ExpansionBadArgument)
  {
  }

  /** `op p` for the unary operators ~ ! l. */
  function Unary(op: char, p: Parameter): (r: Result<Int32>)
    requires op in "~!l"
    ensures op == '~' && p.Number? ==> r.Ok? && r.value == -1 - p.value
    ensures op == 'l' ==> (r.Ok? <==> p.Text?) && (r.Ok? ==> r.value == |p.text|)
    ensures op == '!' ==> (r.Ok? <==> p.Number?) && (r.Ok? ==> (r.value == 1 <==> p.value == 0))
    ensures r.Err? ==> r.error == ExpansionBadArgument
  {
    match op
    case '~' => var x :- AsNumber(p); Ok(-1 - x)
    case '!' => var b :- AsBool(p); Ok(FromBool(!b).value)
    case 'l' => var s :- AsString(p); Ok(|s|)
  }

  // ------------------------------------------------------------ format spec

  /** The digit loop of `ReadFormatSpec`: while c is a digit, append it and
      read the next character; yields the first non-digit, the digits
      appended to acc, and the state after it. */
  function DigitRun(m: Machine, c: char, acc: string): (r: Result<(char, string, Machine)>)
    requires m.position <= |m.source|
    ensures r.Ok? ==> !IsDigit(r.value.0) && Advances(m, r.value.2) && OnlyReads(m, r.value.2)
    ensures r.Err? ==> r.error == InvalidOperation
    ensures r.Ok? ==> |acc| <= |r.value.1| && r.value.1[..|acc|] == acc && AllDigits(r.value.1[|acc|..])
    decreases |m.source| - m.position
  {
    if !IsDigit(c) then Ok((c, acc, m))
    else
      var next :- ReadChar(m);
      var rest :- DigitRun(next.1, next.0, acc + [c]);
      assert rest.1[|acc|..] == [c] + rest.1[|acc + [c]|..];
      Ok(rest)
  }

  /** The end of `ReadFormatSpec`: the type character must be one of
      c d o s u x X. */
  function FinishSpec(spec: string, c: char, m: Machine): (r: Result<(string, Machine)>)
    ensures r.Ok? <==> c in "cdosuxX"
    ensures r.Ok? ==> r.value == (spec + [c], m)
    ensures r.Err? ==> r.error == InvalidOperation
  {
    if c !in "cdosuxX" then Err(InvalidOperation) else Ok((spec + [c], m))
  }

  /** `ReadFormatSpec(state, code)` as written: width digits, then after a
      '.' the precision digits, then the type; the '.' itself is read but
      not kept, so the precision digits run on from the width's. */
  function FormatSpecAsWritten(m: Machine, code: char): (r: Result<(string, Machine)>)
    requires m.position <= |m.source|
    ensures r.Ok? ==> Advances(m, r.value.1) && OnlyReads(m, r.value.1)
    ensures r.Err? ==> r.error == InvalidOperation
  {
    var a :- DigitRun(m, code, "");
    if a.0 == '.' then
      var b :- ReadChar(a.2);
      var d :- DigitRun(b.1, b.0, a.1);
      FinishSpec(d.1, d.0, d.2)
    else FinishSpec(a.1, a.0, a.2)
  }

  /** `ReadFormatSpec(state, code)` as intended: as written, but keeping the
      '.' between width and precision. */
  function FormatSpec(m: Machine, code: char): (r: Result<(string, Machine)>)
    requires m.position <= |m.source|
    ensures r.Ok? ==> Advances(m, r.value.1) && OnlyReads(m, r.value.1)
    ensures r.Err? ==> r.error == InvalidOperation
  {
    var a :- DigitRun(m, code, "");
    if a.0 == '.' then
      var b :- ReadChar(a.2);
      var d :- DigitRun(b.1, b.0, a.1 + ".");
      FinishSpec(d.1, d.0, d.2)
    else FinishSpec(a.1, a.0, a.2)
  }

  // ---------------------------------------------------------------- directives

  /** The `%{digits}` loop: characters up to the closing brace, each a
      digit; a missing brace runs into the end of the string. */
  function Braced(m: Machine, acc: string): (r: Result<(string, Machine)>)
    requires m.position <= |m.source| && AllDigits(acc)
    ensures r.Ok? ==> Advances(m, r.value.1) && OnlyReads(m, r.value.1) && AllDigits(r.value.0)
    decreases |m.source| - m.position
  {
    var next :- ReadChar(m);
    if next.0 == '}' then Ok((acc, next.1))
    else if !IsDigit(next.0) then Err(InvalidOperation)
    else Braced(next.1, acc + [next.0])
  }

  /** The directives that neither open nor close a conditional, after the
      `%` and the code have been read: the state they leave and the text
      they emit. */
  function Directive(m: Machine, code: char): (r: Result<(string, Machine)>)
    requires Valid(m)
    ensures r.Ok? ==> Advances(m, r.value.1)
  {
    match code
    case '%' => Ok(("%", m))
    case 'p' =>
      var index :- ReadChar(m);
      if !('1' <= index.0 <= '9') then Err(InvalidOperation)
      else
        var p :- GetArgument(index.1, index.0);
        Ok(("", Push(index.1, p)))
    case 'P' =>
      var name :- ReadChar(m);
      if IsLower(name.0) then
        var top :- Pop(name.1);
        Ok(("", top.1.(dynamicValues := top.1.dynamicValues[name.0 := top.0])))
      else if IsUpper(name.0) then
        var top :- Pop(name.1);
        Ok(("", top.1.(staticValues := top.1.staticValues[name.0 := top.0])))
      else Err(InvalidOperation)
    case 'g' =>
      var name :- ReadChar(m);
      if IsLower(name.0) then
        if name.0 in name.1.dynamicValues then Ok(("", Push(name.1, name.1.dynamicValues[name.0])))
        else Err(ExpansionSyntaxError)
      else if IsUpper(name.0) then
        if name.0 in name.1.staticValues then Ok(("", Push(name.1, name.1.staticValues[name.0])))
        else Err(ExpansionSyntaxError)
      else Err(InvalidOperation)
    case '\'' =>
      var c :- ReadChar(m);
      var quote :- ReadChar(c.1);
      if quote.0 != '\'' then Err(InvalidOperation)
      else Ok(("", Push(quote.1, FromChar(c.0))))
    case '{' =>
      var digits :- Braced(m, "");
      if ParseInt32(digits.0).None? then Err(InvalidOperation)
      else Ok(("", Push(digits.1, Number(ParseInt32(digits.0).value))))
    case 'i' =>
      var first :- GetArgument(m, '1');
      var x :- AsNumber(first);
      // The setter repeats the getter's check, which has passed.
      var m1 := SetArgument(m, '1', Number(Wrap32(x + 1))).value;
      if !HasArgument(m1, '2') then Ok(("", m1))
      else
        var y :- AsNumber(m1.arguments[1]);
        Ok(("", SetArgument(m1, '2', Number(Wrap32(y + 1))).value))
    case _ =>
      if code in "cdosuxX.0123456789" then FormatDirective(m, code)
      else if code in "+-*/m&|^=<>AO" then BinaryDirective(m, code)
      else if code in "~!l" then UnaryDirective(m, code)
      else Err(InvalidOperation)
  }

  /** `%[width][.precision]type`: reads the spec, pops a value and emits it
      formatted. On success the value on top of the stack is gone, the
      text is that value formatted by the spec, and nothing else but the
      read position has changed. */
  function FormatDirective(m: Machine, code: char): (r: Result<(string, Machine)>)
    requires Valid(m)
    ensures r.Ok? ==> Advances(m, r.value.1)
    ensures m.stack == [] ==> r == Err(InvalidOperation)
    ensures r.Ok? ==> m.stack != [] && FormatSpec(m, code).Ok?
                      && Format(m.stack[|m.stack| - 1], FormatSpec(m, code).value.0) == Ok(r.value.0)
                      && r.value.1 == m.(position := r.value.1.position, stack := m.stack[..|m.stack| - 1])
    ensures FormatSpec(m, code).Ok? && m.stack != [] ==>
              (r.Ok? <==> Format(m.stack[|m.stack| - 1], FormatSpec(m, code).value.0).Ok?)
  {
    var spec :- FormatSpec(m, code);
    var top :- Pop(spec.1);
    var text :- Format(top.0, spec.0);
    Ok((text, top.1))
  }

  /** `BinaryOperation(state, operator)`: pops p2, then p1, and pushes
      `p1 op p2`. */
  function BinaryDirective(m: Machine, op: char): (r: Result<(string, Machine)>)
    requires Valid(m) && op in "+-*/m&|^=<>AO"
    ensures r.Ok? ==> Advances(m, r.value.1)
    ensures |m.stack| < 2 ==> r == Err(InvalidOperation)
    ensures |m.stack| >= 2 ==>
              var n := |m.stack|;
              var v := Binary(op, m.stack[n - 2], m.stack[n - 1]);
              r == if v.Err? then Err(v.error) else Ok(("", m.(stack := m.stack[..n - 2] + [Number(v.value)])))
  {
    var p2 :- Pop(m);
    var p1 :- Pop(p2.1);
    assert p2.1.stack == m.stack[..|m.stack| - 1];
    assert p1.1.stack == m.stack[..|m.stack| - 2];
    var v :- Binary(op, p1.0, p2.0);
    Ok(("", Push(p1.1, Number(v))))
  }

  /** `UnaryOperation(state, operator)`: pops p and pushes `op p`. */
  function UnaryDirective(m: Machine, op: char): (r: Result<(string, Machine)>)
    requires Valid(m) && op in "~!l"
    ensures r.Ok? ==> Advances(m, r.value.1)
    ensures m.stack == [] ==> r == Err(InvalidOperation)
    ensures m.stack != [] ==>
              var n := |m.stack|;
              var v := Unary(op, m.stack[n - 1]);
              r == if v.Err? then Err(v.error) else Ok(("", m.(stack := m.stack[..n - 1] + [Number(v.value)])))
  {
    var p :- Pop(m);
    var v :- Unary(op, p.0);
    Ok(("", Push(p.1, Number(v))))
  }

  // ---------------------------------------------------------------- expansion

  /** How one level of expansion ended: why, what it emitted, and the state
      it left. */
  datatype Outcome = Outcome(state: StatementState, output: string, machine: Machine)

  /** The loop of `ExpandArguments(state)` from machine m, having emitted
      out so far: text up to a `%` is copied; `%t`, `%e` and `%;` end this
      level; `%?` expands a conditional; anything else is a directive. */
  function ExpandFrom(m: Machine, out: string): (r: Result<Outcome>)
    requires Valid(m)
    ensures r.Ok? ==> Advances(m, r.value.machine)
    ensures r.Ok? && r.value.state != FoundEndOfString ==> r.value.machine.position >= m.position + 2
    ensures r.Ok? && r.value.state == FoundEndOfString ==> r.value.machine.position == |m.source|
    decreases |m.source| - m.position, 2
  {
    if m.position == |m.source| then Ok(Outcome(FoundEndOfString, out, m))
    else if m.source[m.position] != '%' then
      ExpandFrom(m.(position := m.position + 1), out + [m.source[m.position]])
    else ExpandCode(m, out)
  }

  /** The same loop at a `%`: the code after it decides. A `%` at the very
      end of the string is an invalid operation. */
  function ExpandCode(m: Machine, out: string): (r: Result<Outcome>)
    requires Valid(m) && m.position < |m.source| && m.source[m.position] == '%'
    ensures r.Ok? ==> Advances(m, r.value.machine)
    ensures r.Ok? && r.value.state != FoundEndOfString ==> r.value.machine.position >= m.position + 2
    ensures r.Ok? && r.value.state == FoundEndOfString ==> r.value.machine.position == |m.source|
    decreases |m.source| - m.position, 1
  {
    if m.position + 1 == |m.source| then Err(InvalidOperation)
    else
      var code := m.source[m.position + 1];
      var m1 := m.(position := m.position + 2);
      if code == 't' then Ok(Outcome(FoundThen, out, m1))
      else if code == 'e' then Ok(Outcome(FoundElse, out, m1))
      else if code == ';' then Ok(Outcome(FoundEndIf, out, m1))
      else if code == '?' then ConditionalThen(m, out)
      else DirectiveThen(m, out)
  }

  /** The same loop at `%?`: the conditional's output and effects, then the
      rest of the level. */
  function ConditionalThen(m: Machine, out: string): (r: Result<Outcome>)
    requires Valid(m) && m.position + 1 < |m.source| && m.source[m.position] == '%'
    ensures r.Ok? ==> Advances(m, r.value.machine)
    ensures r.Ok? && r.value.state != FoundEndOfString ==> r.value.machine.position >= m.position + 2
    ensures r.Ok? && r.value.state == FoundEndOfString ==> r.value.machine.position == |m.source|
    decreases |m.source| - m.position, 0
  {
    var conditional := IfFrom(m.(position := m.position + 2), "", None, true);
    if conditional.Err? then Err(conditional.error)
    else ExpandFrom(conditional.value.1, out + conditional.value.0)
  }

  /** The same loop at a `%` whose code is a directive: the directive's
      output and effects, then the rest of the level. */
  function DirectiveThen(m: Machine, out: string): (r: Result<Outcome>)
    requires Valid(m) && m.position + 1 < |m.source| && m.source[m.position] == '%'
    ensures r.Ok? ==> Advances(m, r.value.machine)
    ensures r.Ok? && r.value.state != FoundEndOfString ==> r.value.machine.position >= m.position + 2
    ensures r.Ok? && r.value.state == FoundEndOfString ==> r.value.machine.position == |m.source|
    decreases |m.source| - m.position, 0
  {
    var step := Directive(m.(position := m.position + 2), m.source[m.position + 1]);
    if step.Err? then Err(step.error) else ExpandFrom(step.value.1, out + step.value.0)
  }

  /** The expansion loop at a `%` goes on with the code after it. */
  lemma ExpandAtPercent(m: Machine, out: string)
    requires Valid(m) && m.position < |m.source| && m.source[m.position] == '%'
    ensures ExpandFrom(m, out) == ExpandCode(m, out)
  {
  }

  /** The expansion loop at a `%` that ends the string fails. */
  lemma ExpandAtLastPercent(m: Machine, out: string)
    requires Valid(m) && m.position + 1 == |m.source| && m.source[m.position] == '%'
    ensures ExpandFrom(m, out) == Err(InvalidOperation)
  {
    ExpandAtPercent(m, out);
  }

  /** The expansion loop at `%t`, `%e` or `%;` ends the level there. */
  lemma ExpandAtStop(m: Machine, out: string)
    requires Valid(m) && m.position + 1 < |m.source|
    requires m.source[m.position] == '%' && m.source[m.position + 1] in "te;"
    ensures var code := m.source[m.position + 1];
            ExpandFrom(m, out) == Ok(Outcome(
              if code == 't' then FoundThen else if code == 'e' then FoundElse else FoundEndIf,
              out, m.(position := m.position + 2)))
  {
    ExpandAtPercent(m, out);
  }

  /** The expansion loop at `%?` goes on after the conditional, or fails
      with it. */
  lemma ExpandAtConditional(m: Machine, out: string)
    requires Valid(m) && m.position + 1 < |m.source|
    requires m.source[m.position] == '%' && m.source[m.position + 1] == '?'
    ensures var c := IfFrom(m.(position := m.position + 2), "", None, true);
            ExpandFrom(m, out) == if c.Err? then Err(c.error) else ExpandFrom(c.value.1, out + c.value.0)
  {
    ExpandAtPercent(m, out);
  }

  /** The expansion loop at any other `%` code goes on after the
      directive, or fails with it. */
  lemma ExpandAtDirective(m: Machine, out: string)
    requires Valid(m) && m.position + 1 < |m.source|
    requires m.source[m.position] == '%' && m.source[m.position + 1] !in "te;?"
    ensures var d := Directive(m.(position := m.position + 2), m.source[m.position + 1]);
            ExpandFrom(m, out) == if d.Err? then Err(d.error) else ExpandFrom(d.value.1, out + d.value.0)
  {
    ExpandAtPercent(m, out);
    CodeIsDirective(m, out);
    DirectiveThenSteps(m, out);
  }

  lemma CodeIsDirective(m: Machine, out: string)
    requires Valid(m) && m.position + 1 < |m.source| && m.source[m.position] == '%'
    requires var code := m.source[m.position + 1]; code != 't' && code != 'e' && code != ';' && code != '?'
    ensures ExpandCode(m, out) == DirectiveThen(m, out)
  {
  }

  /** A directive step: the directive, then the rest of the level. */
  lemma DirectiveThenSteps(m: Machine, out: string)
    requires Valid(m) && m.position + 1 < |m.source| && m.source[m.position] == '%'
    ensures var d := Directive(m.(position := m.position + 2), m.source[m.position + 1]);
            DirectiveThen(m, out) == if d.Err? then Err(d.error) else ExpandFrom(d.value.1, out + d.value.0)
  {
  }

  /** The text a finished conditional emits: the chosen branch's output,
      if any. */
  function Chosen(outputOfThen: Option<string>): string
  {
    if outputOfThen.Some? then outputOfThen.value else ""
  }

  /** The loop of `ProcessIfStatement` from machine m, just after `%?` or
      `%e`: out is what it has emitted, outputOfThen the output of the first
      branch whose condition held, isFirst whether this is the first
      condition. Every condition and every branch is expanded (their effects
      on the stack, variables and arguments all happen); only the output of
      the first condition, and of the first branch whose condition held (or
      of a final else), is kept. */
  function IfFrom(m: Machine, out: string, outputOfThen: Option<string>, isFirst: bool): (r: Result<(string, Machine)>)
    requires Valid(m)
    ensures r.Ok? ==> Advances(m, r.value.1)
    decreases |m.source| - m.position, 3
  {
    var condition :- ExpandFrom(m, "");
    var out1 := if isFirst then out + condition.output else out;
    if condition.state == FoundEndIf then
      if isFirst then Err(InvalidOperation)
      else Ok((out1 + Chosen(if outputOfThen.Some? then outputOfThen else Some(condition.output)), condition.machine))
    else if condition.state != FoundThen then Err(InvalidOperation)
    else
      var top :- Pop(condition.machine);
      var holds :- AsBool(top.0);
      var branch :- ExpandFrom(top.1, "");
      var then' := if holds && outputOfThen.None? then Some(branch.output) else outputOfThen;
      if branch.state == FoundEndIf then Ok((out1 + Chosen(then'), branch.machine))
      else if branch.state != FoundElse then Err(InvalidOperation)
      else IfFrom(branch.machine, out1, then', false)
  }

  /** The exception `ExpandArguments(value, args)` lets out for one thrown
      inside: a syntax error or a bad argument becomes an
      `ArgumentException`, anything else an `InvalidOperationException`. */
  function Translate(e: Exception): (r: Exception)
    ensures r == Argument || r == InvalidOperation
    ensures r == Argument <==> e == ExpansionSyntaxError || e == ExpansionBadArgument
  {
    if e == ExpansionSyntaxError || e == ExpansionBadArgument then Argument else InvalidOperation
  }

  /** The state `new ExpansionState(value, args)` builds: more than nine
      arguments, or one of an unsupported type, is a bad argument. */
  function Initial(value: string, args: seq<ArgumentValue>): (r: Result<Machine>)
    ensures r.Ok? <==> |args| <= 9 && forall i :: 0 <= i < |args| ==> !args[i].Unsupported?
    ensures r.Ok? ==> Valid(r.value) && r.value.source == value && r.value.position == 0
                      && r.value.stack == [] && |r.value.arguments| == |args|
    ensures r.Err? ==> r.error == ExpansionBadArgument
  {
    if |args| > 9 then Err(ExpansionBadArgument)
    else
      var parameters :- Converted(args);
      Ok(Machine(value, 0, parameters, [], map[], map[]))
  }

  /** The arguments converted one by one, in order. */
  function Converted(args: seq<ArgumentValue>): (r: Result<seq<Parameter>>)
    ensures r.Ok? <==> forall i :: 0 <= i < |args| ==> !args[i].Unsupported?
    ensures r.Ok? ==> |r.value| == |args| && forall i :: 0 <= i < |args| ==> Ok(r.value[i]) == ToParameter(args[i])
    ensures r.Err? ==> r.error == ExpansionBadArgument
  {
    if args == [] then Ok([])
    else
      var first :- ToParameter(args[0]);
      var rest :- Converted(args[1..]);
      assert forall i :: 1 <= i < |args| ==> args[i] == args[1..][i - 1];
      Ok([first] + rest)
  }

  /** `Expansion.ExpandArguments(value, args)`: the whole string expanded at
      the top level, which must end at the end of the string (a `%t`, `%e`
      or `%;` outside any `%?` is an error). */
  function ExpandArguments(value: string, args: seq<ArgumentValue>): (r: Result<string>)
    ensures r.Err? ==> r.error == Argument || r.error == InvalidOperation
    ensures |args| > 9 ==> r == Err(Argument)
  {
    match Initial(value, args)
    case Err(e) => Err(Translate(e))
    case Ok(m) =>
      match ExpandFrom(m, "")
      case Err(e) => Err(Translate(e))
      case Ok(o) => if o.state != FoundEndOfString then Err(InvalidOperation) else Ok(o.output)
  }
}
