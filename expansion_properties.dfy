/** What an expansion does with plain text, escapes, arguments,
    conditionals and format specs, proved of `ExpansionMachine`. */
module ExpansionProperties {
  import opened Wrappers
  import opened Primitives
  import opened ExpansionParameters
  import opened ExpansionMachine

  predicate NoPercent(s: string)
  {
    forall i :: 0 <= i < |s| ==> s[i] != '%'
  }

  /** Text without `%` is copied as it is, one character at a time. */
  lemma {:induction false} PlainPrefix(m: Machine, out: string, k: nat)
    requires Valid(m) && m.position <= k <= |m.source|
    requires NoPercent(m.source[m.position..k])
    ensures ExpandFrom(m, out) == ExpandFrom(m.(position := k), out + m.source[m.position..k])
    decreases k - m.position
  {
    if m.position < k {
      var m1 := m.(position := m.position + 1);
      assert m.source[m.position..k][0] == m.source[m.position];
      assert m.source[m1.position..k] == m.source[m.position..k][1..];
      PlainPrefix(m1, out + [m.source[m.position]], k);
      assert out + [m.source[m.position]] + m.source[m1.position..k] == out + m.source[m.position..k];
    } else {
      assert out + m.source[m.position..k] == out;
    }
  }

  /** One step of the expansion loop over a character that is not `%`. */
  lemma TextStep(m: Machine, out: string)
    requires Valid(m) && m.position < |m.source| && m.source[m.position] != '%'
    ensures ExpandFrom(m, out) == ExpandFrom(m.(position := m.position + 1), out + [m.source[m.position]])
  {
  }

  /** One step of the expansion loop over a directive. */
  lemma DirectiveStep(m: Machine, out: string, code: char, next: Machine, text: string)
    requires Valid(m) && m.position + 1 < |m.source|
    requires m.source[m.position] == '%' && m.source[m.position + 1] == code && code !in "te;?"
    requires Directive(m.(position := m.position + 2), code) == Ok((text, next))
    ensures ExpandFrom(m, out) == ExpandFrom(next, out + text)
  {
    ExpandAtDirective(m, out);
  }

  /** One step of the expansion loop over a conditional. */
  lemma ConditionalStep(m: Machine, out: string, next: Machine, text: string)
    requires Valid(m) && m.position + 1 < |m.source|
    requires m.source[m.position] == '%' && m.source[m.position + 1] == '?'
    requires IfFrom(m.(position := m.position + 2), "", None, true) == Ok((text, next))
    ensures ExpandFrom(m, out) == ExpandFrom(next, out + text)
  {
    ExpandAtConditional(m, out);
  }

  /** The step that ends one level at `%t`, `%e` or `%;`. */
  lemma StopStep(m: Machine, out: string)
    requires Valid(m) && m.position + 1 < |m.source|
    requires m.source[m.position] == '%' && m.source[m.position + 1] in "te;"
    ensures var code := m.source[m.position + 1];
            ExpandFrom(m, out) == Ok(Outcome(
              if code == 't' then FoundThen else if code == 'e' then FoundElse else FoundEndIf,
              out, m.(position := m.position + 2)))
  {
    ExpandAtStop(m, out);
  }

  /** A string without `%` expands to itself, whatever the arguments. */
  lemma VerbatimText(value: string, args: seq<ArgumentValue>)
    requires NoPercent(value)
    requires Initial(value, args).Ok?
    ensures ExpandArguments(value, args) == Ok(value)
  {
    var m := Initial(value, args).value;
    assert value[0..|value|] == value;
    PlainPrefix(m, "", |value|);
    assert "" + value == value;
  }

  /** `%%` writes one `%`; the text around it is copied. */
  lemma EscapedPercent(before: string, after: string, args: seq<ArgumentValue>)
    requires NoPercent(before) && NoPercent(after)
    requires Initial(before + "%%" + after, args).Ok?
    ensures ExpandArguments(before + "%%" + after, args) == Ok(before + "%" + after)
  {
    var value := before + "%%" + after;
    var m := Initial(value, args).value;
    assert value[0..|before|] == before;
    PlainPrefix(m, "", |before|);
    var m1 := m.(position := |before|);
    assert value[|before|] == '%' && value[|before| + 1] == '%';
    var m2 := m.(position := |before| + 2);
    DirectiveStep(m1, "" + before, '%', m2, "%");
    assert value[|before| + 2..|value|] == after;
    PlainPrefix(m2, "" + before + "%", |value|);
    assert "" + before + "%" + after == before + "%" + after;
  }

  /** A `%t`, `%e` or `%;` that closes no `%?` makes the expansion fail
      with an invalid operation. */
  lemma StrayTerminator(before: string, code: char, after: string, args: seq<ArgumentValue>)
    requires NoPercent(before) && code in "te;"
    requires Initial(before + "%" + [code] + after, args).Ok?
    ensures ExpandArguments(before + "%" + [code] + after, args) == Err(InvalidOperation)
  {
    var value := before + "%" + [code] + after;
    var m := Initial(value, args).value;
    assert value[0..|before|] == before;
    PlainPrefix(m, "", |before|);
    assert value[|before|] == '%' && value[|before| + 1] == code;
    assert ExpandFrom(m.(position := |before|), "" + before).value.state != FoundEndOfString;
  }

  /** A binary operator pops its second operand first: `%p1%p2%-` computes
      argument 1 minus argument 2. */
  lemma OperandOrder(m: Machine, x: Int32, y: Int32)
    requires Valid(m)
    ensures Directive(Push(Push(m, Number(x)), Number(y)), '-') == Ok(("", Push(m, Number(Wrap32(x - y)))))
  {
    var m1 := Push(m, Number(x));
    PopUndoesPush(m1, Number(y));
    PopUndoesPush(m, Number(x));
  }

  /** `%i` adds one to the first argument, and to the second when there is
      one. */
  lemma IncrementArguments(m: Machine, x: Int32, y: Int32)
    requires Valid(m) && m.arguments == [Number(x), Number(y)]
    ensures Directive(m, 'i') == Ok(("", m.(arguments := [Number(Wrap32(x + 1)), Number(Wrap32(y + 1))])))
  {
    var m1 := m.(arguments := [Number(Wrap32(x + 1)), Number(y)]);
    assert m.arguments[0 := Number(Wrap32(x + 1))] == m1.arguments;
    assert m1.arguments[1 := Number(Wrap32(y + 1))] == [Number(Wrap32(x + 1)), Number(Wrap32(y + 1))];
  }

  /** `%i` with no argument is a bad argument. */
  lemma IncrementNeedsArgument(m: Machine)
    requires Valid(m) && m.arguments == []
    ensures Directive(m, 'i') == Err(ExpansionBadArgument)
  {
  }

  /** `%p` followed by '1' pushes the first argument. */
  lemma PushFirstArgument(m: Machine, n: Int32)
    requires Valid(m) && m.position < |m.source| && m.source[m.position] == '1'
    requires m.arguments == [Number(n)]
    ensures Directive(m, 'p') == Ok(("", Push(m.(position := m.position + 1), Number(n))))
  {
  }

  /** `%p` and an index character: an index '1'..'9' naming an argument
      that was given pushes that argument; an index past the arguments
      given is a bad argument, and any other character, or the end of the
      string, an invalid operation. */
  lemma PushArgument(m: Machine)
    requires Valid(m)
    ensures m.position == |m.source| ==> Directive(m, 'p') == Err(InvalidOperation)
    ensures m.position < |m.source| ==>
              var index := m.source[m.position];
              Directive(m, 'p')
              == if !('1' <= index <= '9') then Err(InvalidOperation)
                 else if !HasArgument(m, index) then Err(ExpansionBadArgument)
                 else Ok(("", Push(m.(position := m.position + 1), m.arguments[index as int - '1' as int])))
  {
  }

  /** `%P` and a variable name: a lower-case name stores the popped value
      in the dynamic variables, an upper-case one in the static variables;
      any other name is an invalid operation, and so is an empty stack. */
  lemma StoreVariable(m: Machine)
    requires Valid(m) && m.position < |m.source|
    ensures var name := m.source[m.position];
            var m1 := m.(position := m.position + 1);
            var n := |m.stack|;
            Directive(m, 'P')
            == if !IsLower(name) && !IsUpper(name) then Err(InvalidOperation)
               else if n == 0 then Err(InvalidOperation)
               else if IsLower(name) then
                 Ok(("", m1.(stack := m.stack[..n - 1], dynamicValues := m.dynamicValues[name := m.stack[n - 1]])))
               else Ok(("", m1.(stack := m.stack[..n - 1], staticValues := m.staticValues[name := m.stack[n - 1]])))
  {
  }

  /** `%g` and a variable name pushes the variable's value; a variable
      never set is a syntax error (the variable getter's
      ExpansionStringSyntaxErrorException for an empty slot), and a name
      that is no letter an invalid operation. */
  lemma FetchVariable(m: Machine)
    requires Valid(m) && m.position < |m.source|
    ensures var name := m.source[m.position];
            var m1 := m.(position := m.position + 1);
            var values := if IsLower(name) then m.dynamicValues else m.staticValues;
            Directive(m, 'g')
            == if !IsLower(name) && !IsUpper(name) then Err(InvalidOperation)
               else if name !in values then Err(ExpansionSyntaxError)
               else Ok(("", Push(m1, values[name])))
  {
  }

  /** `%'c'` pushes the code of c; a missing closing quote is an invalid
      operation. */
  lemma CharConstant(m: Machine)
    requires Valid(m) && m.position + 1 < |m.source|
    ensures var c := m.source[m.position];
            Directive(m, '\'')
            == if m.source[m.position + 1] != '\'' then Err(InvalidOperation)
               else Ok(("", Push(m.(position := m.position + 2), Number(c as int))))
  {
  }

  /** The `%{` loop over the digits w and the closing brace collects w. */
  lemma {:induction false} BracedOver(m: Machine, acc: string, w: string)
    requires AllDigits(acc) && AllDigits(w)
    requires m.position + |w| < |m.source| && m.source[m.position..m.position + |w| + 1] == w + "}"
    ensures Braced(m, acc) == Ok((acc + w, m.(position := m.position + |w| + 1)))
    decreases |w|
  {
    assert m.source[m.position] == (w + "}")[0];
    if w == [] {
      assert acc + w == acc;
    } else {
      var m1 := m.(position := m.position + 1);
      assert m.source[m1.position..m1.position + |w[1..]| + 1] == (w + "}")[1..] == w[1..] + "}";
      assert IsDigit(w[0]);
      BracedOver(m1, acc + [w[0]], w[1..]);
      assert acc + [w[0]] + w[1..] == acc + w;
    }
  }

  /** `%{w}` with w a string of digits pushes the number w spells when it
      fits an Int32; no digits, or a number past `Int32.MaxValue`, is an
      invalid operation. */
  lemma BracedNumber(m: Machine, w: string)
    requires Valid(m) && AllDigits(w)
    requires m.position + |w| < |m.source| && m.source[m.position..m.position + |w| + 1] == w + "}"
    ensures var after := m.(position := m.position + |w| + 1);
            Directive(m, '{')
            == if w != [] && DecimalValue(w) <= INT32_MAX then Ok(("", Push(after, Number(DecimalValue(w)))))
               else Err(InvalidOperation)
  {
    var after := m.(position := m.position + |w| + 1);
    BracedFromStart(m, w);
    BracedValue(m, w, after);
  }

  /** The braces of `%{` hold exactly w. */
  lemma BracedFromStart(m: Machine, w: string)
    requires AllDigits(w)
    requires m.position + |w| < |m.source| && m.source[m.position..m.position + |w| + 1] == w + "}"
    ensures Braced(m, "") == Ok((w, m.(position := m.position + |w| + 1)))
  {
    BracedOver(m, "", w);
    assert "" + w == w;
  }

  /** `%{` whose braces hold w pushes the Int32 that w spells. */
  lemma BracedValue(m: Machine, w: string, after: Machine)
    requires Valid(m) && AllDigits(w) && Braced(m, "") == Ok((w, after))
    ensures Directive(m, '{')
            == if w != [] && DecimalValue(w) <= INT32_MAX then Ok(("", Push(after, Number(DecimalValue(w)))))
               else Err(InvalidOperation)
  {
    BracedDirective(m);
  }

  /** `%{` reads the braced digits, then parses them as an Int32. */
  lemma BracedDirective(m: Machine)
    requires Valid(m)
    ensures var d := Braced(m, "");
            Directive(m, '{')
            == if d.Err? then Err(d.error)
               else if ParseInt32(d.value.0).None? then Err(InvalidOperation)
               else Ok(("", Push(d.value.1, Number(ParseInt32(d.value.0).value))))
  {
  }

  /** `%d` with a non-negative number on top of the stack pops it and
      writes its decimal digits. */
  lemma PrintTop(m: Machine, n: Int32)
    requires Valid(m) && n >= 0 && m.stack == [Number(n)]
    ensures Directive(m, 'd') == Ok((Digits(n, 10, false), m.(stack := [])))
  {
    assert DigitRun(m, 'd', "") == Ok(('d', "", m));
    assert "" + ['d'] == "d";
    assert FormatSpec(m, 'd') == Ok(("d", m));
    assert ParseSpec("d") == Some(("", "", 'd')) by {
      assert DigitPrefix("d") == [];
    }
    PlainDecimal(n);
    assert Pop(m) == Ok((Number(n), m.(stack := [])));
  }

  /** `%p1%d` prints the first argument in decimal. */
  lemma PrintArgument(n: Int32)
    requires n >= 0
    ensures ExpandArguments("%p1%d", [Int32Value(n)]) == Ok(Digits(n, 10, false))
  {
    var source := "%p1%d";
    var m0 := Machine(source, 0, [Number(n)], [], map[], map[]);
    OneArgument(n);
    assert Initial(source, [Int32Value(n)]) == Ok(m0);
    PrintArgumentExpands(m0, n);
  }

  lemma PrintArgumentExpands(m0: Machine, n: Int32)
    requires n >= 0 && m0 == Machine("%p1%d", 0, [Number(n)], [], map[], map[])
    ensures ExpandFrom(m0, "") == Ok(Outcome(FoundEndOfString, Digits(n, 10, false), m0.(position := 5)))
  {
    PushesArgument(m0, n);
    PrintsTop(m0.(position := 3, stack := [Number(n)]), n);
  }

  /** In `%p1%d`, `%p1` pushes the argument and writes nothing. */
  lemma PushesArgument(m0: Machine, n: Int32)
    requires n >= 0 && m0 == Machine("%p1%d", 0, [Number(n)], [], map[], map[])
    ensures ExpandFrom(m0, "") == ExpandFrom(m0.(position := 3, stack := [Number(n)]), "")
  {
    assert m0.source[0] == '%' && m0.source[1] == 'p' && m0.source[2] == '1';
    assert m0.stack + [Number(n)] == [Number(n)];
    PushFirstArgument(m0.(position := 2), n);
    DirectiveStep(m0, "", 'p', m0.(position := 3, stack := [Number(n)]), "");
    assert "" + "" == "";
  }

  /** In `%p1%d`, `%d` pops the argument and writes its digits. */
  lemma PrintsTop(m3: Machine, n: Int32)
    requires n >= 0 && m3 == Machine("%p1%d", 3, [Number(n)], [Number(n)], map[], map[])
    ensures ExpandFrom(m3, "") == Ok(Outcome(FoundEndOfString, Digits(n, 10, false), m3.(position := 5, stack := [])))
  {
    var digits := Digits(n, 10, false);
    var m5 := m3.(position := 5, stack := []);
    assert m3.source[3] == '%' && m3.source[4] == 'd';
    PrintTop(m3.(position := 5), n);
    DirectiveStep(m3, "", 'd', m5, digits);
    assert "" + digits == digits;
  }

  lemma OneArgument(n: Int32)
    ensures Converted([Int32Value(n)]) == Ok([Number(n)])
  {
    assert [Int32Value(n)][1..] == [];
    assert [Number(n)] + [] == [Number(n)];
  }

  /** `%?%p1%tA%eB%;` writes A when the first argument is not zero and B
      when it is. */
  lemma IfThenElse(v: Int32)
    ensures ExpandArguments("%?%p1%tA%eB%;", [Int32Value(v)]) == Ok(if v != 0 then "A" else "B")
  {
    var source := "%?%p1%tA%eB%;";
    var m0 := Machine(source, 0, [Number(v)], [], map[], map[]);
    OneArgument(v);
    assert Initial(source, [Int32Value(v)]) == Ok(m0);
    IfThenElseExpands(m0, v);
  }

  lemma IfThenElseExpands(m0: Machine, v: Int32)
    requires m0 == Machine("%?%p1%tA%eB%;", 0, [Number(v)], [], map[], map[])
    ensures ExpandFrom(m0, "") == Ok(Outcome(FoundEndOfString, if v != 0 then "A" else "B", m0.(position := 13)))
  {
    var text := if v != 0 then "A" else "B";
    assert m0.source[0] == '%' && m0.source[1] == '?';
    IfThenElseConditional(m0, v);
    ConditionalStep(m0, "", m0.(position := 13), text);
    assert |m0.source| == 13 && "" + text == text;
    assert ExpandFrom(m0.(position := 13), text) == Ok(Outcome(FoundEndOfString, text, m0.(position := 13)));
  }

  /** The conditional of `%?%p1%tA%eB%;`, with its three parts. */
  lemma IfThenElseConditional(m0: Machine, v: Int32)
    requires m0 == Machine("%?%p1%tA%eB%;", 0, [Number(v)], [], map[], map[])
    ensures IfFrom(m0.(position := 2), "", None, true) == Ok((if v != 0 then "A" else "B", m0.(position := 13)))
  {
    IfThenElseCondition(m0, v);
    IfThenElseBranches(m0);
    var m7 := m0.(position := 7);
    assert Pop(m0.(position := 7, stack := [Number(v)])) == Ok((Number(v), m7));
    var then' := if v != 0 then Some("A") else None;
    var text := if v != 0 then "A" else "B";
    assert "" + text == text && "" + "" == "";
    assert IfFrom(m0.(position := 10), "", then', false) == Ok((text, m0.(position := 13)));
  }

  lemma IfThenElseCondition(m0: Machine, v: Int32)
    requires m0 == Machine("%?%p1%tA%eB%;", 0, [Number(v)], [], map[], map[])
    ensures ExpandFrom(m0.(position := 2), "") == Ok(Outcome(FoundThen, "", m0.(position := 7, stack := [Number(v)])))
  {
    var source := m0.source;
    assert source[2] == '%' && source[3] == 'p' && source[4] == '1' && source[5] == '%' && source[6] == 't';
    var m5 := m0.(position := 5, stack := [Number(v)]);
    assert m0.stack + [Number(v)] == [Number(v)];
    PushFirstArgument(m0.(position := 4), v);
    DirectiveStep(m0.(position := 2), "", 'p', m5, "");
    StopStep(m5, "" + "");
    assert "" + "" == "";
  }

  lemma IfThenElseBranches(m0: Machine)
    requires m0.source == "%?%p1%tA%eB%;" && |m0.arguments| <= 9
    ensures ExpandFrom(m0.(position := 7), "") == Ok(Outcome(FoundElse, "A", m0.(position := 10)))
    ensures ExpandFrom(m0.(position := 10), "") == Ok(Outcome(FoundEndIf, "B", m0.(position := 13)))
  {
    var source := m0.source;
    assert source[7] == 'A' && source[8] == '%' && source[9] == 'e';
    assert source[10] == 'B' && source[11] == '%' && source[12] == ';';
    assert "" + ['A'] == "A" && "" + ['B'] == "B";
    TextStep(m0.(position := 7), "");
    StopStep(m0.(position := 8), "A");
    TextStep(m0.(position := 10), "");
    StopStep(m0.(position := 11), "B");
  }

  /** A part of a text found in a source is found there, shifted. */
  lemma SliceOf(source: string, start: nat, text: string, i: nat, j: nat)
    requires start + |text| <= |source| && source[start..start + |text|] == text && i <= j <= |text|
    ensures source[start + i..start + j] == text[i..j]
  {
    forall k | 0 <= k < j - i
      ensures source[start + i..start + j][k] == text[i..j][k]
    {
      assert source[start + i + k] == source[start..start + |text|][i + k];
    }
  }

  lemma CharOf(source: string, start: nat, text: string, i: nat)
    requires start + |text| <= |source| && source[start..start + |text|] == text && i < |text|
    ensures source[start + i] == text[i]
  {
    assert source[start + i] == source[start..start + |text|][i];
  }

  /** The source holds, from p, the text s followed by `%` and code. */
  predicate TextThen(source: string, p: nat, s: string, code: char)
  {
    p + |s| + 2 <= |source| && source[p..p + |s|] == s && source[p + |s|] == '%' && source[p + |s| + 1] == code
  }

  /** s `%` code inside a text found in a source. */
  lemma TextThenIn(source: string, start: nat, text: string, i: nat, s: string, code: char)
    requires start + |text| <= |source| && source[start..start + |text|] == text
    requires i + |s| + 2 <= |text| && text[i..i + |s|] == s && text[i + |s|] == '%' && text[i + |s| + 1] == code
    ensures TextThen(source, start + i, s, code)
  {
    SliceOf(source, start, text, i, i + |s|);
    CharOf(source, start, text, i + |s|);
    CharOf(source, start, text, i + |s| + 1);
  }

  /** Why a level stops at the terminator code: `%t`, `%e` or `%;`. */
  function StopState(code: char): StatementState
  {
    if code == 't' then FoundThen else if code == 'e' then FoundElse else FoundEndIf
  }

  /** `%e` or `%;` after the text s ends the level there. */
  lemma StopAfter(m: Machine, out: string, s: string, code: char)
    requires Valid(m) && (code == 'e' || code == ';') && TextThen(m.source, m.position, s, code)
    ensures ExpandFrom(m.(position := m.position + |s|), out)
            == Ok(Outcome(StopState(code), out, m.(position := m.position + |s| + 2)))
  {
    var mk := m.(position := m.position + |s|);
    assert mk.(position := mk.position + 2) == m.(position := m.position + |s| + 2);
    ExpandAtStop(mk, out);
  }

  /** Text s without `%` is copied to the output. */
  lemma PlainText(m: Machine, out: string, s: string)
    requires Valid(m) && NoPercent(s)
    requires m.position + |s| <= |m.source| && m.source[m.position..m.position + |s|] == s
    ensures ExpandFrom(m, out) == ExpandFrom(m.(position := m.position + |s|), out + s)
  {
    PlainPrefix(m, out, m.position + |s|);
  }

  /** Plain text s, then `%` and a terminator code, ends the level with s
      as its output. */
  lemma PlainThenStop(m: Machine, s: string, code: char)
    requires Valid(m) && NoPercent(s) && (code == 'e' || code == ';')
    requires TextThen(m.source, m.position, s, code)
    ensures ExpandFrom(m, "") == Ok(Outcome(StopState(code), s, m.(position := m.position + |s| + 2)))
  {
    assert "" + s == s;
    StopAfter(m, s, s, code);
    PlainText(m, "", s);
  }

  /** The state with the top of the stack removed. */
  function Popped(m: Machine): (r: Machine)
    requires m.stack != []
    ensures r.stack + [m.stack[|m.stack| - 1]] == m.stack
  {
    m.(stack := m.stack[..|m.stack| - 1])
  }

  /** A condition expanded from m stops at its `%t` with the output
      condOut, leaving the state mc with v on top of the stack. */
  ghost predicate ConditionYields(m: Machine, condOut: string, mc: Machine, v: Int32)
  {
    Valid(m) && ExpandFrom(m, "") == Ok(Outcome(FoundThen, condOut, mc))
    && mc.stack != [] && mc.stack[|mc.stack| - 1] == Number(v)
  }

  /** A condition reads the same source. */
  lemma ConditionSource(m: Machine, condOut: string, mc: Machine, v: Int32)
    requires ConditionYields(m, condOut, mc, v)
    ensures mc.source == m.source && Valid(mc) && mc.position >= m.position + 2
  {
  }

  /** One condition of a conditional, from just after `%?` or `%e`: the
      condition stops at `%t` leaving v on top of the stack, and its branch
      runs with v popped. Only the first branch whose condition held keeps
      its output, and only the first condition's own output is kept. */
  lemma IfStep(m: Machine, out: string, outputOfThen: Option<string>, isFirst: bool,
               condOut: string, mc: Machine, v: Int32, branch: Outcome)
    requires ConditionYields(m, condOut, mc, v)
    requires ExpandFrom(Popped(mc), "") == Ok(branch)
    ensures var out1 := if isFirst then out + condOut else out;
            var then' := if v != 0 && outputOfThen.None? then Some(branch.output) else outputOfThen;
            IfFrom(m, out, outputOfThen, isFirst)
            == if branch.state == FoundEndIf then Ok((out1 + Chosen(then'), branch.machine))
               else if branch.state != FoundElse then Err(InvalidOperation)
               else IfFrom(branch.machine, out1, then', false)
  {
    assert Pop(mc) == Ok((Number(v), Popped(mc)));
  }

  /** A final else, from just after `%e`: its output is kept when no
      condition held. */
  lemma IfEnd(m: Machine, out: string, outputOfThen: Option<string>, elseOut: string, me: Machine)
    requires Valid(m)
    requires ExpandFrom(m, "") == Ok(Outcome(FoundEndIf, elseOut, me))
    ensures IfFrom(m, out, outputOfThen, false)
            == Ok((out + (if outputOfThen.Some? then outputOfThen.value else elseOut), me))
  {
  }

  /** The first condition, followed by a plain-text branch that ends at
      `%e`: the condition's output is kept, and the branch's text becomes
      the chosen output when v is not zero. */
  lemma FirstBranch(m: Machine, condOut: string, mc: Machine, v: Int32, s: string)
    requires ConditionYields(m, condOut, mc, v)
    requires NoPercent(s) && TextThen(mc.source, mc.position, s, 'e')
    ensures IfFrom(m, "", None, true)
            == IfFrom(Popped(mc).(position := mc.position + |s| + 2), condOut, if v != 0 then Some(s) else None, false)
  {
    var after := Popped(mc).(position := mc.position + |s| + 2);
    assert "" + condOut == condOut;
    assert TextThen(Popped(mc).source, Popped(mc).position, s, 'e');
    ConditionSource(m, condOut, mc, v);
    PlainThenStop(Popped(mc), s, 'e');
    IfStep(m, "", None, true, condOut, mc, v, Outcome(FoundElse, s, after));
  }

  /** A later condition, followed by a plain-text branch that ends at
      `%;`: the branch's text is chosen when v is not zero and no earlier
      branch was, and the conditional ends there. */
  lemma LastBranch(m: Machine, out: string, outputOfThen: Option<string>,
                   condOut: string, mc: Machine, v: Int32, s: string)
    requires ConditionYields(m, condOut, mc, v)
    requires NoPercent(s) && TextThen(mc.source, mc.position, s, ';')
    ensures IfFrom(m, out, outputOfThen, false)
            == Ok((out + Chosen(if v != 0 && outputOfThen.None? then Some(s) else outputOfThen),
                   Popped(mc).(position := mc.position + |s| + 2)))
  {
    var after := Popped(mc).(position := mc.position + |s| + 2);
    assert TextThen(Popped(mc).source, Popped(mc).position, s, ';');
    ConditionSource(m, condOut, mc, v);
    PlainThenStop(Popped(mc), s, ';');
    IfStep(m, out, outputOfThen, false, condOut, mc, v, Outcome(FoundEndIf, s, after));
  }

  /** A plain else branch and `%;`: its text is kept when no condition
      held. */
  lemma FinalElse(m: Machine, out: string, outputOfThen: Option<string>, b: string)
    requires Valid(m) && NoPercent(b) && TextThen(m.source, m.position, b, ';')
    ensures IfFrom(m, out, outputOfThen, false)
            == Ok((out + (if outputOfThen.Some? then outputOfThen.value else b), m.(position := m.position + |b| + 2)))
  {
    PlainThenStop(m, b, ';');
    IfEnd(m, out, outputOfThen, b, m.(position := m.position + |b| + 2));
  }

  /** The text of `%?` cond `%t` a `%e` b `%;`. */
  function IfThenElseText(cond: string, a: string, b: string): (text: string)
    ensures |text| == |cond| + |a| + |b| + 8
  {
    "%?" + cond + "%t" + a + "%e" + b + "%;"
  }

  /** The text of `%?` c1 `%t` a `%e` c2 `%t` b `%;`. */
  function IfElseIfText(c1: string, a: string, c2: string, b: string): (text: string)
    ensures |text| == |c1| + |a| + |c2| + |b| + 10
  {
    "%?" + c1 + "%t" + a + "%e" + c2 + "%t" + b + "%;"
  }

  /** `%?` cond `%t` a `%e` b `%;`, with a and b plain text and a condition
      that stops at its `%t` leaving v on top of the stack: the conditional
      emits the condition's own output, then a when v is not zero and b
      when it is zero, and the expansion goes on after the `%;` with v
      popped. */
  lemma IfThenElseOf(m: Machine, out: string, cond: string, a: string, b: string,
                     condOut: string, mc: Machine, v: Int32)
    requires Valid(m) && NoPercent(a) && NoPercent(b)
    requires var text := IfThenElseText(cond, a, b);
             m.position + |text| <= |m.source| && m.source[m.position..m.position + |text|] == text
    requires ConditionYields(m.(position := m.position + 2), condOut, mc, v)
    requires mc.position == m.position + |cond| + 4
    ensures ExpandFrom(m, out)
            == ExpandFrom(Popped(mc).(position := m.position + |cond| + |a| + |b| + 8),
                          out + condOut + (if v != 0 then a else b))
  {
    var me := Popped(mc).(position := m.position + |cond| + |a| + |b| + 8);
    var shown := if v != 0 then a else b;
    assert out + (condOut + shown) == out + condOut + shown;
    ThenElseAt(m, cond, a, b, condOut, mc, v);
    ConditionalStep(m, out, me, condOut + shown);
  }

  /** The conditional of `%?` cond `%t` a `%e` b `%;` found at m. */
  lemma ThenElseAt(m: Machine, cond: string, a: string, b: string, condOut: string, mc: Machine, v: Int32)
    requires Valid(m) && NoPercent(a) && NoPercent(b)
    requires var text := IfThenElseText(cond, a, b);
             m.position + |text| <= |m.source| && m.source[m.position..m.position + |text|] == text
    requires ConditionYields(m.(position := m.position + 2), condOut, mc, v)
    requires mc.position == m.position + |cond| + 4
    ensures m.position + 1 < |m.source| && m.source[m.position] == '%' && m.source[m.position + 1] == '?'
    ensures IfFrom(m.(position := m.position + 2), "", None, true)
            == Ok((condOut + (if v != 0 then a else b), Popped(mc).(position := m.position + |cond| + |a| + |b| + 8)))
  {
    assert Popped(mc).(position := mc.position + |a| + |b| + 4)
        == Popped(mc).(position := m.position + |cond| + |a| + |b| + 8);
    ConditionSource(m.(position := m.position + 2), condOut, mc, v);
    assert mc.source == m.source;
    ThenElseParts(m, cond, a, b, mc);
    ThenElseConditional(m.(position := m.position + 2), a, b, condOut, mc, v);
  }

  /** The conditional of `%?` cond `%t` a `%e` b `%;`, from just after
      the `%?`. */
  lemma ThenElseConditional(m: Machine, a: string, b: string, condOut: string, mc: Machine, v: Int32)
    requires NoPercent(a) && NoPercent(b)
    requires ConditionYields(m, condOut, mc, v)
    requires TextThen(mc.source, mc.position, a, 'e') && TextThen(mc.source, mc.position + |a| + 2, b, ';')
    ensures IfFrom(m, "", None, true)
            == Ok((condOut + (if v != 0 then a else b), Popped(mc).(position := mc.position + |a| + |b| + 4)))
  {
    var mb := Popped(mc).(position := mc.position + |a| + 2);
    var then' := if v != 0 then Some(a) else None;
    assert mb.(position := mb.position + |b| + 2) == Popped(mc).(position := mc.position + |a| + |b| + 4);
    assert (if then'.Some? then then'.value else b) == (if v != 0 then a else b);
    assert TextThen(mb.source, mb.position, b, ';');
    FirstBranch(m, condOut, mc, v, a);
    FinalElse(mb, condOut, then', b);
  }

  /** `%?` c1 `%t` a `%e` c2 `%t` b `%;`, with a and b plain text: both
      conditions are expanded whatever their values (the second
      condition's effects happen, its output is dropped); a is emitted when
      the first holds, b when only the second does, and nothing when
      neither does. */
  lemma IfElseIfOf(m: Machine, out: string, c1: string, a: string, c2: string, b: string,
                   out1: string, mc1: Machine, v1: Int32, out2: string, mc2: Machine, v2: Int32)
    requires Valid(m) && NoPercent(a) && NoPercent(b)
    requires var text := IfElseIfText(c1, a, c2, b);
             m.position + |text| <= |m.source| && m.source[m.position..m.position + |text|] == text
    requires ConditionYields(m.(position := m.position + 2), out1, mc1, v1)
    requires mc1.position == m.position + |c1| + 4
    requires ConditionYields(Popped(mc1).(position := mc1.position + |a| + 2), out2, mc2, v2)
    requires mc2.position == m.position + |c1| + |a| + |c2| + 8
    ensures ExpandFrom(m, out)
            == ExpandFrom(Popped(mc2).(position := m.position + |c1| + |a| + |c2| + |b| + 10),
                          out + out1 + (if v1 != 0 then a else if v2 != 0 then b else ""))
  {
    var me := Popped(mc2).(position := m.position + |c1| + |a| + |c2| + |b| + 10);
    var shown := if v1 != 0 then a else if v2 != 0 then b else "";
    assert out + (out1 + shown) == out + out1 + shown;
    ElseIfAt(m, c1, a, c2, b, out1, mc1, v1, out2, mc2, v2);
    ConditionalStep(m, out, me, out1 + shown);
  }

  /** The conditional of `%?` c1 `%t` a `%e` c2 `%t` b `%;` found at m. */
  lemma ElseIfAt(m: Machine, c1: string, a: string, c2: string, b: string,
                 out1: string, mc1: Machine, v1: Int32, out2: string, mc2: Machine, v2: Int32)
    requires Valid(m) && NoPercent(a) && NoPercent(b)
    requires var text := IfElseIfText(c1, a, c2, b);
             m.position + |text| <= |m.source| && m.source[m.position..m.position + |text|] == text
    requires ConditionYields(m.(position := m.position + 2), out1, mc1, v1)
    requires mc1.position == m.position + |c1| + 4
    requires ConditionYields(Popped(mc1).(position := mc1.position + |a| + 2), out2, mc2, v2)
    requires mc2.position == m.position + |c1| + |a| + |c2| + 8
    ensures m.position + 1 < |m.source| && m.source[m.position] == '%' && m.source[m.position + 1] == '?'
    ensures IfFrom(m.(position := m.position + 2), "", None, true)
            == Ok((out1 + (if v1 != 0 then a else if v2 != 0 then b else ""),
                   Popped(mc2).(position := m.position + |c1| + |a| + |c2| + |b| + 10)))
  {
    assert Popped(mc2).(position := mc2.position + |b| + 2)
        == Popped(mc2).(position := m.position + |c1| + |a| + |c2| + |b| + 10);
    ConditionSource(m.(position := m.position + 2), out1, mc1, v1);
    assert mc1.source == m.source;
    ConditionSource(Popped(mc1).(position := mc1.position + |a| + 2), out2, mc2, v2);
    assert mc2.source == m.source;
    ElseIfParts(m, c1, a, c2, b, mc1, mc2);
    ElseIfConditional(m.(position := m.position + 2), a, b, out1, mc1, v1, out2, mc2, v2);
  }

  /** The conditional of `%?` c1 `%t` a `%e` c2 `%t` b `%;`, from just
      after the `%?`. */
  lemma ElseIfConditional(m: Machine, a: string, b: string,
                          out1: string, mc1: Machine, v1: Int32, out2: string, mc2: Machine, v2: Int32)
    requires NoPercent(a) && NoPercent(b)
    requires ConditionYields(m, out1, mc1, v1) && TextThen(mc1.source, mc1.position, a, 'e')
    requires ConditionYields(Popped(mc1).(position := mc1.position + |a| + 2), out2, mc2, v2)
    requires TextThen(mc2.source, mc2.position, b, ';')
    ensures IfFrom(m, "", None, true)
            == Ok((out1 + (if v1 != 0 then a else if v2 != 0 then b else ""),
                   Popped(mc2).(position := mc2.position + |b| + 2)))
  {
    var mb := Popped(mc1).(position := mc1.position + |a| + 2);
    var then1 := if v1 != 0 then Some(a) else None;
    assert Chosen(if v2 != 0 && then1.None? then Some(b) else then1) == (if v1 != 0 then a else if v2 != 0 then b else "");
    FirstBranch(m, out1, mc1, v1, a);
    LastBranch(mb, out1, then1, out2, mc2, v2, b);
  }

  /** The branches of `%?` cond `%t` a `%e` b `%;`, seen from the state
      mc the condition leaves at its `%t`. */
  lemma ThenElseParts(m: Machine, cond: string, a: string, b: string, mc: Machine)
    requires var text := IfThenElseText(cond, a, b);
             m.position + |text| <= |m.source| && m.source[m.position..m.position + |text|] == text
    requires mc.source == m.source && mc.position == m.position + |cond| + 4
    ensures m.source[m.position] == '%' && m.source[m.position + 1] == '?'
    ensures TextThen(mc.source, mc.position, a, 'e') && TextThen(mc.source, mc.position + |a| + 2, b, ';')
  {
    IfThenElseLayout(m.source, m.position, cond, a, b);
  }

  /** The branches of `%?` c1 `%t` a `%e` c2 `%t` b `%;`, seen from the
      states mc1 and mc2 the conditions leave at their `%t`. */
  lemma ElseIfParts(m: Machine, c1: string, a: string, c2: string, b: string, mc1: Machine, mc2: Machine)
    requires var text := IfElseIfText(c1, a, c2, b);
             m.position + |text| <= |m.source| && m.source[m.position..m.position + |text|] == text
    requires mc1.source == m.source && mc1.position == m.position + |c1| + 4
    requires mc2.source == m.source && mc2.position == m.position + |c1| + |a| + |c2| + 8
    ensures m.source[m.position] == '%' && m.source[m.position + 1] == '?'
    ensures TextThen(mc1.source, mc1.position, a, 'e') && TextThen(mc2.source, mc2.position, b, ';')
  {
    IfElseIfLayout(m.source, m.position, c1, a, c2, b);
  }

  /** Where the parts of `%?` cond `%t` a `%e` b `%;` lie in the source. */
  lemma IfThenElseLayout(source: string, p: nat, cond: string, a: string, b: string)
    requires var text := IfThenElseText(cond, a, b);
             p + |text| <= |source| && source[p..p + |text|] == text
    ensures source[p] == '%' && source[p + 1] == '?'
    ensures TextThen(source, p + |cond| + 4, a, 'e') && TextThen(source, p + |cond| + |a| + 6, b, ';')
  {
    var text := IfThenElseText(cond, a, b);
    var pa := |cond| + 4;
    var pb := pa + |a| + 2;
    assert text == "%?" + cond + "%t" + a + "%e" + b + "%;";
    assert text[pa..pa + |a|] == a && text[pa + |a|] == '%' && text[pa + |a| + 1] == 'e';
    assert text[pb..pb + |b|] == b && text[pb + |b|] == '%' && text[pb + |b| + 1] == ';';
    CharOf(source, p, text, 0);
    CharOf(source, p, text, 1);
    TextThenIn(source, p, text, pa, a, 'e');
    TextThenIn(source, p, text, pb, b, ';');
  }

  /** Where the parts of `%?` c1 `%t` a `%e` c2 `%t` b `%;` lie in the
      source. */
  lemma IfElseIfLayout(source: string, p: nat, c1: string, a: string, c2: string, b: string)
    requires var text := IfElseIfText(c1, a, c2, b);
             p + |text| <= |source| && source[p..p + |text|] == text
    ensures source[p] == '%' && source[p + 1] == '?'
    ensures TextThen(source, p + |c1| + 4, a, 'e') && TextThen(source, p + |c1| + |a| + |c2| + 8, b, ';')
  {
    var text := IfElseIfText(c1, a, c2, b);
    var pa := |c1| + 4;
    var pb := pa + |a| + |c2| + 4;
    assert text == "%?" + c1 + "%t" + a + "%e" + c2 + "%t" + b + "%;";
    assert text[pa..pa + |a|] == a && text[pa + |a|] == '%' && text[pa + |a| + 1] == 'e';
    assert text[pb..pb + |b|] == b && text[pb + |b|] == '%' && text[pb + |b| + 1] == ';';
    CharOf(source, p, text, 0);
    CharOf(source, p, text, 1);
    TextThenIn(source, p, text, pa, a, 'e');
    TextThenIn(source, p, text, pb, b, ';');
  }

  /** The digit loop reads a run of digits up to the first non-digit. */
  lemma {:induction false} DigitRunOver(m: Machine, c: char, acc: string, k: nat)
    requires m.position <= k < |m.source|
    requires AllDigits([c] + m.source[m.position..k]) && !IsDigit(m.source[k])
    ensures DigitRun(m, c, acc) == Ok((m.source[k], acc + [c] + m.source[m.position..k], m.(position := k + 1)))
    decreases k - m.position
  {
    var m1 := m.(position := m.position + 1);
    assert IsDigit(([c] + m.source[m.position..k])[0]);
    if m.position < k {
      assert ([c] + m.source[m.position..k])[1..] == [m.source[m.position]] + m.source[m1.position..k];
      DigitRunOver(m1, m.source[m.position], acc + [c], k);
      assert acc + [c] + [m.source[m.position]] + m.source[m1.position..k] == acc + [c] + m.source[m.position..k];
    } else {
      assert m.source[m.position..k] == [];
      assert acc + [c] + m.source[m.position..k] == acc + [c];
    }
  }

  /** The longest digit prefix of digits followed by a non-digit is those
      digits. */
  lemma {:induction false} DigitPrefixOf(w: string, rest: string)
    requires AllDigits(w) && (rest == [] || !IsDigit(rest[0]))
    ensures DigitPrefix(w + rest) == w
  {
    if w != [] {
      assert (w + rest)[1..] == w[1..] + rest;
      DigitPrefixOf(w[1..], rest);
      assert [w[0]] + w[1..] == w;
    } else {
      assert w + rest == rest;
    }
  }

  /** The width part of a spec: the code and the digits after it up to
      the '.', or just the code when it is the '.' itself. */
  lemma WidthDigits(m: Machine, code: char, w: string)
    requires m.position <= |m.source| && AllDigits(w)
    requires w == [] ==> code == '.'
    requires w != [] ==> code == w[0] && m.position + |w| <= |m.source|
                         && m.source[m.position..m.position + |w| - 1] == w[1..]
                         && m.source[m.position + |w| - 1] == '.'
    ensures DigitRun(m, code, "") == Ok(('.', w, m.(position := m.position + |w|)))
  {
    if w != [] {
      var k := m.position + |w| - 1;
      assert [code] + m.source[m.position..k] == w;
      DigitRunOver(m, code, "", k);
      assert "" + [code] + m.source[m.position..k] == w;
    }
  }

  /** The precision part of a spec: after the '.', the digits p and the
      type t, appended to acc. */
  lemma PrecisionDigits(a: Machine, acc: string, p: string, t: char)
    requires a.position + |p| < |a.source| && AllDigits(p) && !IsDigit(t)
    requires a.source[a.position..a.position + |p| + 1] == p + [t]
    ensures ReadChar(a).Ok?
    ensures var b := ReadChar(a).value;
            DigitRun(b.1, b.0, acc) == Ok((t, acc + p, a.(position := a.position + |p| + 1)))
  {
    var k := a.position + |p|;
    CharOf(a.source, a.position, p + [t], |p|);
    CharOf(a.source, a.position, p + [t], 0);
    var b := ReadChar(a).value;
    assert b.1 == a.(position := a.position + 1);
    if p == [] {
      assert acc + p == acc;
    } else {
      SliceOf(a.source, a.position, p + [t], 1, |p|);
      assert (p + [t])[1..|p|] == p[1..];
      var rest := a.source[b.1.position..k];
      assert rest == p[1..];
      assert b.0 == p[0];
      assert [b.0] + rest == p;
      assert acc + [b.0] + rest == acc + p;
      assert a.source[k] == t;
      assert b.1.(position := k + 1) == a.(position := a.position + |p| + 1);
      DigitRunOver(b.1, b.0, acc, k);
    }
  }

  /** The width digits of a spec `width.precision type` and where the
      precision starts. */
  lemma SpecParts(m: Machine, w: string, p: string, t: char)
    requires m.position <= |m.source|
    requires AllDigits(w) && AllDigits(p) && t in "cdosuxX"
    requires var text := w + "." + p + [t];
             m.position + |text| - 1 <= |m.source| && m.source[m.position..m.position + |text| - 1] == text[1..]
    ensures var text := w + "." + p + [t];
            var a := m.(position := m.position + |w|);
            DigitRun(m, text[0], "") == Ok(('.', w, a))
            && a.position + |p| < |a.source| && a.source[a.position..a.position + |p| + 1] == p + [t]
  {
    SpecWidth(m, w, p, t);
    SpecPrecisionStart(m, w, p, t);
  }

  lemma SpecWidth(m: Machine, w: string, p: string, t: char)
    requires m.position <= |m.source|
    requires AllDigits(w) && AllDigits(p) && t in "cdosuxX"
    requires var text := w + "." + p + [t];
             m.position + |text| - 1 <= |m.source| && m.source[m.position..m.position + |text| - 1] == text[1..]
    ensures var text := w + "." + p + [t];
            DigitRun(m, text[0], "") == Ok(('.', w, m.(position := m.position + |w|)))
  {
    var text := w + "." + p + [t];
    var s := m.source;
    var start := m.position;
    assert |text| == |w| + |p| + 2 && text[|w|] == '.';
    if w != [] {
      assert text[0] == w[0];
      var read := s[start..start + |text| - 1];
      forall i | 0 <= i < |w| - 1
        ensures s[start..start + |w| - 1][i] == w[1..][i]
      {
        assert s[start + i] == read[i] == text[1 + i];
      }
      assert s[start..start + |w| - 1] == w[1..];
      assert s[start + |w| - 1] == text[1..][|w| - 1] == '.';
    } else {
      assert text[0] == '.';
    }
    WidthDigits(m, text[0], w);
  }

  lemma SpecPrecisionStart(m: Machine, w: string, p: string, t: char)
    requires m.position <= |m.source|
    requires var text := w + "." + p + [t];
             m.position + |text| - 1 <= |m.source| && m.source[m.position..m.position + |text| - 1] == text[1..]
    ensures var a := m.(position := m.position + |w|);
            a.position + |p| < |a.source| && a.source[a.position..a.position + |p| + 1] == p + [t]
  {
    var text := w + "." + p + [t];
    var s := m.source;
    var start := m.position;
    assert |text| == |w| + |p| + 2;
    var a := m.(position := start + |w|);
    assert s[a.position..a.position + |p| + 1] == s[start..start + |text| - 1][|w|..];
    assert text[1..][|w|..] == p + [t];
  }

  /** A spec `width.precision type` after a `%`, whose first character
      (a width digit, or the '.') has been read as the code: the intended
      reader returns it whole, and as written the '.' is dropped. */
  lemma FormatSpecWithPrecision(m: Machine, w: string, p: string, t: char)
    requires m.position <= |m.source|
    requires AllDigits(w) && AllDigits(p) && t in "cdosuxX"
    requires var text := w + "." + p + [t];
             m.position + |text| - 1 <= |m.source| && m.source[m.position..m.position + |text| - 1] == text[1..]
    ensures var text := w + "." + p + [t];
            var after := m.(position := m.position + |text| - 1);
            FormatSpec(m, text[0]) == Ok((text, after))
            && FormatSpecAsWritten(m, text[0]) == Ok((w + p + [t], after))
  {
    IntendedSpecKeepsDot(m, w, p, t);
    AsWrittenSpecDropsDot(m, w, p, t);
  }

  lemma IntendedSpecKeepsDot(m: Machine, w: string, p: string, t: char)
    requires m.position <= |m.source|
    requires AllDigits(w) && AllDigits(p) && t in "cdosuxX"
    requires var text := w + "." + p + [t];
             m.position + |text| - 1 <= |m.source| && m.source[m.position..m.position + |text| - 1] == text[1..]
    ensures var text := w + "." + p + [t];
            FormatSpec(m, text[0]) == Ok((text, m.(position := m.position + |text| - 1)))
  {
    SpecParts(m, w, p, t);
    PrecisionDigits(m.(position := m.position + |w|), w + ".", p, t);
  }

  lemma AsWrittenSpecDropsDot(m: Machine, w: string, p: string, t: char)
    requires m.position <= |m.source|
    requires AllDigits(w) && AllDigits(p) && t in "cdosuxX"
    requires var text := w + "." + p + [t];
             m.position + |text| - 1 <= |m.source| && m.source[m.position..m.position + |text| - 1] == text[1..]
    ensures var text := w + "." + p + [t];
            FormatSpecAsWritten(m, text[0]) == Ok((w + p + [t], m.(position := m.position + |text| - 1)))
  {
    SpecParts(m, w, p, t);
    PrecisionDigits(m.(position := m.position + |w|), w, p, t);
  }

  /** The intended spec reads back as its width, precision and type. */
  lemma ParsePrecisionSpec(w: string, p: string, t: char)
    requires AllDigits(w) && AllDigits(p) && p != [] && t in "cdosuxX"
    ensures ParseSpec(w + "." + p + [t]) == Some((w, p, t))
  {
    var spec := w + "." + p + [t];
    assert spec == w + ("." + p + [t]);
    DigitPrefixOf(w, "." + p + [t]);
    assert spec[|w|..] == "." + p + [t];
    assert spec[|w|..][1..] == p + [t];
    DigitPrefixOf(p, [t]);
    assert (p + [t])[|p|..] == [t];
  }

  /** As written, `%5.3d` reads the spec "53d", where the intended reader
      returns "5.3d". */
  lemma FormatSpecAsWrittenDropsDot(m: Machine)
    requires m.position <= |m.source| && m.source[m.position..] == ".3d"
    ensures FormatSpecAsWritten(m, '5').Ok? && FormatSpecAsWritten(m, '5').value.0 == "53d"
    ensures FormatSpec(m, '5').Ok? && FormatSpec(m, '5').value.0 == "5.3d"
  {
    var text := "5" + "." + "3" + ['d'];
    assert text == "5.3d" && text[0] == '5' && text[1..] == ".3d";
    assert m.source[m.position..m.position + 3] == ".3d";
    FormatSpecWithPrecision(m, "5", "3", 'd');
    assert "5" + "3" + ['d'] == "53d";
  }

  /** "5.3d" is a width of 5 with a precision of 3; "53d" is a width of 53
      with none. */
  lemma DottedAndUndottedSpecs()
    ensures ParseSpec("5.3d") == Some(("5", "3", 'd'))
    ensures ParseSpec("53d") == Some(("53", "", 'd'))
  {
    ParsePrecisionSpec("5", "3", 'd');
    assert "5" + "." + "3" + ['d'] == "5.3d";
    DigitPrefixOf("53", "d");
    assert "53" + "d" == "53d";
    assert "53d"[2..] == "d";
  }
}
