/** `Expansion` and `ExpansionState`: the expansion of a terminfo
    parameterized string by a reader over the source, a stack of
    parameters, the argument slots and the variables, all updated in place.
    Every method is proved to do what the functions of `ExpansionMachine`
    say. */
module Expansions {
  import opened Wrappers
  import opened Primitives
  import opened ExpansionParameters
  import opened ExpansionMachine

  /** A method result together with the state it leaves; an error carries
      no state, since an exception abandons the expansion. */
  function WithState<T>(r: Result<T>, m: Machine): Result<(T, Machine)>
  {
    match r
    case Ok(v) => Ok((v, m))
    case Err(e) => Err(e)
  }

  /** The result of one level of expansion with the state it leaves. */
  function Finished(r: Result<(StatementState, string)>, m: Machine): Result<Outcome>
  {
    match r
    case Ok(v) => Ok(Outcome(v.0, v.1, m))
    case Err(e) => Err(e)
  }

  class ExpansionState {
    const source: string
    var position: nat
    var arguments: seq<Parameter>
    var stack: seq<Parameter>
    var dynamicValues: map<char, Parameter>
    var staticValues: map<char, Parameter>

    ghost function Snapshot(): Machine
      reads this
    {
      Machine(source, position, arguments, stack, dynamicValues, staticValues)
    }

    ghost predicate Valid()
      reads this
    {
      ExpansionMachine.Valid(Snapshot())
    }

    /** `new ExpansionState(sourceString, args)`, once the arguments have
        been checked and converted: reading starts at the beginning, with
        an empty stack and no variable set. */
    constructor (sourceString: string, parameters: seq<Parameter>)
      requires |parameters| <= 9
      ensures Valid() && Snapshot() == Machine(sourceString, 0, parameters, [], map[], map[])
    {
      source := sourceString;
      position := 0;
      arguments := parameters;
      stack := [];
      dynamicValues := map[];
      staticValues := map[];
    }

    /** `ReadCharOrNull()`: the next character, or none at the end. */
    method ReadCharOrNull() returns (c: Option<char>)
      requires Valid()
      modifies this
      ensures Valid()
      ensures c.None? <==> old(position) == |source|
      ensures c.None? ==> Snapshot() == old(Snapshot())
      ensures c.Some? ==> c.value == source[old(position)] && Snapshot() == old(Snapshot()).(position := old(position) + 1)
    {
      if position < |source| {
        c := Some(source[position]);
        position := position + 1;
      } else {
        c := None;
      }
    }

    /** `ReadChar()`: the next character; the end of the string is an
        invalid operation. */
    method ReadChar() returns (r: Result<char>)
      requires Valid()
      modifies this
      ensures Valid()
      ensures ExpansionMachine.ReadChar(old(Snapshot())) == WithState(r, Snapshot())
    {
      var c := ReadCharOrNull();
      if c.None? {
        return Err(InvalidOperation);
      }
      return Ok(c.value);
    }

    method Push(p: Parameter)
      modifies this
      ensures Snapshot() == ExpansionMachine.Push(old(Snapshot()), p)
    {
      stack := stack + [p];
    }

    /** `Pop()`: the top of the stack; an empty stack is an invalid
        operation. */
    method Pop() returns (r: Result<Parameter>)
      modifies this
      ensures ExpansionMachine.Pop(old(Snapshot())) == WithState(r, Snapshot())
      ensures r.Err? ==> Snapshot() == old(Snapshot())
    {
      if stack == [] {
        return Err(InvalidOperation);
      }
      r := Ok(stack[|stack| - 1]);
      stack := stack[..|stack| - 1];
    }

    /** `Arguments[index]`. */
    method GetArgument(index: char) returns (r: Result<Parameter>)
      ensures r == ExpansionMachine.GetArgument(Snapshot(), index)
    {
      if !('1' <= index <= '9') || index as int - '1' as int >= |arguments| {
        return Err(ExpansionBadArgument);
      }
      return Ok(arguments[index as int - '1' as int]);
    }

    /** `Arguments[index] = value`. */
    method SetArgument(index: char, p: Parameter) returns (r: Result<()>)
      modifies this
      ensures ExpansionMachine.SetArgument(old(Snapshot()), index, p) == (if r.Ok? then Ok(Snapshot()) else Err(r.error))
    {
      if !('1' <= index <= '9') || index as int - '1' as int >= |arguments| {
        return Err(ExpansionBadArgument);
      }
      arguments := arguments[index as int - '1' as int := p];
      return Ok(());
    }

    // ------------------------------------------------------------ directives

    /** `%p`: pushes the argument named by the next character. */
    method PushArgument() returns (r: Result<string>)
      requires Valid()
      modifies this
      ensures Valid()
      ensures ExpansionMachine.Directive(old(Snapshot()), 'p') == WithState(r, Snapshot())
    {
      var index := ReadChar();
      if index.Err? {
        return Err(index.error);
      }
      if !('1' <= index.value <= '9') {
        return Err(InvalidOperation);
      }
      var p := GetArgument(index.value);
      if p.Err? {
        return Err(p.error);
      }
      Push(p.value);
      return Ok("");
    }

    /** `%P`: pops into the variable named by the next character. */
    method SetVariable() returns (r: Result<string>)
      requires Valid()
      modifies this
      ensures Valid()
      ensures ExpansionMachine.Directive(old(Snapshot()), 'P') == WithState(r, Snapshot())
    {
      var name := ReadChar();
      if name.Err? {
        return Err(name.error);
      }
      var c := name.value;
      if IsLower(c) {
        var top := Pop();
        if top.Err? {
          return Err(top.error);
        }
        dynamicValues := dynamicValues[c := top.value];
      } else if IsUpper(c) {
        var top := Pop();
        if top.Err? {
          return Err(top.error);
        }
        staticValues := staticValues[c := top.value];
      } else {
        return Err(InvalidOperation);
      }
      return Ok("");
    }

    /** `%g`: pushes the variable named by the next character; one never set
        is a syntax error. */
    method GetVariable() returns (r: Result<string>)
      requires Valid()
      modifies this
      ensures Valid()
      ensures ExpansionMachine.Directive(old(Snapshot()), 'g') == WithState(r, Snapshot())
    {
      var name := ReadChar();
      if name.Err? {
        return Err(name.error);
      }
      var c := name.value;
      if IsLower(c) {
        if c !in dynamicValues {
          return Err(ExpansionSyntaxError);
        }
        Push(dynamicValues[c]);
      } else if IsUpper(c) {
        if c !in staticValues {
          return Err(ExpansionSyntaxError);
        }
        Push(staticValues[c]);
      } else {
        return Err(InvalidOperation);
      }
      return Ok("");
    }

    /** `%'c'`: pushes the character's code; the closing quote must follow. */
    method PushCharacter() returns (r: Result<string>)
      requires Valid()
      modifies this
      ensures Valid()
      ensures ExpansionMachine.Directive(old(Snapshot()), '\'') == WithState(r, Snapshot())
    {
      var c := ReadChar();
      if c.Err? {
        return Err(c.error);
      }
      var quote := ReadChar();
      if quote.Err? {
        return Err(quote.error);
      }
      if quote.value != '\'' {
        return Err(InvalidOperation);
      }
      Push(FromChar(c.value));
      return Ok("");
    }

    /** `%{digits}`: pushes the decimal number between the braces. */
    method PushNumber() returns (r: Result<string>)
      requires Valid()
      modifies this
      ensures Valid()
      ensures ExpansionMachine.Directive(old(Snapshot()), '{') == WithState(r, Snapshot())
    {
      var valueBuffer := "";
      while true
        invariant Valid() && old(position) <= position && AllDigits(valueBuffer)
        invariant Braced(old(Snapshot()), "") == Braced(Snapshot(), valueBuffer)
        decreases |source| - position
      {
        var c := ReadChar();
        if c.Err? {
          return Err(c.error);
        }
        if c.value == '}' {
          break;
        }
        if !IsDigit(c.value) {
          return Err(InvalidOperation);
        }
        valueBuffer := valueBuffer + [c.value];
      }
      var value := ParseInt32(valueBuffer);
      if value.None? {
        return Err(InvalidOperation);
      }
      Push(Number(value.value));
      return Ok("");
    }

    /** `%i`: adds one to the first argument, and to the second when there
        is one. */
    method IncrementArguments() returns (r: Result<string>)
      requires Valid()
      modifies this
      ensures Valid()
      ensures ExpansionMachine.Directive(old(Snapshot()), 'i') == WithState(r, Snapshot())
    {
      var first := GetArgument('1');
      if first.Err? {
        return Err(first.error);
      }
      var x := AsNumber(first.value);
      if x.Err? {
        return Err(x.error);
      }
      var _ := SetArgument('1', Number(Wrap32(x.value as int + 1)));
      if |arguments| >= 2 {
        var y := AsNumber(arguments[1]);
        if y.Err? {
          return Err(y.error);
        }
        var _ := SetArgument('2', Number(Wrap32(y.value as int + 1)));
      }
      return Ok("");
    }

    /** The digit loop of `ReadFormatSpec`: while c is a digit, appends it
        to the buffer and reads the next character. */
    method ReadDigits(first: char, buffer: string) returns (r: Result<(char, string)>)
      requires Valid()
      modifies this
      ensures Valid()
      ensures DigitRun(old(Snapshot()), first, buffer) == (if r.Ok? then Ok((r.value.0, r.value.1, Snapshot())) else Err(r.error))
    {
      var valueBuffer := buffer;
      var c := first;
      while true
        invariant Valid() && old(position) <= position
        invariant DigitRun(old(Snapshot()), first, buffer) == DigitRun(Snapshot(), c, valueBuffer)
        decreases |source| - position
      {
        if !IsDigit(c) {
          break;
        }
        valueBuffer := valueBuffer + [c];
        var next := ReadChar();
        if next.Err? {
          return Err(next.error);
        }
        c := next.value;
      }
      return Ok((c, valueBuffer));
    }

    /** `ReadFormatSpec(state, code)` as written: the '.' between width and
        precision is read and dropped. */
    method ReadFormatSpecAsWritten(code: char) returns (r: Result<string>)
      requires Valid()
      modifies this
      ensures Valid()
      ensures FormatSpecAsWritten(old(Snapshot()), code) == WithState(r, Snapshot())
    {
      var width := ReadDigits(code, "");
      if width.Err? {
        return Err(width.error);
      }
      var c := width.value.0;
      var valueBuffer := width.value.1;
      if c == '.' {
        var next := ReadChar();
        if next.Err? {
          return Err(next.error);
        }
        var precision := ReadDigits(next.value, valueBuffer);
        if precision.Err? {
          return Err(precision.error);
        }
        c := precision.value.0;
        valueBuffer := precision.value.1;
      }
      if c !in "cdosuxX" {
        return Err(InvalidOperation);
      }
      return Ok(valueBuffer + [c]);
    }

    /** `ReadFormatSpec(state, code)` as intended: the '.' is kept, so that
        the spec parses as width, precision and type. */
    method ReadFormatSpec(code: char) returns (r: Result<string>)
      requires Valid()
      modifies this
      ensures Valid()
      ensures FormatSpec(old(Snapshot()), code) == WithState(r, Snapshot())
    {
      var width := ReadDigits(code, "");
      if width.Err? {
        return Err(width.error);
      }
      var c := width.value.0;
      var valueBuffer := width.value.1;
      if c == '.' {
        var next := ReadChar();
        if next.Err? {
          return Err(next.error);
        }
        var precision := ReadDigits(next.value, valueBuffer + ".");
        if precision.Err? {
          return Err(precision.error);
        }
        c := precision.value.0;
        valueBuffer := precision.value.1;
      }
      if c !in "cdosuxX" {
        return Err(InvalidOperation);
      }
      return Ok(valueBuffer + [c]);
    }

    /** `%[width][.precision]type`: pops a value and writes it formatted. */
    method FormatTop(code: char) returns (r: Result<string>)
      requires Valid()
      modifies this
      ensures Valid()
      ensures FormatDirective(old(Snapshot()), code) == WithState(r, Snapshot())
    {
      var spec := ReadFormatSpec(code);
      if spec.Err? {
        return Err(spec.error);
      }
      var top := Pop();
      if top.Err? {
        return Err(top.error);
      }
      r := Format(top.value, spec.value);
    }

    /** `BinaryOperation(state, operator)`: pops p2, then p1, and pushes
        `p1 op p2`. */
    method BinaryOperation(op: char) returns (r: Result<string>)
      requires Valid() && op in "+-*/m&|^=<>AO"
      modifies this
      ensures Valid()
      ensures BinaryDirective(old(Snapshot()), op) == WithState(r, Snapshot())
    {
      var p2 := Pop();
      if p2.Err? {
        return Err(p2.error);
      }
      var p1 := Pop();
      if p1.Err? {
        return Err(p1.error);
      }
      var v := Binary(op, p1.value, p2.value);
      if v.Err? {
        return Err(v.error);
      }
      Push(Number(v.value));
      return Ok("");
    }

    /** `UnaryOperation(state, operator)`: pops p and pushes `op p`. */
    method UnaryOperation(op: char) returns (r: Result<string>)
      requires Valid() && op in "~!l"
      modifies this
      ensures Valid()
      ensures UnaryDirective(old(Snapshot()), op) == WithState(r, Snapshot())
    {
      var p := Pop();
      if p.Err? {
        return Err(p.error);
      }
      var v := Unary(op, p.value);
      if v.Err? {
        return Err(v.error);
      }
      Push(Number(v.value));
      return Ok("");
    }

    /** The `switch (code)` of `ExpandArguments(state)` for every code but
        `?`, `t`, `e` and `;`. */
    method Directive(code: char) returns (r: Result<string>)
      requires Valid()
      modifies this
      ensures Valid()
      ensures ExpansionMachine.Directive(old(Snapshot()), code) == WithState(r, Snapshot())
    {
      if code == '%' {
        r := Ok("%");
      } else if code == 'p' {
        r := PushArgument();
      } else if code == 'P' {
        r := SetVariable();
      } else if code == 'g' {
        r := GetVariable();
      } else if code == '\'' {
        r := PushCharacter();
      } else if code == '{' {
        r := PushNumber();
      } else if code == 'i' {
        r := IncrementArguments();
      } else if code in "cdosuxX.0123456789" {
        r := FormatTop(code);
      } else if code in "+-*/m&|^=<>AO" {
        r := BinaryOperation(code);
      } else if code in "~!l" {
        r := UnaryOperation(code);
      } else {
        r := Err(InvalidOperation);
      }
    }

    // ------------------------------------------------------------- expansion

    /** `ExpandArguments(state)`: copies text, runs directives and expands
        conditionals until the end of the string or a `%t`, `%e` or `%;`. */
    method Expand() returns (r: Result<(StatementState, string)>)
      requires Valid()
      modifies this
      ensures Valid()
      ensures ExpandFrom(old(Snapshot()), "") == Finished(r, Snapshot())
      decreases |source| - position, 0
    {
      var output := "";
      while true
        invariant Valid() && old(position) <= position
        invariant ExpandFrom(old(Snapshot()), "") == ExpandFrom(Snapshot(), output)
        decreases |source| - position
      {
        var found;
        output, found := CopyText(output);
        if !found {
          return Ok((FoundEndOfString, output));
        }
        ghost var mark := Snapshot().(position := position - 1);
        var code := ReadChar();
        if code.Err? {
          ExpandAtLastPercent(mark, output);
          return Err(code.error);
        }
        if code.value == 't' {
          ExpandAtStop(mark, output);
          return Ok((FoundThen, output));
        } else if code.value == 'e' {
          ExpandAtStop(mark, output);
          return Ok((FoundElse, output));
        } else if code.value == ';' {
          ExpandAtStop(mark, output);
          return Ok((FoundEndIf, output));
        } else if code.value == '?' {
          ExpandAtConditional(mark, output);
          var text := ProcessIf();
          if text.Err? {
            return Err(text.error);
          }
          output := output + text.value;
        } else {
          ExpandAtDirective(mark, output);
          var text := Directive(code.value);
          if text.Err? {
            return Err(text.error);
          }
          output := output + text.value;
        }
      }
    }

    /** The copying loop of `ExpandArguments`: the characters up to the
        next `%`, which is read too, or up to the end of the string are
        appended to the output; found says whether a `%` was read. */
    method CopyText(output0: string) returns (output: string, found: bool)
      requires Valid()
      modifies this
      ensures Valid() && old(position) <= position
      ensures !found ==> ExpandFrom(old(Snapshot()), output0) == Ok(Outcome(FoundEndOfString, output, Snapshot()))
      ensures found ==> (0 < position && source[position - 1] == '%'
                         && ExpandFrom(old(Snapshot()), output0) == ExpandFrom(Snapshot().(position := position - 1), output))
    {
      output := output0;
      while true
        invariant Valid() && old(position) <= position
        invariant ExpandFrom(old(Snapshot()), output0) == ExpandFrom(Snapshot(), output)
        decreases |source| - position
      {
        var c := ReadCharOrNull();
        if c.None? {
          return output, false;
        }
        if c.value == '%' {
          return output, true;
        }
        output := output + [c.value];
      }
    }

    /** `ProcessIfStatement(state)`: expands conditions and branches in
        turn up to the `%;`, keeping the first condition's output and the
        output of the first branch whose condition holds, or else of the
        final else branch. */
    method ProcessIf() returns (r: Result<string>)
      requires Valid()
      modifies this
      ensures Valid()
      ensures IfFrom(old(Snapshot()), "", None, true) == WithState(r, Snapshot())
      decreases |source| - position, 1
    {
      var output := "";
      var outputOfThen: Option<string> := None;
      var isFirst := true;
      while true
        invariant Valid() && old(position) <= position
        invariant IfFrom(old(Snapshot()), "", None, true) == IfFrom(Snapshot(), output, outputOfThen, isFirst)
        decreases |source| - position
      {
        ghost var mark := Snapshot();
        ghost var out0, then0, first0 := output, outputOfThen, isFirst;
        var condition := Expand();
        if condition.Err? {
          return Err(condition.error);
        }
        if isFirst {
          output := output + condition.value.1;
        }
        if condition.value.0 == FoundEndIf {
          if isFirst {
            return Err(InvalidOperation);
          }
          if outputOfThen.None? {
            outputOfThen := Some(condition.value.1);
          }
          assert IfFrom(mark, out0, then0, first0) == Ok((output + Chosen(outputOfThen), Snapshot()));
          break;
        }
        if condition.value.0 != FoundThen {
          return Err(InvalidOperation);
        }
        var top := Pop();
        if top.Err? {
          return Err(top.error);
        }
        var holds := AsBool(top.value);
        if holds.Err? {
          return Err(holds.error);
        }
        var branch := Expand();
        if branch.Err? {
          return Err(branch.error);
        }
        if holds.value && outputOfThen.None? {
          outputOfThen := Some(branch.value.1);
        }
        if branch.value.0 == FoundEndIf {
          assert IfFrom(mark, out0, then0, first0) == Ok((output + Chosen(outputOfThen), Snapshot()));
          break;
        }
        if branch.value.0 != FoundElse {
          return Err(InvalidOperation);
        }
        isFirst := false;
      }
      output := output + if outputOfThen.Some? then outputOfThen.value else "";
      return Ok(output);
    }
  }

  /** `Expansion.ExpandArguments(value, args)`: builds the state, expands
      the whole string, requires it to end at the end of the string, and
      turns every failure into an `ArgumentException` or an
      `InvalidOperationException`. */
  method ExpandArguments(value: string, args: seq<ArgumentValue>) returns (r: Result<string>)
    ensures r == ExpansionMachine.ExpandArguments(value, args)
  {
    if |args| > 9 {
      return Err(Translate(ExpansionBadArgument));
    }
    var parameters := Converted(args);
    if parameters.Err? {
      return Err(Translate(parameters.error));
    }
    var state := new ExpansionState(value, parameters.value);
    var result := state.Expand();
    if result.Err? {
      return Err(Translate(result.error));
    }
    if result.value.0 != FoundEndOfString {
      return Err(InvalidOperation);
    }
    return Ok(result.value.1);
  }
}
