/**
 * TermControl::get_string of ui.rs: expands a terminfo capability string,
 * supporting only the `%pN` (push parameter N) and `%d` (pop and print an
 * integer) escapes of the terminfo parameterised-string language.
 */
module TermInfo {
  import opened Wrappers
  import opened Unicode

  /** A parameter of a capability string. */
  datatype TermStack = Str(s: string) | Int(i: int) | Bool(b: bool)

  /** The capability strings of the terminal, by name. */
  datatype TermControl = TermControl(strings: map<string, string>)

  /**
   * The state of the walk over a capability string: inside an escape after
   * `%`, the pending escape letters, the parameter stack and the output.
   */
  datatype Walk = Walk(escaped: bool, escape: string, stack: seq<TermStack>, result: string)

  const Begin: Walk := Walk(false, "", [], "")

  // ---------------------------------------------------------------------
  // Decimal printing (`format!("{}", n)` on an integer)
  // ---------------------------------------------------------------------

  function DigitChar(d: nat): char
    requires d < 10
  {
    ('0' as int + d) as char
  }

  /** The decimal digits of a natural number, most significant first, without leading zeros. */
  function Digits(n: nat): (s: string)
    ensures s != []
    ensures forall i :: 0 <= i < |s| ==> IsNumeric(s[i])
    decreases n
  {
    if n < 10 then [DigitChar(n)] else Digits(n / 10) + [DigitChar(n % 10)]
  }

  /** An integer in decimal, with a leading '-' when negative. */
  function Decimal(n: int): string {
    if n < 0 then "-" + Digits(-n) else Digits(n)
  }

  /** The value of a string of decimal digits. */
  function DigitsValue(s: string): nat
    requires forall i :: 0 <= i < |s| ==> IsNumeric(s[i])
  {
    if s == [] then 0 else 10 * DigitsValue(s[..|s| - 1]) + ToDigit(s[|s| - 1]).value
  }

  /** Reads back what Decimal prints. */
  function DecimalValue(s: string): int
    requires s != [] && s[0] == '-' ==> forall i :: 1 <= i < |s| ==> IsNumeric(s[i])
    requires s == [] || s[0] != '-' ==> forall i :: 0 <= i < |s| ==> IsNumeric(s[i])
  {
    if s != [] && s[0] == '-' then -(DigitsValue(s[1..]) as int) else DigitsValue(s)
  }

  lemma {:induction false} DigitsRoundTrip(n: nat)
    ensures DigitsValue(Digits(n)) == n
    decreases n
  {
    if n >= 10 {
      DigitsRoundTrip(n / 10);
      var s := Digits(n);
      assert s[..|s| - 1] == Digits(n / 10);
    }
  }

  /** Printing an integer in decimal loses nothing: reading it back gives the integer. */
  lemma DecimalRoundTrip(n: int)
    ensures Decimal(n) != []
    ensures Decimal(n)[0] == '-' <==> n < 0
    ensures DecimalValue(Decimal(n)) == n
  {
    if n < 0 {
      DigitsRoundTrip(-n);
      assert Decimal(n)[1..] == Digits(-n);
    } else {
      DigitsRoundTrip(n);
    }
  }

  // ---------------------------------------------------------------------
  // The walk
  // ---------------------------------------------------------------------

  /** What one character of the capability string does. */
  function Step(w: Walk, c: char, params: seq<TermStack>): Walk {
    if !w.escaped then
      if c == '%' then w.(escaped := true) else w.(result := w.result + [c])
    else if w.escape == [] then
      if c == 'd' then
        if w.stack == [] then w.(escaped := false)
        else
          var rest := w.stack[..|w.stack| - 1];
          match w.stack[|w.stack| - 1]
          case Int(v) => w.(stack := rest, result := w.result + Decimal(v), escaped := false)
          case _ => w.(stack := rest, escaped := false)
      else if c == 'p' then w.(escape := w.escape + ['p'])
      else w.(escaped := false)
    else if w.escape == "p" then
      var pushed :=
        match ToDigit(c)
        case Some(idx) => if idx != 0 && idx - 1 < |params| then w.stack + [params[idx - 1]] else w.stack
        case None => w.stack;
      w.(stack := pushed, escape := [], escaped := false)
    else w.(escape := [], escaped := false)
  }

  /** The walk over `s` from state `w`. */
  function Run(w: Walk, s: string, params: seq<TermStack>): Walk {
    if s == [] then w else Step(Run(w, s[..|s| - 1], params), s[|s| - 1], params)
  }

  /** The expansion of a capability string. */
  function Expand(template: string, params: seq<TermStack>): string {
    Run(Begin, template, params).result
  }

  /** What get_string returns. */
  function Lookup(control: TermControl, name: string, params: seq<TermStack>): Option<string> {
    if name in control.strings then Some(Expand(control.strings[name], params)) else None
  }

  // ---------------------------------------------------------------------
  // get_string
  // ---------------------------------------------------------------------

  method GetString(control: TermControl, name: string, params: seq<TermStack>) returns (r: Option<string>)
    ensures r.None? <==> name !in control.strings
    ensures r == Lookup(control, name, params)
  {
    if name !in control.strings {
      return None;
    }
    var sequence := control.strings[name];
    var escaped := false;
    var stack: seq<TermStack> := [];
    var result := "";
    var escape := "";
    for i := 0 to |sequence|
      invariant Walk(escaped, escape, stack, result) == Run(Begin, sequence[..i], params)
    {
      var c := sequence[i];
      assert sequence[..i + 1][..i] == sequence[..i];
      if !escaped {
        if c == '%' {
          escaped := true;
        } else {
          result := result + [c];
        }
      } else if escape == [] {
        if c == 'd' {
          if stack != [] {
            var top := stack[|stack| - 1];
            stack := stack[..|stack| - 1];
            match top {
              case Int(v) =>
                result := result + Decimal(v);
              case _ =>
                // numeric print on a non-numeric parameter
            }
          }
          escaped := false;
        } else if c == 'p' {
          escape := escape + ['p'];
        } else {
          // unknown escape character
          escaped := false;
        }
      } else {
        if escape == "p" {
          match ToDigit(c) {
            case Some(idx) =>
              if idx != 0 && idx - 1 < |params| {
                stack := stack + [params[idx - 1]];
              }
            case None =>
          }
          escape := [];
          escaped := false;
        } else {
          // unknown escape sequence
          escape := [];
          escaped := false;
        }
      }
    }
    assert sequence[..|sequence|] == sequence;
    return Some(result);
  }

  // ---------------------------------------------------------------------
  // Properties
  // ---------------------------------------------------------------------

  /** Walking `a` then `b` is walking `a + b`. */
  lemma {:induction false} RunAppend(w: Walk, a: string, b: string, params: seq<TermStack>)
    ensures Run(w, a + b, params) == Run(Run(w, a, params), b, params)
    decreases |b|
  {
    if b == [] {
      assert a + b == a;
    } else {
      var ab := a + b;
      var init := b[..|b| - 1];
      assert ab[..|ab| - 1] == a + init;
      assert ab[|ab| - 1] == b[|b| - 1];
      RunAppend(w, a, init, params);
      calc {
        Run(w, ab, params);
        Step(Run(w, a + init, params), b[|b| - 1], params);
        Step(Run(Run(w, a, params), init, params), b[|b| - 1], params);
        Run(Run(w, a, params), b, params);
      }
    }
  }

  /** A pending escape is only ever the single letter 'p', and only inside an escape. */
  lemma {:induction false} EscapeShape(s: string, params: seq<TermStack>)
    ensures var w := Run(Begin, s, params);
      (w.escape == [] || w.escape == "p") && (w.escape != [] ==> w.escaped)
  {
    if s != [] {
      EscapeShape(s[..|s| - 1], params);
    }
  }

  /** Characters outside escapes are copied in order: a string without '%' expands to itself. */
  lemma {:induction false} LiteralUnchanged(s: string, params: seq<TermStack>)
    requires forall i :: 0 <= i < |s| ==> s[i] != '%'
    ensures Run(Begin, s, params) == Walk(false, "", [], s)
    ensures Expand(s, params) == s
  {
    if s != [] {
      LiteralUnchanged(s[..|s| - 1], params);
      assert s[..|s| - 1] + [s[|s| - 1]] == s;
    }
  }

  /** A walk between escapes, ready for literal text. */
  predicate Literal(w: Walk) {
    !w.escaped && w.escape == []
  }

  lemma RunTwo(w: Walk, a: char, b: char, params: seq<TermStack>)
    ensures Run(w, [a, b], params) == Step(Step(w, a, params), b, params)
  {
    assert [a][..0] == [];
    assert Run(w, [a], params) == Step(w, a, params);
    assert [a, b][..1] == [a];
  }

  lemma RunThree(w: Walk, a: char, b: char, c: char, params: seq<TermStack>)
    ensures Run(w, [a, b, c], params) == Step(Step(Step(w, a, params), b, params), c, params)
  {
    assert [a, b, c][..2] == [a, b];
    RunTwo(w, a, b, params);
  }

  /** `%pN` with 1 <= N <= |params| pushes the N-th parameter. */
  lemma PushParam(w: Walk, n: nat, params: seq<TermStack>)
    requires Literal(w) && 1 <= n <= |params| && n < 10
    ensures Run(w, ['%', 'p', DigitChar(n)], params) == w.(stack := w.stack + [params[n - 1]])
  {
    RunThree(w, '%', 'p', DigitChar(n), params);
  }

  /** `%d` with an integer on top pops it and appends it in decimal. */
  lemma PrintInt(w: Walk, v: int, params: seq<TermStack>)
    requires Literal(w) && w.stack != [] && w.stack[|w.stack| - 1] == Int(v)
    ensures Run(w, "%d", params)
      == w.(stack := w.stack[..|w.stack| - 1], result := w.result + Decimal(v))
  {
    RunTwo(w, '%', 'd', params);
  }

  /** `%pN%d` with an integer N-th parameter appends it in decimal and leaves the stack as it was. */
  lemma PushPrint(w: Walk, n: nat, v: int, params: seq<TermStack>)
    requires Literal(w) && 1 <= n <= |params| && n < 10 && params[n - 1] == Int(v)
    ensures Run(w, ['%', 'p', DigitChar(n), '%', 'd'], params) == w.(result := w.result + Decimal(v))
  {
    var pushed := w.(stack := w.stack + [params[n - 1]]);
    PushParam(w, n, params);
    PrintInt(pushed, v, params);
    RunAppend(w, ['%', 'p', DigitChar(n)], "%d", params);
    assert ['%', 'p', DigitChar(n)] + "%d" == ['%', 'p', DigitChar(n), '%', 'd'];
    assert pushed.stack[..|pushed.stack| - 1] == w.stack;
  }

  /**
   * Malformed `%d`: on an empty stack it prints nothing; on a non-integer top
   * it pops the top and prints nothing. Either way the walk is literal again.
   */
  lemma PrintMalformed(w: Walk, params: seq<TermStack>)
    requires Literal(w) && (w.stack == [] || !w.stack[|w.stack| - 1].Int?)
    ensures Run(w, "%d", params).result == w.result
    ensures Literal(Run(w, "%d", params))
    ensures Run(w, "%d", params).stack == if w.stack == [] then [] else w.stack[..|w.stack| - 1]
  {
    RunTwo(w, '%', 'd', params);
  }

  /** An unknown escape character is consumed, printing nothing. */
  lemma UnknownEscape(w: Walk, c: char, params: seq<TermStack>)
    requires Literal(w) && c != 'd' && c != 'p'
    ensures Run(w, ['%', c], params) == w
  {
    RunTwo(w, '%', c, params);
  }

  /**
   * `%p` followed by something that is not the number of a parameter (not a
   * digit, 0, or beyond the parameters) is consumed, changing nothing.
   */
  lemma BadParam(w: Walk, c: char, params: seq<TermStack>)
    requires Literal(w)
    requires ToDigit(c).None? || ToDigit(c).value == 0 || ToDigit(c).value > |params|
    ensures Run(w, ['%', 'p', c], params) == w
  {
    RunThree(w, '%', 'p', c, params);
  }

  /** Literal text after a finished escape is copied to the output. */
  lemma {:induction false} LiteralCopies(w: Walk, s: string, params: seq<TermStack>)
    requires Literal(w) && forall i :: 0 <= i < |s| ==> s[i] != '%'
    ensures Run(w, s, params) == w.(result := w.result + s)
  {
    if s != [] {
      var init := s[..|s| - 1];
      LiteralCopies(w, init, params);
      assert w.result + init + [s[|s| - 1]] == w.result + s;
    }
  }

  /**
   * A template of literal text, `%pN%d` and literal text, with an integer
   * N-th parameter, expands to the text with that parameter in decimal.
   */
  lemma ExpandPushPrint(before: string, n: nat, v: int, after: string, params: seq<TermStack>)
    requires forall i :: 0 <= i < |before| ==> before[i] != '%'
    requires forall i :: 0 <= i < |after| ==> after[i] != '%'
    requires 1 <= n <= |params| && n < 10 && params[n - 1] == Int(v)
    ensures Expand(before + ['%', 'p', DigitChar(n), '%', 'd'] + after, params) == before + Decimal(v) + after
  {
    var escapes := ['%', 'p', DigitChar(n), '%', 'd'];
    LiteralUnchanged(before, params);
    var w := Run(Begin, before, params);
    PushPrint(w, n, v, params);
    RunAppend(Begin, before, escapes, params);
    var x := Run(Begin, before + escapes, params);
    LiteralCopies(x, after, params);
    RunAppend(Begin, before + escapes, after, params);
  }

  lemma DecimalTen()
    ensures Decimal(10) == "10"
  {
    assert Digits(10) == Digits(1) + [DigitChar(0)];
  }

  /** The cursor-up capability moves up MATCH_NUMBER lines: `\E[%p1%dA` with 10 gives `\E[10A`. */
  lemma CursorUpExample()
    ensures Lookup(TermControl(map["cuu" := "\U{1b}[%p1%dA"]), "cuu", [Int(10)]) == Some("\U{1b}[10A")
  {
    ExpandPushPrint("\U{1b}[", 1, 10, "A", [Int(10)]);
    DecimalTen();
    assert "\U{1b}[" + ['%', 'p', DigitChar(1), '%', 'd'] + "A" == "\U{1b}[%p1%dA";
    assert "\U{1b}[" + "10" + "A" == "\U{1b}[10A";
  }
}
