/** The recursive-descent calculator (bin/calc/calc.c:15-86). */
module Calculator {

  type i32 = x: int | -0x8000_0000 <= x < 0x8000_0000

  /** A NUL-terminated string: its characters before the terminator. */
  type CText = s: string | forall i | 0 <= i < |s| :: s[i] != '\0'

  /** Two's-complement wrap-around of `int`. */
  function Int(x: int): i32 {
    var w := x % 0x1_0000_0000;
    if w < 0x8000_0000 then w else w - 0x1_0000_0000
  }

  /** C division: truncation toward zero. */
  function Quotient(a: int, b: int): int
    requires b != 0
  {
    if (a >= 0) == (b > 0) then (if a >= 0 then a else -a) / (if b > 0 then b else -b)
    else -((if a >= 0 then a else -a) / (if b > 0 then b else -b))
  }

  function Apply(op: char, a: i32, b: i32): i32 {
    match op
    case '+' => Int(a + b)
    case '-' => Int(a - b)
    case '*' => Int(a * b)
    case _ => if b != 0 then Int(Quotient(a, b)) else a
  }

  predicate Blank(c: char) { c == ' ' || c == '\t' || c == '\n' }
  predicate Digit(c: char) { '0' <= c <= '9' }
  predicate MulOp(c: char) { c == '*' || c == '/' }
  predicate AddOp(c: char) { c == '+' || c == '-' }

  /** The character under the pointer; the terminator at the end. */
  function Cur(s: CText, p: nat): char
    requires p <= |s|
  {
    if p < |s| then s[p] else '\0'
  }

  datatype Parsed = Parsed(value: i32, pos: nat)

  function SkipWs(s: CText, p: nat): (q: nat)
    requires p <= |s|
    ensures p <= q <= |s| && !Blank(Cur(s, q))
    decreases |s| - p
  {
    if Blank(Cur(s, p)) then SkipWs(s, p + 1) else p
  }

  function Digits(s: CText, p: nat, num: i32): (r: Parsed)
    requires p <= |s|
    ensures p <= r.pos <= |s|
    decreases |s| - p
  {
    if Digit(Cur(s, p)) then Digits(s, p + 1, Int(num * 10 + (s[p] as int - '0' as int))) else Parsed(num, p)
  }

  function Factor(s: CText, p: nat): (r: Parsed)
    requires p <= |s|
    ensures p <= r.pos <= |s|
    decreases |s| - p, 0
  {
    var q := SkipWs(s, p);
    if Cur(s, q) == '(' then
      var r := Expression(s, q + 1);
      var t := SkipWs(s, r.pos);
      Parsed(r.value, if Cur(s, t) == ')' then t + 1 else t)
    else
      var d := Digits(s, q, 0);
      Parsed(d.value, SkipWs(s, d.pos))
  }

  function TermLoop(s: CText, acc: Parsed): (r: Parsed)
    requires acc.pos <= |s|
    ensures acc.pos <= r.pos <= |s|
    decreases |s| - acc.pos, 1
  {
    var q := SkipWs(s, acc.pos);
    if !MulOp(Cur(s, q)) then Parsed(acc.value, q)
    else
      var right := Factor(s, q + 1);
      TermLoop(s, Parsed(Apply(s[q], acc.value, right.value), right.pos))
  }

  function Term(s: CText, p: nat): (r: Parsed)
    requires p <= |s|
    ensures p <= r.pos <= |s|
    decreases |s| - p, 2
  {
    TermLoop(s, Factor(s, p))
  }

  function ExpressionLoop(s: CText, acc: Parsed): (r: Parsed)
    requires acc.pos <= |s|
    ensures acc.pos <= r.pos <= |s|
    decreases |s| - acc.pos, 3
  {
    var q := SkipWs(s, acc.pos);
    if !AddOp(Cur(s, q)) then Parsed(acc.value, q)
    else
      var right := Term(s, q + 1);
      ExpressionLoop(s, Parsed(Apply(s[q], acc.value, right.value), right.pos))
  }

  function Expression(s: CText, p: nat): (r: Parsed)
    requires p <= |s|
    ensures p <= r.pos <= |s|
    decreases |s| - p, 4
  {
    ExpressionLoop(s, Term(s, p))
  }

  function Evaluate(s: CText): i32 {
    var r := Expression(s, 0);
    if SkipWs(s, r.pos) == |s| then r.value else 0
  }

  /** The parser with its global pointer, as loops; it never moves past the terminator. */
  class Parser {
    const text: CText
    var ptr: nat

    constructor (text: CText)
      ensures this.text == text && ptr == 0
    {
      this.text, ptr := text, 0;
    }

    method SkipWhitespace()
      requires ptr <= |text|
      modifies this
      ensures ptr == SkipWs(text, old(ptr))
    {
      ghost var goal := SkipWs(text, ptr);
      while Cur(text, ptr) != '\0' && Blank(Cur(text, ptr))
        invariant ptr <= |text| && goal == SkipWs(text, ptr)
        decreases |text| - ptr
      {
        ptr := ptr + 1;
      }
    }

    method ParseFactor() returns (value: i32)
      requires ptr <= |text|
      modifies this
      ensures old(ptr) <= ptr <= |text| && Parsed(value, ptr) == Factor(text, old(ptr))
      decreases |text| - ptr, 0
    {
      SkipWhitespace();
      if Cur(text, ptr) == '(' {
        ptr := ptr + 1;
        value := ParseExpression();
        SkipWhitespace();
        if Cur(text, ptr) == ')' { ptr := ptr + 1; }
        return;
      }
      ghost var goal := Digits(text, ptr, 0);
      var num: i32 := 0;
      while '0' <= Cur(text, ptr) <= '9'
        invariant old(ptr) <= ptr <= |text| && goal == Digits(text, ptr, num)
        decreases |text| - ptr
      {
        num := Int(num * 10 + (Cur(text, ptr) as int - '0' as int));
        ptr := ptr + 1;
      }
      SkipWhitespace();
      return num;
    }

    method ParseTerm() returns (value: i32)
      requires ptr <= |text|
      modifies this
      ensures old(ptr) <= ptr <= |text| && Parsed(value, ptr) == Term(text, old(ptr))
      decreases |text| - ptr, 2
    {
      value := ParseFactor();
      ghost var goal := TermLoop(text, Parsed(value, ptr));
      while true
        invariant old(ptr) <= ptr <= |text| && goal == TermLoop(text, Parsed(value, ptr))
        decreases |text| - ptr
      {
        SkipWhitespace();
        if !MulOp(Cur(text, ptr)) { break; }
        var op := text[ptr];
        ptr := ptr + 1;
        var right := ParseFactor();
        value := Apply(op, value, right);
      }
    }

    method ParseExpression() returns (value: i32)
      requires ptr <= |text|
      modifies this
      ensures old(ptr) <= ptr <= |text| && Parsed(value, ptr) == Expression(text, old(ptr))
      decreases |text| - ptr, 4
    {
      value := ParseTerm();
      ghost var goal := ExpressionLoop(text, Parsed(value, ptr));
      while true
        invariant old(ptr) <= ptr <= |text| && goal == ExpressionLoop(text, Parsed(value, ptr))
        decreases |text| - ptr
      {
        SkipWhitespace();
        if !AddOp(Cur(text, ptr)) { break; }
        var op := text[ptr];
        ptr := ptr + 1;
        var right := ParseTerm();
        value := Apply(op, value, right);
      }
    }

    method Run() returns (value: i32)
      modifies this
      ensures ptr <= |text| && value == Evaluate(text)
    {
      ptr := 0;
      var result := ParseExpression();
      SkipWhitespace();
      if Cur(text, ptr) != '\0' { return 0; }
      return result;
    }
  }
}
