/** What the calculator's answers mean in mathematical integers, told from the text alone
    (bin/calc/calc.c:15-86). */
module CalcLaws {
  import opened Calculator
  import opened CalcRoundTrip

  const WORD := 0x1_0000_0000

  /** Equal modulo 2^32. */
  predicate Congruent(x: int, y: int) { (x - y) % WORD == 0 }

  predicate InRange(x: int) { -0x8000_0000 <= x <= 0x7FFF_FFFF }

  lemma IntCongruent(x: int)
    ensures Congruent(Int(x), x) && InRange(Int(x)) && (InRange(x) ==> Int(x) == x)
  {
    var w := x % WORD;
    assert x == WORD * (x / WORD) + w;
    Times(-(x / WORD));
    Times(-(x / WORD) - 1);
  }

  lemma Times(k: int)
    ensures WORD * k % WORD == 0
  {
  }

  /** Two numbers in range that are equal modulo 2^32 are equal. */
  lemma CongruentInRange(x: int, y: int)
    requires Congruent(x, y) && InRange(x) && InRange(y)
    ensures x == y
  {
  }

  function Magnitude(x: int): nat { if x < 0 then -x else x }

  /** A rest smaller than b, with the sign of a. */
  predicate Rest(a: int, b: int, r: int) { Magnitude(r) < Magnitude(b) && (r == 0 || (r > 0) == (a > 0)) }

  /** `q` is a divided by b, truncated toward zero. */
  predicate Truncated(a: int, b: int, q: int) { Rest(a, b, a - q * b) }

  /** The answer `x` to `a op b`. */
  ghost predicate Answers(op: char, a: int, b: int, x: int) {
    && InRange(x)
    && (op == '+' ==> Congruent(x, a + b))
    && (op == '-' ==> Congruent(x, a - b))
    && (op == '*' ==> Congruent(x, a * b))
    && (op == '/' && b == 0 ==> x == a)
    && (op == '/' && b != 0 ==> if a == -0x8000_0000 && b == -1 then x == a else Truncated(a, b, x))
  }

  lemma QuotientTruncates(a: int, b: int)
    requires b != 0
    ensures Truncated(a, b, Quotient(a, b))
  {
    hide Rest;
    var k := QuotientIs(a, b);
    Product(a, b, k);
    RestOf(a, b, Magnitude(b) * k);
  }

  lemma QuotientIs(a: int, b: int) returns (k: nat)
    requires b != 0
    ensures Quotient(a, b) == if (a >= 0) == (b > 0) then k else 0 - k
    ensures var n := Magnitude(b); 0 <= n * k <= Magnitude(a) < n * k + n
  {
    hide Quotient, Magnitude;
    NonZero(b);
    QuotientSign(a, b);
    k := Over(Magnitude(a), Magnitude(b));
  }

  lemma NonZero(b: int)
    requires b != 0
    ensures Magnitude(b) > 0
  {
  }

  function Over(m: nat, n: nat): (k: nat)
    requires n > 0
    ensures 0 <= n * k <= m < n * k + n
  {
    m / n
  }

  lemma QuotientSign(a: int, b: int)
    requires b != 0
    ensures var k := Over(Magnitude(a), Magnitude(b)); Quotient(a, b) == if (a >= 0) == (b > 0) then k else 0 - k
  {
  }

  lemma Product(a: int, b: int, k: int)
    requires b != 0
    ensures var n := Magnitude(b); (if (a >= 0) == (b > 0) then k else -k) * b == if a >= 0 then n * k else -(n * k)
  {
    if b > 0 { Signs(b, k); } else { Signs(-b, k); }
  }

  lemma Signs(n: int, k: int)
    ensures k * n == n * k && k * -n == -(n * k) && -k * n == -(n * k) && -k * -n == n * k
  {
  }

  lemma RestOf(a: int, b: int, nk: int)
    requires 0 <= nk <= Magnitude(a) < nk + Magnitude(b)
    ensures Rest(a, b, a - (if a >= 0 then nk else -nk))
  {
  }

  lemma Shrinks(a: i32, b: i32)
    requires b != 0
    ensures var q := Quotient(a, b); -0x8000_0000 <= q <= 0x8000_0000
    ensures Quotient(a, b) == 0x8000_0000 <==> a == -0x8000_0000 && b == -1
  {
    var m, n := Magnitude(a), Magnitude(b);
    Divided(m, n);
  }

  lemma Divided(m: nat, n: nat)
    requires n > 0
    ensures m / n <= m && (m > 0 && n > 1 ==> m / n < m) && (n == 1 ==> m / n == m)
  {
    var k := m / n;
    assert m == n * k + m % n;
    if k > 0 { Grows(n, k); }
  }

  lemma Grows(n: nat, k: nat)
    requires n > 0 && k > 0
    ensures n * k >= k && (n > 1 ==> n * k > k)
  {
  }

  /** Main result for one operation. */
  lemma ApplyAnswers(op: char, a: i32, b: i32)
    ensures Answers(op, a, b, Apply(op, a, b))
  {
    hide Int, Quotient, Congruent, Truncated;
    IntCongruent(a + b);
    IntCongruent(a - b);
    IntCongruent(a * b);
    if b != 0 {
      QuotientTruncates(a, b);
      Shrinks(a, b);
      IntCongruent(Quotient(a, b));
      MinOverflow();
    }
  }

  lemma MinOverflow()
    ensures Int(0x8000_0000) == -0x8000_0000
  {
  }

  /** The operators of the two levels. */
  lemma Operators(c: char)
    ensures AddOp(c) <==> c == '+' || c == '-'
    ensures MulOp(c) <==> c == '*' || c == '/'
  {
  }

  // ---- Texts ----

  predicate Spaces(t: string) { forall i | 0 <= i < |t| :: t[i] == ' ' || t[i] == '\t' || t[i] == '\n' }

  lemma SpacesBlank(t: string)
    requires Spaces(t)
    ensures Blanks(t)
  {
  }

  lemma TextOf(e: Src)
    requires Shaped(e, 0)
    ensures '\0' !in Text(e) && Evaluate(Text(e)) == Value(Meaning(e))
  {
    TextHasNoNul(e, 0);
    assert Text(e) + "" == Text(e);
    EvaluatePrinted(e, "", Text(e));
  }

  /** Lower levels are expressions too. */
  lemma ShapedExpression(e: Src, level: nat)
    requires Shaped(e, level)
    ensures Shaped(e, 0)
  {
  }

  /** Main result: the text of `l op r`, blanks before the operator included, evaluates to what the
      operation answers for the values of the two texts; `+` and `-` take an expression on the left and
      a term on the right, `*` and `/` a term and a factor. */
  lemma EvaluateBinary(l: Src, pre: string, op: char, r: Src)
    requires Spaces(pre)
    requires op == '+' || op == '-' || op == '*' || op == '/'
    requires if op == '+' || op == '-' then Shaped(l, 0) && Shaped(r, 1) else Shaped(l, 1) && Shaped(r, 2)
    ensures '\0' !in Text(l) && '\0' !in Text(r) && '\0' !in Text(l) + pre + [op] + Text(r)
    ensures Answers(op, Evaluate(Text(l)), Evaluate(Text(r)), Evaluate(Text(l) + pre + [op] + Text(r)))
  {
    hide Answers, Evaluate, Value, Meaning;
    SpacesBlank(pre);
    ShapedExpression(l, if AddOp(op) then 0 else 1);
    ShapedExpression(r, if AddOp(op) then 1 else 2);
    var e := Binary(l, pre, op, r);
    assert Shaped(e, 0);
    TextOf(l);
    TextOf(r);
    TextOf(e);
    assert Text(e) == Text(l) + pre + [op] + Text(r);
    ValueBinary(l, pre, op, r);
    ApplyAnswers(op, Value(Meaning(l)), Value(Meaning(r)));
  }

  lemma ValueBinary(l: Src, pre: string, op: char, r: Src)
    ensures Value(Meaning(Binary(l, pre, op, r))) == Apply(op, Value(Meaning(l)), Value(Meaning(r)))
  {
    hide Apply;
  }

  /** Parentheses change nothing. */
  lemma EvaluateParen(pre: string, e: Src, post: string)
    requires Spaces(pre) && Spaces(post) && Shaped(e, 0)
    ensures '\0' !in Text(e) && '\0' !in pre + "(" + Text(e) + post + ")"
    ensures Evaluate(pre + "(" + Text(e) + post + ")") == Evaluate(Text(e))
  {
    hide Evaluate;
    SpacesBlank(pre);
    SpacesBlank(post);
    TextOf(e);
    TextOf(Paren(pre, e, post));
    assert Text(Paren(pre, e, post)) == pre + "(" + Text(e) + post + ")";
  }

  /** A numeral evaluates to its decimal value modulo 2^32. */
  lemma EvaluateNumeral(n: nat)
    ensures '\0' !in Decimal(n) && Congruent(Evaluate(Decimal(n)), n) && InRange(Evaluate(Decimal(n)))
  {
    hide Evaluate, Decimal, Int, Congruent;
    TextOf(Lit("", Decimal(n)));
    assert Text(Lit("", Decimal(n))) == Decimal(n);
    DecimalNumeral(n);
    IntCongruent(n);
  }

  /** Text that goes on after a complete expression with anything but a blank, a digit or an operator
      evaluates to 0. */
  lemma EvaluateJunk(e: Src, rest: string, s: CText)
    requires Shaped(e, 0) && rest != [] && s == Text(e) + rest
    requires rest[0] !in " \t\n0123456789+-*/"
    ensures Evaluate(s) == 0
  {
    hide Shaped, Text, Value, Meaning;
    var end := |Text(e)|;
    assert s[0..|Text(e) + rest|] == Text(e) + rest;
    AtSplit(s, 0, Text(e), rest);
    var c := rest[0];
    assert s[end] == c;
    JunkIs(c);
    ExprParses(s, 0, e);
  }

  lemma JunkIs(c: char)
    requires c !in " \t\n0123456789+-*/"
    ensures !Blank(c) && !Digit(c) && !AddOp(c) && !MulOp(c)
  {
    var all := " \t\n0123456789+-*/";
    assert all[0] == ' ' && all[1] == '\t' && all[2] == '\n' && all[3] == '0' && all[4] == '1' && all[5] == '2';
    assert all[6] == '3' && all[7] == '4' && all[8] == '5' && all[9] == '6' && all[10] == '7' && all[11] == '8';
    assert all[12] == '9' && all[13] == '+' && all[14] == '-' && all[15] == '*' && all[16] == '/';
  }

  // ---- Whole trees ----

  /** No division. */
  predicate Ring(e: Tree) {
    match e
    case Num(n) => n >= 0
    case Bin(op, l, r) => (op == '+' || op == '-' || op == '*') && Ring(l) && Ring(r)
  }

  /** The value in mathematical integers. */
  function Exact(e: Tree): int
    requires Ring(e)
  {
    match e
    case Num(n) => n
    case Bin(op, l, r) => Plain(op, Exact(l), Exact(r))
  }

  /** The operation on mathematical integers. */
  function Plain(op: char, a: int, b: int): int {
    if op == '+' then a + b else if op == '-' then a - b else a * b
  }

  lemma CongruentTrans(x: int, y: int, z: int)
    requires Congruent(x, y) && Congruent(y, z)
    ensures Congruent(x, z)
  {
  }

  lemma CongruentSum(a: int, b: int, x: int, y: int)
    requires Congruent(a, x) && Congruent(b, y)
    ensures Congruent(a + b, x + y) && Congruent(a - b, x - y)
  {
  }

  lemma CongruentProduct(a: int, b: int, x: int, y: int)
    requires Congruent(a, x) && Congruent(b, y)
    ensures Congruent(a * b, x * y)
  {
    var j, k := (a - x) / WORD, (b - y) / WORD;
    assert a == x + WORD * j && b == y + WORD * k;
    assert a * b - x * y == WORD * (x * k + j * y + WORD * j * k);
    Times(x * k + j * y + WORD * j * k);
  }

  lemma PlainCongruent(op: char, a: i32, b: i32, x: int, y: int)
    requires op == '+' || op == '-' || op == '*'
    requires Congruent(a, x) && Congruent(b, y)
    ensures Congruent(Apply(op, a, b), Plain(op, x, y))
  {
    ApplyAnswers(op, a, b);
    hide Congruent, Apply;
    if op == '*' {
      CongruentProduct(a, b, x, y);
      CongruentTrans(Apply(op, a, b), a * b, x * y);
    } else {
      CongruentSum(a, b, x, y);
      CongruentTrans(Apply(op, a, b), Plain(op, a, b), Plain(op, x, y));
    }
  }

  lemma {:induction false} RingValue(e: Tree)
    requires Ring(e)
    ensures Arithmetic(e) && Congruent(Value(e), Exact(e))
  {
    hide Congruent, Apply, Int, Plain;
    match e
    case Num(n) => IntCongruent(n);
    case Bin(op, l, r) =>
      RingValue(l);
      RingValue(r);
      PlainCongruent(op, Value(l), Value(r), Exact(l), Exact(r));
  }

  /** Main result: every tree of sums, differences and products, printed and evaluated, gives its
      mathematical value modulo 2^32, and exactly that value whenever it is in range, whatever overflows
      on the way. */
  lemma RingEvaluates(e: Tree)
    requires Ring(e)
    ensures Arithmetic(e) && '\0' !in Text(Print(e, 0))
    ensures var x := Evaluate(Text(Print(e, 0))); Congruent(x, Exact(e)) && (InRange(Exact(e)) ==> x == Exact(e))
  {
    hide Evaluate, Congruent;
    RingValue(e);
    PrintEvaluates(e);
    if InRange(Exact(e)) { CongruentInRange(Value(e), Exact(e)); }
  }
}
