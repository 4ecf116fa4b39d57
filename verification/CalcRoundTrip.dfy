/** Printing an expression tree and evaluating the text gives the value of the tree. */
module CalcRoundTrip {
  import opened Calculator

  /** Expression trees and their values: left-associative, truncating division, division by zero
      keeping the left operand. */
  datatype Tree = Num(n: int) | Bin(op: char, l: Tree, r: Tree)

  function Value(e: Tree): i32 {
    match e
    case Num(n) => Int(n)
    case Bin(op, l, r) => Apply(op, Value(l), Value(r))
  }

  /** A printed form: numerals, parentheses and operators, with blanks before every token. */
  datatype Src =
    | Lit(pre: string, digits: string)
    | Paren(pre: string, inner: Src, post: string)
    | Binary(l: Src, pre: string, op: char, r: Src)

  function Text(e: Src): string {
    match e
    case Lit(pre, digits) => pre + digits
    case Paren(pre, inner, post) => pre + ['('] + (Text(inner) + (post + [')']))
    case Binary(l, pre, op, r) => Text(l) + (pre + ([op] + Text(r)))
  }

  predicate Blanks(t: string) { forall i | 0 <= i < |t| :: Blank(t[i]) }
  predicate AllDigits(t: string) { forall i | 0 <= i < |t| :: Digit(t[i]) }

  /** Precedence-correct forms for an expression (0), a term (1) or a factor (2); redundant
      parentheses are allowed. */
  predicate Shaped(e: Src, level: nat) {
    match e
    case Lit(pre, digits) => Blanks(pre) && digits != [] && AllDigits(digits)
    case Paren(pre, inner, post) => Blanks(pre) && Blanks(post) && Shaped(inner, 0)
    case Binary(l, pre, op, r) =>
      && Blanks(pre)
      && if AddOp(op) then level == 0 && Shaped(l, 0) && Shaped(r, 1)
        else MulOp(op) && level <= 1 && Shaped(l, 1) && Shaped(r, 2)
  }

  function Numeral(digits: string): int {
    if digits == [] then 0
    else 10 * Numeral(digits[..|digits| - 1]) + (digits[|digits| - 1] as int - '0' as int)
  }

  /** The tree a printed form stands for. */
  function Meaning(e: Src): Tree {
    match e
    case Lit(_, digits) => Num(Numeral(digits))
    case Paren(_, inner, _) => Meaning(inner)
    case Binary(l, _, op, r) => Bin(op, Meaning(l), Meaning(r))
  }

  // ---- Positions ----

  predicate At(s: CText, p: nat, t: string) { p + |t| <= |s| && s[p..p + |t|] == t }

  lemma AtSplit(s: CText, p: nat, a: string, b: string)
    requires At(s, p, a + b)
    ensures At(s, p, a) && At(s, p + |a|, b)
  {
    assert (a + b)[..|a|] == a && (a + b)[|a|..] == b;
    assert s[p..p + |a|] == s[p..p + |a + b|][..|a|];
    assert s[p + |a|..p + |a| + |b|] == s[p..p + |a + b|][|a|..];
  }

  lemma {:induction false} SkipBlanks(s: CText, p: nat, t: string)
    requires At(s, p, t) && Blanks(t)
    ensures SkipWs(s, p) == SkipWs(s, p + |t|)
    decreases |t|
  {
    if t != [] {
      assert s[p] == s[p..p + |t|][0] == t[0];
      assert s[p + 1..p + 1 + |t[1..]|] == s[p..p + |t|][1..] == t[1..];
      SkipBlanks(s, p + 1, t[1..]);
    }
  }

  lemma CharAt(s: CText, p: nat, c: char)
    requires At(s, p, [c])
    ensures p < |s| && s[p] == c
  {
    assert s[p] == s[p..p + 1][0];
  }

  /** After blanks, the pointer rests on a character that is not blank. */
  lemma SkipTo(s: CText, p: nat, pre: string, c: char)
    requires At(s, p, pre) && Blanks(pre) && p + |pre| < |s| && s[p + |pre|] == c && !Blank(c)
    ensures SkipWs(s, p) == p + |pre|
  {
    SkipBlanks(s, p, pre);
  }

  // ---- Numerals ----

  lemma IntStep(a: int, d: int)
    ensures Int(Int(a) * 10 + d) == Int(a * 10 + d)
  {
    var k := (a - Int(a)) / 0x1_0000_0000;
    assert a == Int(a) + 0x1_0000_0000 * k;
    IntPeriod(Int(a) * 10 + d, 10 * k);
  }

  lemma IntPeriod(x: int, k: int)
    ensures Int(x + 0x1_0000_0000 * k) == Int(x)
  {
    ModPeriod(x, k);
  }

  lemma ModPeriod(x: int, k: int)
    ensures (x + 0x1_0000_0000 * k) % 0x1_0000_0000 == x % 0x1_0000_0000
  {
  }

  /** The digit loop over `digits`, of which the first `n` are already consumed. */
  lemma {:induction false} DigitsParse(s: CText, p: nat, digits: string, n: nat)
    requires At(s, p, digits) && AllDigits(digits) && n <= |digits| && !Digit(Cur(s, p + |digits|))
    ensures Digits(s, p + n, Int(Numeral(digits[..n]))) == Parsed(Int(Numeral(digits)), p + |digits|)
    decreases |digits| - n
  {
    if n == |digits| {
      assert digits[..n] == digits;
    } else {
      assert s[p + n] == s[p..p + |digits|][n] == digits[n];
      assert digits[..n + 1][..n] == digits[..n];
      IntStep(Numeral(digits[..n]), digits[n] as int - '0' as int);
      DigitsParse(s, p, digits, n + 1);
    }
  }

  // ---- The three levels ----

  lemma TermLoopSame(s: CText, v: i32, p: nat, q: nat)
    requires p <= |s| && q <= |s| && SkipWs(s, p) == SkipWs(s, q)
    ensures TermLoop(s, Parsed(v, p)) == TermLoop(s, Parsed(v, q))
  {
  }

  lemma ExprLoopSame(s: CText, v: i32, p: nat, q: nat)
    requires p <= |s| && q <= |s| && SkipWs(s, p) == SkipWs(s, q)
    ensures ExpressionLoop(s, Parsed(v, p)) == ExpressionLoop(s, Parsed(v, q))
  {
  }

  lemma SkipIdem(s: CText, p: nat)
    requires p <= |s|
    ensures SkipWs(s, SkipWs(s, p)) == SkipWs(s, p)
  {
  }

  /** A factor followed by a non-digit parses to its value and ends, up to blanks, after its text. */
  lemma {:induction false} FactorParses(s: CText, p: nat, e: Src)
    requires Shaped(e, 2) && At(s, p, Text(e)) && !Digit(Cur(s, p + |Text(e)|))
    ensures var r := Factor(s, p); r.value == Value(Meaning(e)) && SkipWs(s, r.pos) == SkipWs(s, p + |Text(e)|)
    decreases e, 0
  {
    hide At, Factor, Blanks, AllDigits, SkipWs, Digits;
    match e
    case Lit(pre, digits) => LitParses(s, p, pre, digits);
    case Paren(pre, inner, post) =>
      var q := SplitParen(s, p, e);
      var end := q + 1 + |Text(inner)|;
      ExprParses(s, q + 1, inner);
      SkipIdem(s, end);
      ParenParses(s, p, q, end, end + |post|, Value(Meaning(inner)));
  }

  lemma LitParses(s: CText, p: nat, pre: string, digits: string)
    requires Blanks(pre) && digits != [] && AllDigits(digits) && At(s, p, pre + digits)
    requires !Digit(Cur(s, p + |pre + digits|))
    ensures var r := Factor(s, p); r.value == Int(Numeral(digits)) && SkipWs(s, r.pos) == SkipWs(s, p + |pre + digits|)
  {
    hide SkipWs, Digits;
    AtSplit(s, p, pre, digits);
    var q := p + |pre|;
    assert s[q] == s[q..q + |digits|][0] == digits[0];
    SkipTo(s, p, pre, digits[0]);
    DigitsParse(s, q, digits, 0);
    assert digits[..0] == [];
    SkipIdem(s, q + |digits|);
  }

  lemma ParenParses(s: CText, p: nat, q: nat, end: nat, close: nat, v: i32)
    requires p <= q < end <= close < |s| && SkipWs(s, p) == q
    requires s[q] == '(' && SkipWs(s, end) == close && s[close] == ')'
    requires Expression(s, q + 1) == ExpressionLoop(s, Parsed(v, end))
    ensures Factor(s, p) == Parsed(v, close + 1)
  {
    SkipIdem(s, end);
  }

  /** Where the parentheses sit. */
  lemma SplitParen(s: CText, p: nat, e: Src) returns (q: nat)
    requires e.Paren? && Blanks(e.pre) && Blanks(e.post) && At(s, p, Text(e))
    ensures p <= q < |s| && s[q] == '(' && SkipWs(s, p) == q && At(s, q + 1, Text(e.inner))
    ensures var end := q + 1 + |Text(e.inner)|; var close := end + |e.post|;
      && close < |s| && s[close] == ')' && SkipWs(s, end) == close && p + |Text(e)| == close + 1
      && !Digit(Cur(s, end))
  {
    hide SkipWs, At, Blanks;
    var Paren(pre, inner, post) := e;
    AtSplit(s, p, pre + ['('], Text(inner) + (post + [')']));
    AtSplit(s, p, pre, ['(']);
    q := p + |pre|;
    CharAt(s, q, '(');
    SkipTo(s, p, pre, '(');
    AtSplit(s, q + 1, Text(inner), post + [')']);
    var end := q + 1 + |Text(inner)|;
    AtSplit(s, end, post, [')']);
    CharAt(s, end + |post|, ')');
    SkipTo(s, end, post, ')');
    NextNotDigit(s, end, post);
  }

  lemma NextNotDigit(s: CText, p: nat, pre: string)
    requires At(s, p, pre) && Blanks(pre) && p + |pre| < |s| && !Digit(s[p + |pre|])
    ensures !Digit(Cur(s, p))
  {
    if pre != [] { assert s[p] == s[p..p + |pre|][0] == pre[0]; }
  }

  /** Parsing a term arrives at the loop with the value of the term accumulated. */
  lemma {:induction false} TermParses(s: CText, p: nat, e: Src)
    requires Shaped(e, 1) && At(s, p, Text(e)) && !Digit(Cur(s, p + |Text(e)|))
    ensures Term(s, p) == TermLoop(s, Parsed(Value(Meaning(e)), p + |Text(e)|))
    decreases e, 1
  {
    hide At, Factor, SkipWs, Blanks, Apply;
    if e.Binary? {
      var Binary(l, pre, op, r) := e;
      var q := SplitBinary(s, p, e);
      TermParses(s, p, l);
      FactorParses(s, q + 1, r);
      TermLoopSame(s, Apply(op, Value(Meaning(l)), Value(Meaning(r))), Factor(s, q + 1).pos, p + |Text(e)|);
    } else {
      FactorParses(s, p, e);
      TermLoopSame(s, Value(Meaning(e)), Factor(s, p).pos, p + |Text(e)|);
    }
  }

  /** Where the operator of a binary form sits, and what surrounds it. */
  lemma SplitBinary(s: CText, p: nat, e: Src) returns (q: nat)
    requires e.Binary? && Blanks(e.pre) && (MulOp(e.op) || AddOp(e.op)) && At(s, p, Text(e))
    ensures At(s, p, Text(e.l)) && q < |s| && s[q] == e.op && SkipWs(s, p + |Text(e.l)|) == q
    ensures At(s, q + 1, Text(e.r)) && q + 1 + |Text(e.r)| == p + |Text(e)|
    ensures !Digit(Cur(s, p + |Text(e.l)|))
  {
    hide SkipWs, At, Blanks;
    var a := p + |Text(e.l)|;
    AtSplit(s, p, Text(e.l), e.pre + ([e.op] + Text(e.r)));
    AtSplit(s, a, e.pre, [e.op] + Text(e.r));
    q := a + |e.pre|;
    AtSplit(s, q, [e.op], Text(e.r));
    CharAt(s, q, e.op);
    SkipTo(s, a, e.pre, e.op);
    NextNotDigit(s, a, e.pre);
  }

  lemma {:induction false} ExprParses(s: CText, p: nat, e: Src)
    requires Shaped(e, 0) && At(s, p, Text(e)) && !Digit(Cur(s, p + |Text(e)|))
    requires !MulOp(Cur(s, SkipWs(s, p + |Text(e)|)))
    ensures Expression(s, p) == ExpressionLoop(s, Parsed(Value(Meaning(e)), p + |Text(e)|))
    decreases e, 2
  {
    hide At, Term, SkipWs, Blanks, Apply;
    var end := p + |Text(e)|;
    if e.Binary? && AddOp(e.op) {
      var Binary(l, pre, op, r) := e;
      var q := SplitBinary(s, p, e);
      ExprParses(s, p, l);
      TermParses(s, q + 1, r);
      SkipIdem(s, end);
      ExprLoopSame(s, Apply(op, Value(Meaning(l)), Value(Meaning(r))), SkipWs(s, end), end);
    } else {
      TermParses(s, p, e);
      SkipIdem(s, end);
      ExprLoopSame(s, Value(Meaning(e)), SkipWs(s, end), end);
    }
  }

  /** Main result: whatever the blanks and redundant parentheses, evaluating a printed tree gives
      the value of the tree. */
  lemma EvaluatePrinted(e: Src, trail: string, s: CText)
    requires Shaped(e, 0) && Blanks(trail) && s == Text(e) + trail
    ensures Evaluate(s) == Value(Meaning(e))
  {
    var end := |Text(e)|;
    assert s[0..|Text(e) + trail|] == Text(e) + trail;
    AtSplit(s, 0, Text(e), trail);
    SkipBlanks(s, end, trail);
    if trail != [] { assert s[end] == trail[0]; }
    ExprParses(s, 0, e);
    SkipIdem(s, end);
  }

  // ---- Every tree has a printed form ----

  function Decimal(n: nat): (t: string)
    ensures t != [] && AllDigits(t)
  {
    if n < 10 then [('0' as int + n) as char] else Decimal(n / 10) + [('0' as int + n % 10) as char]
  }

  lemma {:induction false} DecimalNumeral(n: nat)
    ensures Numeral(Decimal(n)) == n
  {
    if n >= 10 {
      DecimalNumeral(n / 10);
      assert Decimal(n)[..|Decimal(n)| - 1] == Decimal(n / 10);
    } else {
      assert Decimal(n)[..0] == [];
    }
  }

  predicate Arithmetic(e: Tree) {
    match e
    case Num(n) => n >= 0
    case Bin(op, l, r) => (MulOp(op) || AddOp(op)) && Arithmetic(l) && Arithmetic(r)
  }

  /** Parenthesise only where the context binds tighter: 0 expression, 1 term, 2 factor. */
  function Print(e: Tree, level: nat): Src
    requires Arithmetic(e) && level <= 2
    decreases e
  {
    match e
    case Num(n) => Lit("", Decimal(n))
    case Bin(op, l, r) =>
      if AddOp(op) then
        var b := Binary(Print(l, 0), "", op, Print(r, 1));
        if level == 0 then b else Paren("", b, "")
      else
        var b := Binary(Print(l, 1), "", op, Print(r, 2));
        if level <= 1 then b else Paren("", b, "")
  }

  lemma {:induction false} PrintMeans(e: Tree, level: nat)
    requires Arithmetic(e) && level <= 2
    ensures var t := Print(e, level);
      Shaped(t, level) && Meaning(t) == e
    decreases e
  {
    match e
    case Num(n) => DecimalNumeral(n);
    case Bin(op, l, r) =>
      PrintMeans(l, if AddOp(op) then 0 else 1);
      PrintMeans(r, if AddOp(op) then 1 else 2);
  }

  lemma {:induction false} TextHasNoNul(e: Src, level: nat)
    requires Shaped(e, level)
    ensures '\0' !in Text(e)
    decreases e
  {
    match e
    case Lit(pre, digits) =>
    case Paren(pre, inner, post) => TextHasNoNul(inner, 0);
    case Binary(l, pre, op, r) =>
      if AddOp(op) { TextHasNoNul(l, 0); TextHasNoNul(r, 1); } else { TextHasNoNul(l, 1); TextHasNoNul(r, 2); }
  }

  /** Main result: every tree, printed and evaluated, gives its value. */
  lemma PrintEvaluates(e: Tree)
    requires Arithmetic(e)
    ensures '\0' !in Text(Print(e, 0)) && Evaluate(Text(Print(e, 0))) == Value(e)
  {
    PrintMeans(e, 0);
    TextHasNoNul(Print(e, 0), 0);
    assert Text(Print(e, 0)) + "" == Text(Print(e, 0));
    EvaluatePrinted(Print(e, 0), "", Text(Print(e, 0)));
  }
}
