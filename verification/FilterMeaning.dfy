/**
 * What a filter means: the expression behind the tokens, and its Boolean value.
 *
 * `ParseExpr` reads the tokens into an expression without looking at any candidate.  The evaluator computes the
 * value of that expression (`EvaluatesTheExpression`), and that value is the ordinary Boolean one
 * (`ValueIsMeaning`), for every accepted token list and for every expression that can be written down.
 */
module FilterMeaning {
  import opened CodeUnits
  import opened DataTree
  import opened Filters

  datatype Exp =
    | Operand(word: Text)
    | Compare(word: Text, op: Op, sign: Text, right: Text)
    | Not(arg: Exp)
    | Group(arg: Exp)
    | And(left: Exp, right_: Exp)
    | Or(left: Exp, right_: Exp)

  // ----- reading tokens into an expression -----

  datatype Parse = Tree(e: Exp, next: nat) | Bad(problem: Problem, next: nat)

  function ParseOperand(ts: seq<Text>, left: Text, j: nat): (r: Parse)
    requires j <= |ts|
    ensures j <= r.next <= |ts|
  {
    match Peek(ts, j)
    case None => Tree(Operand(left), j)
    case Some(next) =>
      match KindOf(next)
      case Comparison(op) =>
        if j + 1 < |ts| then Tree(Compare(left, op, next, ts[j + 1]), j + 2) else Bad(MoreExpected, j + 1)
      case AndWord => Tree(Operand(left), j)
      case OrWord => Tree(Operand(left), j)
      case Close => Tree(Operand(left), j)
      case _ => Bad(UnexpectedOperation, j)
  }

  function ParseBool(ts: seq<Text>, i: nat): (r: Parse)
    requires i <= |ts|
    ensures i <= r.next <= |ts| && (r.Tree? ==> i < r.next)
    decreases |ts| - i, 0
  {
    if i == |ts| then Bad(MoreExpected, i)
    else if KindOf(ts[i]) == Open then
      match ParseExpr(ts, i + 1)
      case Bad(p, j) => Bad(p, j)
      case Tree(e, j) =>
        if j == |ts| then Bad(MoreExpected, j)
        else if KindOf(ts[j]) != Close then Bad(MissingParen, j + 1)
        else Tree(Group(e), j + 1)
    else if KindOf(ts[i]) == NotWord && i + 1 == |ts| then Bad(NullPointer, i + 1)
    else if KindOf(ts[i]) == NotWord && !NotIsOperand(ts[i + 1]) then
      match ParseBool(ts, i + 1)
      case Bad(p, j) => Bad(p, j)
      case Tree(e, j) => Tree(Not(e), j)
    else ParseOperand(ts, ts[i], i + 1)
  }

  function ParseExpr(ts: seq<Text>, i: nat): (r: Parse)
    requires i <= |ts|
    ensures i <= r.next <= |ts| && (r.Tree? ==> i < r.next)
    decreases |ts| - i, 1
  {
    match ParseBool(ts, i)
    case Bad(p, j) => Bad(p, j)
    case Tree(e, j) => ParseLoop(ts, j, e)
  }

  function ParseLoop(ts: seq<Text>, i: nat, e: Exp): (r: Parse)
    requires i <= |ts|
    ensures i <= r.next <= |ts|
    decreases |ts| - i, 2
  {
    if i == |ts| then Tree(e, i)
    else
      match KindOf(ts[i])
      case AndWord =>
        (match ParseBool(ts, i + 1)
         case Bad(p, j) => Bad(p, j)
         case Tree(right, j) => ParseLoop(ts, j, And(e, right)))
      case OrWord =>
        (match ParseExpr(ts, i + 1)
         case Bad(p, j) => Bad(p, j)
         case Tree(right, j) => ParseLoop(ts, j, Or(e, right)))
      case Close => Tree(e, i)
      case _ => Bad(UnexpectedOperation, i)
  }

  // ----- the value of an expression, with null -----

  function EvalExp(num: Numbers, c: Candidate, e: Exp): Outcome<Option<bool>> {
    match e
    case Operand(word) => ValueOf(TruthOf(c(word), 0))
    case Compare(word, op, _, right) => ValueOf(Compared(num, c(word), op, right, 0))
    case Not(a) =>
      (match EvalExp(num, c, a)
       case Done(v) => Done(Negated(v))
       case Thrown(p) => Thrown(p))
    case Group(a) =>
      (match EvalExp(num, c, a)
       case Done(v) => Done(Some(Collapse(v)))
       case Thrown(p) => Thrown(p))
    case And(l, r) =>
      (match EvalExp(num, c, l)
       case Thrown(p) => Thrown(p)
       case Done(v) =>
         match EvalExp(num, c, r)
         case Thrown(p) => Thrown(p)
         case Done(w) => Done(AndLogic(v, w)))
    case Or(l, r) =>
      (match EvalExp(num, c, l)
       case Thrown(p) => Thrown(p)
       case Done(v) =>
         match EvalExp(num, c, r)
         case Thrown(p) => Thrown(p)
         case Done(w) => Done(OrLogic(v, Some(Collapse(w)))))
  }

  function ValueOf(r: Eval): Outcome<Option<bool>> {
    match r
    case Value(v, _) => Done(v)
    case Stuck(p, _) => Thrown(p)
  }

  /**
   * The evaluator agrees with reading first and evaluating afterwards: the same value at the same index; the same
   * problem when only the evaluation fails; and when the tokens cannot be read, that problem at that index, unless a
   * late problem of an earlier operand comes first.
   */
  predicate Agrees(r: Eval, p: Parse, v: Outcome<Option<bool>>) {
    match p
    case Tree(_, j) =>
      (match v
       case Done(b) => r == Value(b, j)
       case Thrown(problem) => r.Stuck? && r.problem == problem)
    case Bad(problem, j) => r.Stuck? && (r == Stuck(problem, j) || IsLate(r.problem))
  }

  function ValueIfTree(num: Numbers, c: Candidate, p: Parse): Outcome<Option<bool>> {
    if p.Tree? then EvalExp(num, c, p.e) else Thrown(MoreExpected)
  }

  function Collapsed(v: Outcome<Option<bool>>): Outcome<Option<bool>> {
    match v
    case Done(b) => Done(Some(Collapse(b)))
    case Thrown(p) => Thrown(p)
  }

  lemma {:induction false} BoolAgrees(num: Numbers, c: Candidate, ts: seq<Text>, i: nat)
    requires i <= |ts|
    ensures var p := ParseBool(ts, i); Agrees(BoolAt(num, c, ts, i), p, ValueIfTree(num, c, p))
    decreases |ts| - i, 0
  {
    hide KindOf;
    if i < |ts| {
      if KindOf(ts[i]) == Open {
        EvaluatesTheExpression(num, c, ts, i + 1);
        if ParseExpr(ts, i + 1).Tree? {
          ProblemsAreLate(num, c, ParseExpr(ts, i + 1).e);
        }
      } else if KindOf(ts[i]) == NotWord && i + 1 < |ts| && !NotIsOperand(ts[i + 1]) {
        BoolAgrees(num, c, ts, i + 1);
      }
    }
  }

  lemma {:induction false} EvaluatesTheExpression(num: Numbers, c: Candidate, ts: seq<Text>, i: nat)
    requires i <= |ts|
    ensures var p := ParseExpr(ts, i); Agrees(ExprAt(num, c, ts, i), p, Collapsed(ValueIfTree(num, c, p)))
    decreases |ts| - i, 1
  {
    BoolAgrees(num, c, ts, i);
    var p := ParseBool(ts, i);
    if p.Tree? {
      match EvalExp(num, c, p.e)
      case Done(v) =>
        LoopAgrees(num, c, ts, p.next, p.e, v);
      case Thrown(problem) =>
        LoopKeepsProblem(num, c, ts, p.next, p.e, problem);
        ProblemsAreLate(num, c, p.e);
    }
  }

  lemma {:induction false} LoopAgrees(num: Numbers, c: Candidate, ts: seq<Text>, i: nat, e: Exp, v: Option<bool>)
    requires i <= |ts| && EvalExp(num, c, e) == Done(v)
    ensures var p := ParseLoop(ts, i, e); Agrees(LoopAt(num, c, ts, i, v), p, Collapsed(ValueIfTree(num, c, p)))
    decreases |ts| - i, 2
  {
    hide KindOf;
    if i < |ts| && KindOf(ts[i]) == AndWord {
      BoolAgrees(num, c, ts, i + 1);
      var p := ParseBool(ts, i + 1);
      if p.Tree? {
        match EvalExp(num, c, p.e)
        case Done(w) =>
          LoopAgrees(num, c, ts, p.next, And(e, p.e), AndLogic(v, w));
        case Thrown(problem) =>
          LoopKeepsProblem(num, c, ts, p.next, And(e, p.e), problem);
          ProblemsAreLate(num, c, p.e);
      }
    } else if i < |ts| && KindOf(ts[i]) == OrWord {
      EvaluatesTheExpression(num, c, ts, i + 1);
      var p := ParseExpr(ts, i + 1);
      if p.Tree? {
        match EvalExp(num, c, p.e)
        case Done(w) =>
          LoopAgrees(num, c, ts, p.next, Or(e, p.e), OrLogic(v, Some(Collapse(w))));
        case Thrown(problem) =>
          LoopKeepsProblem(num, c, ts, p.next, Or(e, p.e), problem);
          ProblemsAreLate(num, c, p.e);
      }
    }
  }

  /** What is read after a failing operand does not hide its problem. */
  lemma {:induction false} LoopKeepsProblem(num: Numbers, c: Candidate, ts: seq<Text>, i: nat, e: Exp, problem: Problem)
    requires i <= |ts| && EvalExp(num, c, e) == Thrown(problem)
    ensures var p := ParseLoop(ts, i, e); p.Tree? ==> EvalExp(num, c, p.e) == Thrown(problem)
    decreases |ts| - i
  {
    hide KindOf;
    if i < |ts| && KindOf(ts[i]) == AndWord {
      var p := ParseBool(ts, i + 1);
      if p.Tree? {
        LoopKeepsProblem(num, c, ts, p.next, And(e, p.e), problem);
      }
    } else if i < |ts| && KindOf(ts[i]) == OrWord {
      var p := ParseExpr(ts, i + 1);
      if p.Tree? {
        LoopKeepsProblem(num, c, ts, p.next, Or(e, p.e), problem);
      }
    }
  }

  lemma {:induction false} ProblemsAreLate(num: Numbers, c: Candidate, e: Exp)
    ensures EvalExp(num, c, e).Thrown? ==> IsLate(EvalExp(num, c, e).problem)
  {
    match e
    case Operand(_) =>
    case Compare(_, _, _, _) =>
    case Not(a) => ProblemsAreLate(num, c, a);
    case Group(a) => ProblemsAreLate(num, c, a);
    case And(l, r) =>
      ProblemsAreLate(num, c, l);
      ProblemsAreLate(num, c, r);
    case Or(l, r) =>
      ProblemsAreLate(num, c, l);
      ProblemsAreLate(num, c, r);
  }

  // ----- the pre-check -----

  /** The check lets a token list pass on a stand-in: it can be read, and nothing late goes wrong on the stand-in either. */
  predicate Accepts(num: Numbers, c: Candidate, ts: seq<Text>) {
    ExprAt(num, c, ts, 0).Value?
  }

  /**
   * Once a token list has passed the check on any stand-in, evaluating it on any candidate reaches the same index,
   * or stops at a late problem: a comparison with a non-number, or an accessor that throws.
   */
  lemma {:induction false} AcceptedOnceRunsEverywhere(num: Numbers, stand: Candidate, c: Candidate, ts: seq<Text>)
    requires Accepts(num, stand, ts)
    ensures var r := ExprAt(num, c, ts, 0);
            match r
            case Value(_, j) => j == ExprAt(num, stand, ts, 0).next
            case Stuck(p, _) => IsLate(p)
  {
    EvaluatesTheExpression(num, stand, ts, 0);
    EvaluatesTheExpression(num, c, ts, 0);
    if ParseExpr(ts, 0).Tree? {
      ProblemsAreLate(num, c, ParseExpr(ts, 0).e);
    }
  }

  /** The right-hand sides of the gt, ge, lt and le comparisons. */
  function OrderedSides(e: Exp): seq<Text> {
    match e
    case Operand(_) => []
    case Compare(_, op, _, right) => if IsOrdering(op) then [right] else []
    case Not(a) => OrderedSides(a)
    case Group(a) => OrderedSides(a)
    case And(l, r) => OrderedSides(l) + OrderedSides(r)
    case Or(l, r) => OrderedSides(l) + OrderedSides(r)
  }

  predicate AllNumeric(num: Numbers, sides: seq<Text>) {
    forall i :: 0 <= i < |sides| ==> num(sides[i]).Some?
  }

  /** A candidate none of whose accessors throws. */
  ghost predicate Total(c: Candidate) {
    forall w: Text :: c(w).Some? ==> c(w).value.text.Some? && c(w).value.truth.Some?
  }

  lemma {:induction false} NumericSidesNeverThrow(num: Numbers, c: Candidate, e: Exp)
    requires Total(c) && AllNumeric(num, OrderedSides(e))
    ensures EvalExp(num, c, e).Done?
  {
    match e
    case Operand(w) =>
    case Compare(w, op, _, right) =>
      if IsOrdering(op) {
        assert OrderedSides(e)[0] == right;
      }
    case Not(a) => NumericSidesNeverThrow(num, c, a);
    case Group(a) => NumericSidesNeverThrow(num, c, a);
    case And(l, r) =>
      NumericParts(num, OrderedSides(l), OrderedSides(r));
      NumericSidesNeverThrow(num, c, l);
      NumericSidesNeverThrow(num, c, r);
    case Or(l, r) =>
      NumericParts(num, OrderedSides(l), OrderedSides(r));
      NumericSidesNeverThrow(num, c, l);
      NumericSidesNeverThrow(num, c, r);
  }

  lemma NumericParts(num: Numbers, a: seq<Text>, b: seq<Text>)
    ensures AllNumeric(num, a + b) <==> AllNumeric(num, a) && AllNumeric(num, b)
  {
    assert forall i :: 0 <= i < |a| ==> (a + b)[i] == a[i];
    assert forall i :: 0 <= i < |b| ==> (a + b)[|a| + i] == b[i];
  }

  /** A candidate under which everything exists and is a number: it makes every comparison happen. */
  function Everything(number: Text): Candidate {
    (w: Text) => Some(Item(Some(number), Some(true)))
  }

  lemma {:induction false} NonNumericSideThrows(num: Numbers, number: Text, e: Exp)
    requires num(number).Some? && EvalExp(num, Everything(number), e).Done?
    ensures AllNumeric(num, OrderedSides(e))
  {
    match e
    case Operand(_) =>
    case Compare(_, _, _, _) =>
    case Not(a) => NonNumericSideThrows(num, number, a);
    case Group(a) => NonNumericSideThrows(num, number, a);
    case And(l, r) =>
      NonNumericSideThrows(num, number, l);
      NonNumericSideThrows(num, number, r);
    case Or(l, r) =>
      NonNumericSideThrows(num, number, l);
      NonNumericSideThrows(num, number, r);
  }

  /**
   * The promise that nothing sneaks through the check fails for non-numeric right-hand sides, and only for them: an
   * accepted filter runs on every candidate whose accessors do not throw exactly when all these sides are numbers.
   */
  lemma {:induction false} PrecheckIsExact(num: Numbers, stand: Candidate, ts: seq<Text>, number: Text)
    requires Accepts(num, stand, ts) && num(number).Some?
    ensures ParseExpr(ts, 0).Tree?
    ensures (forall c: Candidate :: Total(c) ==> ExprAt(num, c, ts, 0).Value?)
        <==> AllNumeric(num, OrderedSides(ParseExpr(ts, 0).e))
  {
    EvaluatesTheExpression(num, stand, ts, 0);
    var e := ParseExpr(ts, 0).e;
    if AllNumeric(num, OrderedSides(e)) {
      forall c: Candidate | Total(c)
        ensures ExprAt(num, c, ts, 0).Value?
      {
        NumericSidesNeverThrow(num, c, e);
        EvaluatesTheExpression(num, c, ts, 0);
      }
    }
    if forall c: Candidate :: Total(c) ==> ExprAt(num, c, ts, 0).Value? {
      var c := Everything(number);
      assert Total(c);
      EvaluatesTheExpression(num, c, ts, 0);
      NonNumericSideThrows(num, number, e);
    }
  }

  /** A filter that does sneak through: "a gt x" is accepted on an empty stand-in and throws where "a" is a number. */
  lemma SneaksThrough(num: Numbers, a: Text, x: Text, number: Text)
    requires KindOf(a) == Word && num(number).Some? && num(x).None?
    ensures var ts := [a, Ascii("gt"), x];
            && Accepts(num, (w: Text) => None, ts)
            && ExprAt(num, Everything(number), ts, 0).Stuck?
  {
    assert Ascii("gt")[0] == 0x67;
  }

  // ----- ordinary Boolean meaning -----

  /** An operand whose left-hand item is missing, or is no number where one is needed. */
  predicate Unknown(num: Numbers, c: Candidate, e: Exp) {
    match e
    case Operand(word) => c(word).None?
    case Compare(word, op, _, _) =>
      c(word).None? || (IsOrdering(op) && (c(word).value.text.None? || num(c(word).value.text.value).None?))
    case Not(a) => Unknown(num, c, a)
    case _ => false
  }

  /** Whether an operand or a comparison holds of the candidate. */
  predicate LiteralHolds(num: Numbers, c: Candidate, e: Exp) {
    match e
    case Operand(word) => c(word).Some? && c(word).value.truth == Some(true)
    case Compare(word, op, _, right) =>
      && c(word).Some? && c(word).value.text.Some?
      && var left := c(word).value.text.value;
         (match op
          case EQ => left == right
          case NE => left != right
          case _ => num(left).Some? && num(right).Some? && Holds(op, num(left).value, num(right).value))
    case _ => false
  }

  /** Two-valued logic; a literal about something missing is false, and so is its negation, however often negated. */
  predicate Meaning(num: Numbers, c: Candidate, e: Exp) {
    match e
    case Operand(_) => LiteralHolds(num, c, e)
    case Compare(_, _, _, _) => LiteralHolds(num, c, e)
    case Not(a) => !Unknown(num, c, a) && !Meaning(num, c, a)
    case Group(a) => Meaning(num, c, a)
    case And(l, r) => Meaning(num, c, l) && Meaning(num, c, r)
    case Or(l, r) => Meaning(num, c, l) || Meaning(num, c, r)
  }

  /** How tightly an expression binds: operands, "not" and parentheses before "and", "and" before "or". */
  function Rank(e: Exp): nat {
    match e
    case And(_, _) => 1
    case Or(_, _) => 2
    case _ => 0
  }

  /** The expression can be written without further parentheses: "and" groups to the left, "or" to the right. */
  predicate Shaped(e: Exp) {
    match e
    case Operand(_) => true
    case Compare(_, _, _, _) => true
    case Not(a) => Rank(a) == 0 && Shaped(a)
    case Group(a) => Shaped(a)
    case And(l, r) => Rank(l) <= 1 && Rank(r) == 0 && Shaped(l) && Shaped(r)
    case Or(l, r) => Rank(l) <= 1 && Shaped(l) && Shaped(r)
  }

  /** Null stands for a missing literal under negations only, and reads as false everywhere else. */
  lemma {:induction false} ValueIsMeaning(num: Numbers, c: Candidate, e: Exp)
    requires Shaped(e) && EvalExp(num, c, e).Done?
    ensures Collapse(EvalExp(num, c, e).value) == Meaning(num, c, e)
    ensures Rank(e) == 0 ==> (EvalExp(num, c, e).value.None? <==> Unknown(num, c, e))
  {
    match e
    case Operand(_) =>
    case Compare(_, _, _, _) =>
    case Not(a) => ValueIsMeaning(num, c, a);
    case Group(a) => ValueIsMeaning(num, c, a);
    case And(l, r) =>
      ValueIsMeaning(num, c, l);
      ValueIsMeaning(num, c, r);
    case Or(l, r) =>
      ValueIsMeaning(num, c, l);
      ValueIsMeaning(num, c, r);
  }

  /** The six comparison words, and nothing else, are the six comparisons. */
  lemma ComparisonWords(sign: Text)
    ensures KindOf(sign) == Comparison(EQ) <==> sign == Ascii("eq")
    ensures KindOf(sign) == Comparison(NE) <==> sign == Ascii("ne")
    ensures KindOf(sign) == Comparison(GT) <==> sign == Ascii("gt")
    ensures KindOf(sign) == Comparison(GE) <==> sign == Ascii("ge")
    ensures KindOf(sign) == Comparison(LT) <==> sign == Ascii("lt")
    ensures KindOf(sign) == Comparison(LE) <==> sign == Ascii("le")
  {
    var eq, ne, gt, ge, lt, le := Ascii("eq"), Ascii("ne"), Ascii("gt"), Ascii("ge"), Ascii("lt"), Ascii("le");
    assert |eq| == |ne| == |gt| == |ge| == |lt| == |le| == 2;
    assert eq[1] == 0x71 && ne[0] == 0x6E && gt[0] == 0x67 && gt[1] == 0x74;
    assert ge[0] == 0x67 && ge[1] == 0x65 && lt[0] == 0x6C && lt[1] == 0x74 && le[0] == 0x6C && le[1] == 0x65;
    assert eq[0] == 0x65 && Ascii("or")[0] == 0x6F && |Ascii("and")| == 3;
  }

  /** The order of the reals with the infinities at its ends; a NaN is nowhere in it. */
  predicate IsAbove(a: Double, b: Double) {
    && a != NaN && b != NaN && a != b
    && (a == Infinite(false) || b == Infinite(true) || (a.Finite? && b.Finite? && a.value > b.value))
  }

  /** Evaluating three tokens: a comparison of numbers is that of their order; of anything else, that of texts. */
  lemma ComparisonOfNumbers(num: Numbers, c: Candidate, word: Text, sign: Text, right: Text, a: Double, b: Double)
    requires KindOf(word) == Word && c(word).Some? && c(word).value.text.Some?
    requires num(c(word).value.text.value) == Some(a) && num(right) == Some(b)
    ensures var r, same := ExprAt(num, c, [word, sign, right], 0), a == b && a != NaN;
            && (sign == Ascii("gt") ==> r == Value(Some(IsAbove(a, b)), 3))
            && (sign == Ascii("ge") ==> r == Value(Some(IsAbove(a, b) || same), 3))
            && (sign == Ascii("lt") ==> r == Value(Some(IsAbove(b, a)), 3))
            && (sign == Ascii("le") ==> r == Value(Some(IsAbove(b, a) || same), 3))
            && (sign == Ascii("eq") ==> r == Value(Some(c(word).value.text.value == right), 3))
            && (sign == Ascii("ne") ==> r == Value(Some(c(word).value.text.value != right), 3))
  {
    hide KindOf, ExprAt, Holds, IsAbove;
    ThreeTokens(num, c, word, sign, right);
    ComparisonWords(sign);
    HoldsInOrder(a, b);
  }

  lemma HoldsInOrder(a: Double, b: Double)
    ensures Holds(GT, a, b) == IsAbove(a, b) && Holds(GE, a, b) == (IsAbove(a, b) || (a == b && a != NaN))
    ensures Holds(LT, a, b) == IsAbove(b, a) && Holds(LE, a, b) == (IsAbove(b, a) || (a == b && a != NaN))
  {
  }

  lemma ThreeTokens(num: Numbers, c: Candidate, word: Text, sign: Text, right: Text)
    requires KindOf(word) == Word
    ensures KindOf(sign).Comparison? ==>
              var v := Compared(num, c(word), KindOf(sign).op, right, 3);
              ExprAt(num, c, [word, sign, right], 0) == if v.Value? then Value(Some(Collapse(v.v)), 3) else v
  {
    hide KindOf;
    var ts := [word, sign, right];
    if KindOf(sign).Comparison? {
      assert BoolAt(num, c, ts, 0) == OperandAt(num, c, ts, word, 1);
    }
  }

  /**
   * A token "not" is the name of an operand if an operator, a comparison or a right parenthesis comes next, and negates
   * whatever comes next otherwise; at the end it is an error.
   */
  lemma {:induction false} NotAsName(num: Numbers, c: Candidate, next: Text, rest: seq<Text>)
    ensures BoolAt(num, c, [Ascii("not")], 0) == Stuck(NullPointer, 1)
    ensures var ts, named := [Ascii("not"), next] + rest, c(Ascii("not"));
            var r := BoolAt(num, c, ts, 0);
            if next in {Ascii("and"), Ascii("or"), Ascii(")")} then
              r == if named.None? then Value(None, 1)
                   else if named.value.truth.Some? then Value(named.value.truth, 1)
                   else Stuck(ValueThrows, 1)
            else if next in {Ascii("eq"), Ascii("ne"), Ascii("gt"), Ascii("ge"), Ascii("lt"), Ascii("le")} then
              r == if rest == [] then Stuck(MoreExpected, 2) else Compared(num, named, KindOf(next).op, rest[0], 3)
            else
              match BoolAt(num, c, ts, 1)
              case Stuck(p, j) => r == Stuck(p, j)
              case Value(v, j) => r == Value(if v.None? then None else Some(!v.value), j)
  {
    hide KindOf, Compared;
    NotKind(next);
    ComparisonWords(next);
    EveryComparison(next);
    var ts, one := [Ascii("not"), next] + rest, [Ascii("not")];
    assert ts[0] == NOT && ts[1] == next && (rest != [] ==> ts[2] == rest[0]);
    assert one[0] == NOT;
    if NotIsOperand(next) {
      assert BoolAt(num, c, ts, 0) == OperandAt(num, c, ts, NOT, 1);
    } else {
      assert NotIsOperand(ts[1]) == NotIsOperand(next);
    }
  }

  lemma EveryComparison(sign: Text)
    ensures KindOf(sign).Comparison? <==>
              sign in {Ascii("eq"), Ascii("ne"), Ascii("gt"), Ascii("ge"), Ascii("lt"), Ascii("le")}
  {
    hide KindOf;
    ComparisonWords(sign);
    if KindOf(sign).Comparison? {
      match KindOf(sign).op {
        case EQ => case NE => case GT => case GE => case LT => case LE =>
      }
    }
  }

  lemma NotKind(next: Text)
    ensures KindOf(Ascii("not")) == NotWord
    ensures KindOf(next) == AndWord <==> next == Ascii("and")
    ensures KindOf(next) == OrWord <==> next == Ascii("or")
    ensures KindOf(next) == Close <==> next == Ascii(")")
  {
    assert Ascii("not")[0] == 0x6E && Ascii("and")[0] == 0x61 && |Ascii("or")| == 2 && Ascii(")") == [RPAREN];
    assert Ascii("or")[0] == 0x6F;
  }

  // ----- writing an expression as tokens -----

  const AND: Text := Ascii("and")
  const OR: Text := Ascii("or")
  const NOT: Text := Ascii("not")

  lemma KeywordKinds()
    ensures KindOf(AND) == AndWord && KindOf(OR) == OrWord && KindOf(NOT) == NotWord
    ensures KindOf([LPAREN]) == Open && KindOf([RPAREN]) == Close
  {
    assert AND[0] == 0x61 && NOT[0] == 0x6E;
  }

  function Tokens(e: Exp): seq<Text> {
    match e
    case Operand(word) => [word]
    case Compare(word, _, sign, right) => [word, sign, right]
    case Not(a) => [NOT] + Tokens(a)
    case Group(a) => [[LPAREN]] + Tokens(a) + [[RPAREN]]
    case And(l, r) => Tokens(l) + [AND] + Tokens(r)
    case Or(l, r) => Tokens(l) + [OR] + Tokens(r)
  }

  predicate PlainWord(w: Text) {
    KindOf(w) != Open && KindOf(w) != NotWord
  }

  /**
   * The words of the expression read as what they are: an operand is no parenthesis and no "not", the sign of a
   * comparison is its sign, and a directly negated operand is no operator, which would make "not" itself an operand.
   */
  predicate Writable(e: Exp) {
    match e
    case Operand(word) => PlainWord(word)
    case Compare(word, op, sign, _) => PlainWord(word) && KindOf(sign) == Comparison(op)
    case Not(a) => Writable(a) && (a.Operand? || a.Compare? ==> !NotIsOperand(a.word))
    case Group(a) => Writable(a)
    case And(l, r) => Writable(l) && Writable(r)
    case Or(l, r) => Writable(l) && Writable(r)
  }

  /** What may follow a whole expression: nothing, or a closing parenthesis. */
  predicate EndsExpr(ts: seq<Text>, j: nat) {
    j <= |ts| && (j < |ts| ==> KindOf(ts[j]) == Close)
  }

  /** What may follow an operand. */
  predicate EndsBool(ts: seq<Text>, j: nat) {
    j <= |ts| && (j < |ts| ==> KindOf(ts[j]) == Close || KindOf(ts[j]) == AndWord || KindOf(ts[j]) == OrWord)
  }

  /** The expression's tokens stand in `ts` from `i` to `j`. */
  predicate StandsAt(e: Exp, ts: seq<Text>, i: nat, j: nat) {
    i <= j <= |ts| && ts[i..j] == Tokens(e)
  }

  lemma SliceParts(ts: seq<Text>, i: nat, j: nat, a: seq<Text>, b: seq<Text>)
    requires i <= j <= |ts| && ts[i..j] == a + b
    ensures i + |a| + |b| == j && ts[i..i + |a|] == a && ts[i + |a|..j] == b
  {
    assert |ts[i..j]| == j - i;
    assert ts[i..i + |a|] == ts[i..j][..|a|];
    assert ts[i + |a|..j] == ts[i..j][|a|..];
  }

  /** The tokens of a binary expression: its left side, its word, its right side. */
  lemma BinaryParts(ts: seq<Text>, i: nat, j: nat, l: seq<Text>, word: Text, r: seq<Text>)
    requires i <= j <= |ts| && ts[i..j] == l + [word] + r
    ensures var k := i + |l|; k + 1 + |r| == j && ts[i..k] == l && k < |ts| && ts[k] == word && ts[k + 1..j] == r
  {
    SliceParts(ts, i, j, l + [word], r);
    SliceParts(ts, i, i + |l| + 1, l, [word]);
    assert ts[i + |l|] == ts[i + |l|..i + |l| + 1][0];
  }

  lemma {:induction false} OperandIsRead(w: Text, ts: seq<Text>, i: nat)
    requires PlainWord(w) && i < |ts| && ts[i] == w && EndsBool(ts, i + 1)
    ensures ParseBool(ts, i) == Tree(Operand(w), i + 1)
  {
    hide KindOf;
  }

  lemma CompareIsRead(w: Text, op: Op, sign: Text, right: Text, ts: seq<Text>, i: nat)
    requires PlainWord(w) && KindOf(sign) == Comparison(op)
    requires i + 2 < |ts| && ts[i] == w && ts[i + 1] == sign && ts[i + 2] == right
    ensures ParseBool(ts, i) == Tree(Compare(w, op, sign, right), i + 3)
  {
    hide KindOf;
  }

  lemma NotIsRead(e: Exp, ts: seq<Text>, i: nat, j: nat)
    requires i + 1 < |ts| && ts[i] == NOT && !NotIsOperand(ts[i + 1]) && ParseBool(ts, i + 1) == Tree(e, j)
    ensures ParseBool(ts, i) == Tree(Not(e), j)
  {
    hide KindOf;
    KeywordKinds();
  }

  lemma {:induction false} GroupIsRead(e: Exp, ts: seq<Text>, i: nat, j: nat)
    requires i < |ts| && ts[i] == [LPAREN] && ParseExpr(ts, i + 1) == Tree(e, j) && j < |ts| && ts[j] == [RPAREN]
    ensures ParseBool(ts, i) == Tree(Group(e), j + 1)
  {
    hide KindOf, ParseExpr;
    KeywordKinds();
  }

  /** What stands first in a tight expression makes a "not" before it an operator. */
  lemma {:induction false} FirstToken(a: Exp)
    requires Writable(Not(a)) && Rank(a) == 0
    ensures Tokens(a) != [] && !NotIsOperand(Tokens(a)[0])
  {
    hide KindOf;
    KeywordKinds();
  }

  lemma {:induction false} BoolIsRead(e: Exp, ts: seq<Text>, i: nat, j: nat)
    requires Shaped(e) && Writable(e) && Rank(e) == 0 && StandsAt(e, ts, i, j) && EndsBool(ts, j)
    ensures ParseBool(ts, i) == Tree(e, j)
    decreases e, 0
  {
    hide KindOf, ParseBool, ParseExpr, PlainWord, NotIsOperand;
    KeywordKinds();
    match e
    case Operand(w) =>
      assert ts[i] == ts[i..j][0];
      OperandIsRead(w, ts, i);
    case Compare(w, op, sign, right) =>
      assert ts[i] == ts[i..j][0] && ts[i + 1] == ts[i..j][1] && ts[i + 2] == ts[i..j][2];
      CompareIsRead(w, op, sign, right, ts, i);
    case Not(a) =>
      SliceParts(ts, i, j, [NOT], Tokens(a));
      FirstToken(a);
      assert ts[i] == ts[i..i + 1][0] && ts[i + 1] == ts[i + 1..j][0];
      BoolIsRead(a, ts, i + 1, j);
      NotIsRead(a, ts, i, j);
    case Group(a) =>
      SliceParts(ts, i, j, [[LPAREN]] + Tokens(a), [[RPAREN]]);
      SliceParts(ts, i, j - 1, [[LPAREN]], Tokens(a));
      assert ts[i] == ts[i..i + 1][0] && ts[j - 1] == ts[j - 1..j][0];
      ExprIsRead(a, ts, i + 1, j - 1);
      GroupIsRead(a, ts, i, j - 1);
  }

  /** A conjunction is read by the loop with the reading so far as its left side. */
  lemma {:induction false} ConjunctionIsRead(e: Exp, ts: seq<Text>, i: nat, j: nat)
    requires Shaped(e) && Writable(e) && Rank(e) <= 1 && StandsAt(e, ts, i, j) && EndsBool(ts, j)
    ensures ParseExpr(ts, i) == ParseLoop(ts, j, e)
    decreases e, 1
  {
    hide KindOf;
    KeywordKinds();
    if e.And? {
      BinaryParts(ts, i, j, Tokens(e.left), AND, Tokens(e.right_));
      var k := i + |Tokens(e.left)|;
      ConjunctionIsRead(e.left, ts, i, k);
      BoolIsRead(e.right_, ts, k + 1, j);
    } else {
      BoolIsRead(e, ts, i, j);
    }
  }

  /** The tokens of an expression are read as that expression, wherever they stand. */
  lemma {:induction false} ExprIsRead(e: Exp, ts: seq<Text>, i: nat, j: nat)
    requires Shaped(e) && Writable(e) && StandsAt(e, ts, i, j) && EndsExpr(ts, j)
    ensures ParseExpr(ts, i) == Tree(e, j)
    decreases e, 2
  {
    hide KindOf;
    KeywordKinds();
    if e.Or? {
      BinaryParts(ts, i, j, Tokens(e.left), OR, Tokens(e.right_));
      var k := i + |Tokens(e.left)|;
      ConjunctionIsRead(e.left, ts, i, k);
      ExprIsRead(e.right_, ts, k + 1, j);
    } else {
      ConjunctionIsRead(e, ts, i, j);
    }
  }

  // ----- every accepted token list is the writing of an expression -----

  lemma {:induction false} BoolIsWritten(ts: seq<Text>, i: nat)
    requires i <= |ts| && ParseBool(ts, i).Tree?
    ensures var p := ParseBool(ts, i); Shaped(p.e) && Rank(p.e) == 0 && ts[i..p.next] == Tokens(p.e)
    decreases |ts| - i, 0
  {
    hide KindOf;
    var p := ParseBool(ts, i);
    if KindOf(ts[i]) == Open {
      ExprIsWritten(ts, i + 1);
      var q := ParseExpr(ts, i + 1);
      KindsAreFaithful(ts[i]);
      KindsAreFaithful(ts[q.next]);
      EnclosedSlice(ts, i, q.next);
    } else if KindOf(ts[i]) == NotWord && !NotIsOperand(ts[i + 1]) {
      BoolIsWritten(ts, i + 1);
      KindsAreFaithful(ts[i]);
      assert ts[i..p.next] == [ts[i]] + ts[i + 1..p.next];
    } else {
      OperandIsWritten(ts, i);
    }
  }

  lemma EnclosedSlice(ts: seq<Text>, i: nat, k: nat)
    requires i < k < |ts|
    ensures ts[i..k + 1] == [ts[i]] + ts[i + 1..k] + [ts[k]]
  {
  }

  lemma OperandIsWritten(ts: seq<Text>, i: nat)
    requires i < |ts| && ParseOperand(ts, ts[i], i + 1).Tree?
    ensures var p := ParseOperand(ts, ts[i], i + 1); Shaped(p.e) && Rank(p.e) == 0 && ts[i..p.next] == Tokens(p.e)
  {
    hide KindOf;
  }

  lemma JoinSlices(ts: seq<Text>, i: nat, k: nat, j: nat)
    requires i <= k < j <= |ts|
    ensures ts[i..j] == ts[i..k] + [ts[k]] + ts[k + 1..j]
  {
  }

  lemma KindsAreFaithful(t: Text)
    ensures KindOf(t) == Open ==> t == [LPAREN]
    ensures KindOf(t) == Close ==> t == [RPAREN]
    ensures KindOf(t) == NotWord ==> t == NOT
    ensures KindOf(t) == AndWord ==> t == AND
    ensures KindOf(t) == OrWord ==> t == OR
  {
  }

  lemma {:induction false} ExprIsWritten(ts: seq<Text>, i: nat)
    requires i <= |ts| && ParseExpr(ts, i).Tree?
    ensures var p := ParseExpr(ts, i); Shaped(p.e) && ts[i..p.next] == Tokens(p.e) && EndsExpr(ts, p.next)
    decreases |ts| - i, 1
  {
    BoolIsWritten(ts, i);
    var p := ParseBool(ts, i);
    LoopIsWritten(ts, i, p.next, p.e);
  }

  lemma {:induction false} LoopIsWritten(ts: seq<Text>, start: nat, i: nat, e: Exp)
    requires start <= i <= |ts| && Shaped(e) && ts[start..i] == Tokens(e) && ParseLoop(ts, i, e).Tree?
    requires Rank(e) <= 1 || EndsExpr(ts, i)
    ensures var p := ParseLoop(ts, i, e); Shaped(p.e) && ts[start..p.next] == Tokens(p.e) && EndsExpr(ts, p.next)
    decreases |ts| - i, 2
  {
    hide KindOf;
    if i < |ts| {
      KindsAreFaithful(ts[i]);
      if KindOf(ts[i]) == AndWord {
        BoolIsWritten(ts, i + 1);
        var p := ParseBool(ts, i + 1);
        JoinSlices(ts, start, i, p.next);
        LoopIsWritten(ts, start, p.next, And(e, p.e));
      } else if KindOf(ts[i]) == OrWord {
        ExprIsWritten(ts, i + 1);
        var p := ParseExpr(ts, i + 1);
        JoinSlices(ts, start, i, p.next);
        LoopIsWritten(ts, start, p.next, Or(e, p.e));
      }
    }
  }

  /** Whatever tokens the evaluator accepts, its verdict is the Boolean meaning of the expression they spell out. */
  lemma {:induction false} AcceptedMeansExpression(num: Numbers, c: Candidate, ts: seq<Text>)
    requires Accepts(num, c, ts)
    ensures var r, p := ExprAt(num, c, ts, 0), ParseExpr(ts, 0);
            && p.Tree? && Shaped(p.e) && ts[..r.next] == Tokens(p.e) && EndsExpr(ts, r.next)
            && r.v == Some(Meaning(num, c, p.e))
  {
    EvaluatesTheExpression(num, c, ts, 0);
    ExprIsWritten(ts, 0);
    ValueIsMeaning(num, c, ParseExpr(ts, 0).e);
  }

  // ----- any expression can be written -----

  /** Adding the parentheses an expression needs. */
  function Parenthesized(e: Exp): Exp {
    match e
    case Operand(_) => e
    case Compare(_, _, _, _) => e
    case Not(a) => Not(Within(Parenthesized(a), 0))
    case Group(a) => Group(Parenthesized(a))
    case And(l, r) => And(Within(Parenthesized(l), 1), Within(Parenthesized(r), 0))
    case Or(l, r) => Or(Within(Parenthesized(l), 1), Parenthesized(r))
  }

  function Within(e: Exp, rank: nat): Exp {
    if Rank(e) <= rank then e else Group(e)
  }

  lemma {:induction false} ParenthesizedMeansTheSame(num: Numbers, c: Candidate, e: Exp)
    ensures Shaped(Parenthesized(e)) && Rank(Parenthesized(e)) == Rank(e)
    ensures Meaning(num, c, Parenthesized(e)) == Meaning(num, c, e)
    ensures Unknown(num, c, Parenthesized(e)) == Unknown(num, c, e)
    ensures OrderedSides(Parenthesized(e)) == OrderedSides(e)
    ensures Writable(e) ==> Writable(Parenthesized(e))
  {
    match e
    case Operand(_) =>
    case Compare(_, _, _, _) =>
    case Not(a) => ParenthesizedMeansTheSame(num, c, a);
    case Group(a) => ParenthesizedMeansTheSame(num, c, a);
    case And(l, r) =>
      ParenthesizedMeansTheSame(num, c, l);
      ParenthesizedMeansTheSame(num, c, r);
    case Or(l, r) =>
      ParenthesizedMeansTheSame(num, c, l);
      ParenthesizedMeansTheSame(num, c, r);
  }

  /** The tokens that write any expression. */
  function Written(e: Exp): seq<Text> {
    Tokens(Parenthesized(e))
  }

  /** Writing any expression down and evaluating the tokens on any candidate gives its Boolean meaning. */
  lemma {:induction false} WrittenMeansMeaning(num: Numbers, c: Candidate, e: Exp)
    requires Writable(e) && Total(c) && AllNumeric(num, OrderedSides(e))
    ensures ExprAt(num, c, Written(e), 0) == Value(Some(Meaning(num, c, e)), |Written(e)|)
  {
    var p, ts := Parenthesized(e), Written(e);
    ParenthesizedMeansTheSame(num, c, e);
    assert ts[0..|ts|] == ts;
    ExprIsRead(p, ts, 0, |ts|);
    NumericSidesNeverThrow(num, c, p);
    EvaluatesTheExpression(num, c, ts, 0);
    ValueIsMeaning(num, c, p);
  }
}
