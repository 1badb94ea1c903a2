/**
 * Evaluating a 'filter' query parameter, token by token (data/Context.java, doFilterExpression and its helpers).
 *
 * The evaluator works directly on the tokens through an index.  The functions below give, for a candidate and a
 * starting index, the value it computes or the problem it throws, and the index it reaches; the class is the
 * evaluator itself.  What the tokens mean as an expression is the subject of module FilterMeaning.
 */
module Filters {
  import opened CodeUnits
  import opened DataTree

  datatype Op = EQ | NE | GT | GE | LT | LE

  /** What a token can be for the evaluator. */
  datatype Kind = Open | Close | AndWord | OrWord | NotWord | Comparison(op: Op) | Word

  function KindOf(token: Text): Kind {
    if token == [LPAREN] then Open
    else if token == [RPAREN] then Close
    else if token == Ascii("and") then AndWord
    else if token == Ascii("or") then OrWord
    else if token == Ascii("not") then NotWord
    else if token == Ascii("eq") then Comparison(EQ)
    else if token == Ascii("ne") then Comparison(NE)
    else if token == Ascii("gt") then Comparison(GT)
    else if token == Ascii("ge") then Comparison(GE)
    else if token == Ascii("lt") then Comparison(LT)
    else if token == Ascii("le") then Comparison(LE)
    else Word
  }

  /** A parsed double; only comparisons are made with it. */
  datatype Double = NaN | Infinite(negative: bool) | Finite(value: real)

  predicate Less(a: Double, b: Double) {
    match (a, b)
    case (NaN, _) => false
    case (_, NaN) => false
    case (Infinite(m), Infinite(n)) => m && !n
    case (Infinite(m), Finite(_)) => m
    case (Finite(_), Infinite(n)) => !n
    case (Finite(x), Finite(y)) => x < y
  }

  predicate Holds(op: Op, a: Double, b: Double) {
    match op
    case GT => Less(b, a)
    case GE => Less(b, a) || (a == b && a != NaN)
    case LT => Less(a, b)
    case LE => Less(a, b) || (a == b && a != NaN)
    case EQ => false
    case NE => false
  }

  predicate IsOrdering(op: Op) {
    op != EQ && op != NE
  }

  /** A data item a left-hand token evaluates to; `None` where the accessor throws. */
  datatype Item = Item(text: Option<Text>, truth: Option<bool>)

  /** The candidate, as far as a filter can see it: what each left-hand token evaluates to under it, if anything. */
  type Candidate = Text -> Option<Item>

  /** `Double.parseDouble`; `None` where it throws. */
  type Numbers = Text -> Option<Double>

  datatype Problem = MoreExpected | UnexpectedOperation | MissingParen | NullPointer | NotANumber | ValueThrows

  /** Problems that depend on the candidate or on what counts as a number, not on the order of the tokens. */
  predicate IsLate(p: Problem) {
    p == NotANumber || p == ValueThrows
  }

  /** Null, true or false at the next index to read, or a problem at the index reached. */
  datatype Eval = Value(v: Option<bool>, next: nat) | Stuck(problem: Problem, next: nat)

  function Peek(ts: seq<Text>, i: nat): Option<Text> {
    if i < |ts| then Some(ts[i]) else None
  }

  function Negated(v: Option<bool>): Option<bool> {
    match v
    case Some(b) => Some(!b)
    case None => None
  }

  function AndLogic(l: Option<bool>, r: Option<bool>): Option<bool> {
    if l.None? && r.None? then None
    else if l.None? || r.None? then Some(false)
    else Some(l.value && r.value)
  }

  function OrLogic(l: Option<bool>, r: Option<bool>): Option<bool> {
    if l.None? then r
    else if r.None? then l
    else Some(l.value || r.value)
  }

  function Collapse(v: Option<bool>): bool {
    v.Some? && v.value
  }

  /** The value of an operand standing alone. */
  function TruthOf(item: Option<Item>, next: nat): Eval {
    match item
    case None => Value(None, next)
    case Some(found) => if found.truth.Some? then Value(found.truth, next) else Stuck(ValueThrows, next)
  }

  function Compared(num: Numbers, item: Option<Item>, op: Op, right: Text, next: nat): Eval {
    if item.None? then Value(None, next)
    else if item.value.text.None? then Stuck(ValueThrows, next)
    else
      var left := item.value.text.value;
      if op == EQ then Value(Some(left == right), next)
      else if op == NE then Value(Some(left != right), next)
      else if num(left).None? then Value(None, next)
      else if num(right).None? then Stuck(NotANumber, next)
      else Value(Some(Holds(op, num(left).value, num(right).value)), next)
  }

  /** After the operand `left`, whose follower is at `j`. */
  function OperandAt(num: Numbers, c: Candidate, ts: seq<Text>, left: Text, j: nat): (r: Eval)
    requires j <= |ts|
    ensures j <= r.next <= |ts|
  {
    match Peek(ts, j)
    case None => TruthOf(c(left), j)
    case Some(next) =>
      match KindOf(next)
      case Comparison(op) =>
        if j + 1 < |ts| then Compared(num, c(left), op, ts[j + 1], j + 2) else Stuck(MoreExpected, j + 1)
      case AndWord => TruthOf(c(left), j)
      case OrWord => TruthOf(c(left), j)
      case Close => TruthOf(c(left), j)
      case _ => Stuck(UnexpectedOperation, j)
  }

  /** "not" is an operand when what follows can only follow an operand. */
  predicate NotIsOperand(next: Text) {
    match KindOf(next)
    case AndWord => true
    case OrWord => true
    case Comparison(_) => true
    case Close => true
    case _ => false
  }

  function BoolAt(num: Numbers, c: Candidate, ts: seq<Text>, i: nat): (r: Eval)
    requires i <= |ts|
    ensures i <= r.next <= |ts| && (r.Value? ==> i < r.next)
    decreases |ts| - i, 0
  {
    if i == |ts| then Stuck(MoreExpected, i)
    else if KindOf(ts[i]) == Open then
      match ExprAt(num, c, ts, i + 1)
      case Stuck(p, j) => Stuck(p, j)
      case Value(v, j) =>
        if j == |ts| then Stuck(MoreExpected, j)
        else if KindOf(ts[j]) != Close then Stuck(MissingParen, j + 1)
        else Value(v, j + 1)
    else if KindOf(ts[i]) == NotWord && i + 1 == |ts| then Stuck(NullPointer, i + 1)
    else if KindOf(ts[i]) == NotWord && !NotIsOperand(ts[i + 1]) then
      match BoolAt(num, c, ts, i + 1)
      case Stuck(p, j) => Stuck(p, j)
      case Value(v, j) => Value(Negated(v), j)
    else OperandAt(num, c, ts, ts[i], i + 1)
  }

  function ExprAt(num: Numbers, c: Candidate, ts: seq<Text>, i: nat): (r: Eval)
    requires i <= |ts|
    ensures i <= r.next <= |ts| && (r.Value? ==> i < r.next && r.v.Some?)
    decreases |ts| - i, 1
  {
    match BoolAt(num, c, ts, i)
    case Stuck(p, j) => Stuck(p, j)
    case Value(v, j) => LoopAt(num, c, ts, j, v)
  }

  /** The loop of `doFilterExpression`, with the result so far. */
  function LoopAt(num: Numbers, c: Candidate, ts: seq<Text>, i: nat, result: Option<bool>): (r: Eval)
    requires i <= |ts|
    ensures i <= r.next <= |ts| && (r.Value? ==> r.v.Some?)
    decreases |ts| - i, 2
  {
    if i == |ts| then Value(Some(Collapse(result)), i)
    else
      match KindOf(ts[i])
      case AndWord =>
        (match BoolAt(num, c, ts, i + 1)
         case Stuck(p, j) => Stuck(p, j)
         case Value(right, j) => LoopAt(num, c, ts, j, AndLogic(result, right)))
      case OrWord =>
        (match ExprAt(num, c, ts, i + 1)
         case Stuck(p, j) => Stuck(p, j)
         case Value(right, j) => LoopAt(num, c, ts, j, OrLogic(result, right)))
      case Close => Value(Some(Collapse(result)), i)
      case _ => Stuck(UnexpectedOperation, i)
  }

  datatype Outcome<+T> = Done(value: T) | Thrown(problem: Problem)

  predicate Delivers(out: Outcome<Option<bool>>, index: nat, spec: Eval) {
    match spec
    case Value(v, next) => out == Done(v) && index == next
    case Stuck(p, next) => out == Thrown(p) && index == next
  }

  /** The filtering part of a query context. */
  class FilterContext {
    const numbers: Numbers
    const filterFilter: Option<seq<Text>>
    var filterIndex: nat
    var filterCandidate: Candidate
    var curDepth: int

    ghost predicate Ready()
      reads this`filterIndex
    {
      filterFilter.Some? && filterIndex <= |filterFilter.value|
    }

    constructor (numbers: Numbers, filter: Option<seq<Text>>, candidate: Candidate)
      ensures this.numbers == numbers && filterFilter == filter && filterIndex == 0 && curDepth == 0
      ensures filterCandidate == candidate
    {
      this.numbers, filterFilter, filterIndex, filterCandidate, curDepth := numbers, filter, 0, candidate, 0;
    }

    function Tokens(): seq<Text>
      requires filterFilter.Some?
    {
      filterFilter.value
    }

    method GetToken() returns (token: Option<Text>)
      requires Ready()
      modifies this`filterIndex
      ensures Ready() && token == Peek(Tokens(), old(filterIndex))
      ensures filterIndex == if token.Some? then old(filterIndex) + 1 else old(filterIndex)
    {
      if filterIndex < |Tokens()| {
        token := Some(Tokens()[filterIndex]);
        filterIndex := filterIndex + 1;
      } else {
        token := None; // the caller throws "Expected more"
      }
    }

    method PeekToken() returns (token: Option<Text>)
      requires Ready()
      ensures token == Peek(Tokens(), filterIndex)
    {
      token := if filterIndex < |Tokens()| then Some(Tokens()[filterIndex]) else None;
    }

    method DoFilterExpression() returns (out: Outcome<Option<bool>>)
      requires Ready()
      modifies this`filterIndex
      ensures Ready() && Delivers(out, filterIndex, ExprAt(numbers, filterCandidate, Tokens(), old(filterIndex)))
      decreases |Tokens()| - filterIndex, 1
    {
      out := DoBoolExp();
      if out.Thrown? {
        return;
      }
      out := DoOperations(out.value);
    }

    /** The loop over "and" and "or". */
    method DoOperations(first: Option<bool>) returns (out: Outcome<Option<bool>>)
      requires Ready()
      modifies this`filterIndex
      ensures Ready() && Delivers(out, filterIndex, LoopAt(numbers, filterCandidate, Tokens(), old(filterIndex), first))
      decreases |Tokens()| - filterIndex, 3
    {
      hide BoolAt, ExprAt, OperandAt;
      var result := first;
      ghost var goal := LoopAt(numbers, filterCandidate, Tokens(), filterIndex, result);
      var nextToken := PeekToken();
      while nextToken.Some?
        invariant Ready() && filterIndex >= old(filterIndex)
        invariant nextToken == Peek(Tokens(), filterIndex)
        invariant LoopAt(numbers, filterCandidate, Tokens(), filterIndex, result) == goal
        decreases |Tokens()| - filterIndex
      {
        var kind := KindOf(nextToken.value);
        if kind == AndWord || kind == OrWord {
          var _ := GetToken();
          if kind == AndWord {
            out := DoAnd(result);
          } else {
            out := DoOr(result);
          }
          if out.Thrown? {
            return;
          }
          result := out.value;
        } else if kind == Close {
          break;
        } else {
          return Thrown(UnexpectedOperation);
        }
        nextToken := PeekToken();
      }
      out := Done(Some(if result.None? then false else result.value));
    }

    method DoBoolExp() returns (out: Outcome<Option<bool>>)
      requires Ready()
      modifies this`filterIndex
      ensures Ready() && Delivers(out, filterIndex, BoolAt(numbers, filterCandidate, Tokens(), old(filterIndex)))
      decreases |Tokens()| - filterIndex, 0
    {
      var leftToken := GetToken();
      if leftToken.None? {
        return Thrown(MoreExpected);
      }
      var nextToken := PeekToken();
      if KindOf(leftToken.value) == Open {
        out := DoParen();
      } else if KindOf(leftToken.value) == NotWord && nextToken.None? {
        out := Thrown(NullPointer);
      } else if KindOf(leftToken.value) == NotWord && !NotIsOperand(nextToken.value) {
        out := DoBoolExp();
        if out.Done? {
          out := Done(Negated(out.value));
        }
      } else {
        out := DoOperand(filterCandidate(leftToken.value), leftToken.value);
      }
    }

    /** The last branch of `doBoolExp`: an operand and the comparison that may follow it. */
    method DoOperand(leftData: Option<Item>, ghost leftToken: Text) returns (out: Outcome<Option<bool>>)
      requires Ready() && leftData == filterCandidate(leftToken)
      modifies this`filterIndex
      ensures Ready()
      ensures Delivers(out, filterIndex, OperandAt(numbers, filterCandidate, Tokens(), leftToken, old(filterIndex)))
    {
      var nextToken := PeekToken();
      if nextToken.Some? {
        match KindOf(nextToken.value)
        case Comparison(op) =>
          var _ := GetToken();
          out := DoCompOp(leftData, op);
          return;
        case AndWord =>
        case OrWord =>
        case Close =>
        case _ =>
          return Thrown(UnexpectedOperation);
      }
      if leftData.None? {
        out := Done(None);
      } else if leftData.value.truth.None? {
        out := Thrown(ValueThrows);
      } else {
        out := Done(leftData.value.truth);
      }
    }

    method DoParen() returns (out: Outcome<Option<bool>>)
      requires Ready() && filterIndex > 0 && KindOf(Tokens()[filterIndex - 1]) == Open
      modifies this`filterIndex
      ensures Ready() && Delivers(out, filterIndex, BoolAt(numbers, filterCandidate, Tokens(), old(filterIndex) - 1))
      decreases |Tokens()| - filterIndex, 2
    {
      out := DoFilterExpression();
      if out.Thrown? {
        return;
      }
      var close := GetToken();
      if close.None? {
        return Thrown(MoreExpected);
      }
      if KindOf(close.value) != Close {
        return Thrown(MissingParen);
      }
    }

    method DoCompOp(leftData: Option<Item>, op: Op) returns (out: Outcome<Option<bool>>)
      requires Ready()
      modifies this`filterIndex
      ensures Ready()
      ensures var i := old(filterIndex);
              if i == |Tokens()| then out == Thrown(MoreExpected) && filterIndex == i
              else Delivers(out, filterIndex, Compared(numbers, leftData, op, Tokens()[i], i + 1))
    {
      var rightToken := GetToken();
      if rightToken.None? {
        return Thrown(MoreExpected);
      }
      if leftData.None? {
        return Done(None);
      }
      if leftData.value.text.None? {
        return Thrown(ValueThrows);
      }
      var left := leftData.value.text.value;
      match op
      case EQ =>
        out := Done(Some(left == rightToken.value));
      case NE =>
        out := Done(Some(left != rightToken.value));
      case _ =>
        var leftDouble := numbers(left);
        if leftDouble.None? {
          return Done(None);
        }
        var rightDouble := numbers(rightToken.value);
        if rightDouble.None? {
          return Thrown(NotANumber);
        }
        out := Done(Some(Holds(op, leftDouble.value, rightDouble.value)));
    }

    method DoAnd(left: Option<bool>) returns (out: Outcome<Option<bool>>)
      requires Ready()
      modifies this`filterIndex
      ensures Ready()
      ensures match BoolAt(numbers, filterCandidate, Tokens(), old(filterIndex))
              case Value(right, j) =>
                && out == Done(if left.None? && right.None? then None else Some(left == Some(true) && right == Some(true)))
                && filterIndex == j
              case Stuck(p, j) => out == Thrown(p) && filterIndex == j
      decreases |Tokens()| - filterIndex, 2
    {
      out := DoBoolExp();
      if out.Done? {
        var right := out.value;
        out := Done(if left.None? && right.None? then None
                    else if left.None? || right.None? then Some(false)
                    else Some(left.value && right.value));
      }
    }

    method DoOr(left: Option<bool>) returns (out: Outcome<Option<bool>>)
      requires Ready()
      modifies this`filterIndex
      ensures Ready()
      ensures match ExprAt(numbers, filterCandidate, Tokens(), old(filterIndex))
              case Value(right, j) =>
                && out == Done(if left.None? && right.None? then None else Some(left == Some(true) || right == Some(true)))
                && filterIndex == j
              case Stuck(p, j) => out == Thrown(p) && filterIndex == j
      decreases |Tokens()| - filterIndex, 2
    {
      out := DoFilterExpression();
      if out.Done? {
        var right := out.value;
        out := Done(if left.None? && right.None? then None
                    else if left.None? then right
                    else if right.None? then left
                    else Some(left.value || right.value));
      }
    }

    /** The syntax check made once, on an empty collection standing in for the candidates. */
    method CheckFilterExpression(stand: Candidate) returns (out: Outcome<Option<bool>>)
      requires Ready()
      modifies this`filterIndex, this`filterCandidate
      ensures Ready() && filterCandidate == stand
      ensures Delivers(out, filterIndex, ExprAt(numbers, stand, Tokens(), old(filterIndex)))
    {
      filterCandidate := stand;
      out := DoFilterExpression();
    }

    /** The verdict on one candidate; a thrown problem "snuck through the initial check". */
    method IsFiltered(candidate: Candidate) returns (out: Outcome<bool>)
      modifies this`filterIndex, this`filterCandidate
      ensures if curDepth > 1 || filterFilter.None? then out == Done(true) && unchanged(this)
              else match ExprAt(numbers, candidate, Tokens(), 0)
                   case Value(v, j) => out == Done(Collapse(v)) && filterIndex == j && filterCandidate == candidate
                   case Stuck(p, j) => out == Thrown(p) && filterIndex == j && filterCandidate == candidate
    {
      if curDepth > 1 || filterFilter.None? {
        return Done(true);
      }
      filterIndex := 0;
      filterCandidate := candidate;
      var verdict := DoFilterExpression();
      out := if verdict.Done? then Done(verdict.value.value) else Thrown(verdict.problem);
    }
  }
}
