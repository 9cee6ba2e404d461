/** When the folder answers: the allowlist, stated through evaluation alone. */
module FoldCompleteness {
  import opened Options
  import opened ConstantFold

  // ---- the allowlist -------------------------------------------------------------

  /** A string of at most 4096 characters. */
  predicate IsShort(v: Option<Value>) {
    v.Some? && v.value.Str? && |v.value.s| <= 4096
  }

  /** A value `str` is applied to; a bool is an int. */
  predicate IsTextual(v: Option<Value>) {
    v.Some? && (v.value.Str? || v.value.Int? || v.value.Bool?)
  }

  predicate IsPlainConstant(v: Value) {
    v.NoneValue? || v.Str? || v.Int? || v.Bool? || v.Float? || v.Bytes?
  }

  /** Somewhere a brace opens and, before any brace closes, a conversion or a
      specification begins. */
  predicate CarriesSpec(t: string) {
    exists i :: 0 <= i < |t| && t[i] == '{' && MarkedFrom(t, i + 1)
  }

  predicate MarkedFrom(t: string, i: nat)
    requires i <= |t|
    decreases |t| - i
  {
    i < |t| && t[i] != '}' && (t[i] == '!' || t[i] == ':' || MarkedFrom(t, i + 1))
  }

  /** The expressions of the allowlist whose evaluation stays within it. */
  ghost predicate Allowed(py: Python, e: Expr, shadowed: set<string>)
    decreases e
  {
    match e
    case Constant(v) => IsPlainConstant(v)
    case Joined(parts) =>
      (forall p :: p in parts ==> AllowedPart(py, p, shadowed)) && IsShort(Eval(py, e))
    case BinOp(Add, l, r) =>
      && Allowed(py, l, shadowed) && Allowed(py, r, shadowed)
      && IsShort(Eval(py, l)) && IsShort(Eval(py, r)) && IsShort(Eval(py, e))
    case BinOp(Mult, l, r) =>
      && Allowed(py, l, shadowed) && Allowed(py, r, shadowed)
      && TextTimesNumber(Eval(py, l), Eval(py, r)) && IsShort(Eval(py, e))
    case BinOp(Mod, l, r) =>
      && Allowed(py, l, shadowed) && Allowed(py, r, shadowed)
      && IsShort(Eval(py, l)) && IsShort(Eval(py, e))
    case BinOp(OtherOp(_), _, _) => false
    case ListDisplay(elts) => forall x :: x in elts ==> Allowed(py, x, shadowed)
    case TupleDisplay(elts) => forall x :: x in elts ==> Allowed(py, x, shadowed)
    case MethodCall(receiver, attr, args, keywords) =>
      && !keywords && Allowed(py, receiver, shadowed) && IsShort(Eval(py, e))
      && if attr == "join" then
           && IsShort(Eval(py, receiver)) && |args| == 1 && (args[0].ListDisplay? || args[0].TupleDisplay?)
           && forall x :: x in args[0].elts ==> Allowed(py, x, shadowed) && IsShort(Eval(py, x))
         else if attr == "format" then
           && IsShort(Eval(py, receiver)) && !CarriesSpec(Eval(py, receiver).value.s)
           && forall x :: x in args ==> Allowed(py, x, shadowed)
         else attr == "decode" && args == [] && Eval(py, receiver).Some? && Eval(py, receiver).value.Bytes?
    case NameCall(name, args, keywords) =>
      && !keywords && |args| == 1 && name !in shadowed && Allowed(py, args[0], shadowed)
      && (|| (name == "chr" && Eval(py, args[0]).Some? && Eval(py, args[0]).value.Int? && IsShort(Eval(py, e)))
          || (name == "str" && IsTextual(Eval(py, args[0])) && Eval(py, e).Some?))
    case OtherExpr(_) => false
  }

  /** Plain pieces only: short literals, and textual values written out. */
  ghost predicate AllowedPart(py: Python, p: Part, shadowed: set<string>)
    decreases p
  {
    match p
    case Literal(v) => v.Str? && |v.s| <= 4096
    case Formatted(e, plain) =>
      plain && Allowed(py, e, shadowed) && IsTextual(Eval(py, e)) && py.text(Eval(py, e).value).Some?
  }

  predicate TextTimesNumber(a: Option<Value>, b: Option<Value>) {
    a.Some? && b.Some? && ((a.value.Str? && b.value.Int?) || (a.value.Int? && b.value.Str?))
  }

  /** How deep the foldable expressions nest; the display a join takes is not
      a level of its own. */
  function Nesting(e: Expr): nat
    decreases e
  {
    match e
    case Joined(parts) => PartsNesting(parts)
    case BinOp(_, l, r) => 1 + Deeper(Nesting(l), Nesting(r))
    case ListDisplay(elts) => BelowNesting(elts)
    case TupleDisplay(elts) => BelowNesting(elts)
    case MethodCall(receiver, attr, args, _) =>
      Deeper(1 + Nesting(receiver),
             if attr == "join" && |args| == 1 && (args[0].ListDisplay? || args[0].TupleDisplay?)
             then BelowNesting(args[0].elts) else BelowNesting(args))
    case NameCall(_, args, _) => BelowNesting(args)
    case _ => 0
  }

  /** The nesting of a list of expressions, counted from their parent. */
  function BelowNesting(es: seq<Expr>): nat
    decreases es
  {
    if es == [] then 0 else Deeper(1 + Nesting(es[0]), BelowNesting(es[1..]))
  }

  function PartsNesting(parts: seq<Part>): nat
    decreases parts
  {
    if parts == [] then 0 else Deeper(PartNesting(parts[0]), PartsNesting(parts[1..]))
  }

  function PartNesting(p: Part): nat
    decreases p
  {
    match p
    case Literal(_) => 0
    case Formatted(e, _) => 1 + Nesting(e)
  }

  function Deeper(a: nat, b: nat): nat {
    if a < b then b else a
  }

  // ---- the folder answers exactly there ---------------------------------------------

  predicate MarkAt(t: string, i: int, j: int) {
    0 <= i <= j < |t| && (t[j] == '!' || t[j] == ':') && '}' !in t[i..j]
  }

  lemma {:induction false} MarkedExactly(t: string, i: nat)
    requires i <= |t|
    ensures MarkedFrom(t, i) <==> exists j :: MarkAt(t, i, j)
    decreases |t| - i
  {
    if i < |t| {
      MarkedExactly(t, i + 1);
      if j :| MarkAt(t, i, j) && i < j {
        assert t[i..j] == [t[i]] + t[i + 1..j];
        assert MarkAt(t, i + 1, j);
      }
      if MarkedFrom(t, i) && t[i] != '!' && t[i] != ':' {
        var j :| MarkAt(t, i + 1, j);
        assert t[i..j] == [t[i]] + t[i + 1..j];
        assert MarkAt(t, i, j);
      }
      assert t[i] == '!' || t[i] == ':' ==> MarkAt(t, i, i);
    }
  }

  lemma SpecExactly(t: string)
    ensures HasSpec(t) <==> CarriesSpec(t)
  {
    if HasSpec(t) {
      var i, j :| 0 <= i < j < |t| && t[i] == '{' && (t[j] == '!' || t[j] == ':') && '}' !in t[i + 1..j];
      assert MarkAt(t, i + 1, j);
      MarkedExactly(t, i + 1);
    }
    if CarriesSpec(t) {
      var i :| 0 <= i < |t| && t[i] == '{' && MarkedFrom(t, i + 1);
      MarkedExactly(t, i + 1);
    }
  }

  /** The folder answers exactly on the allowlist, as deep as its limit. */
  lemma {:induction false} FoldAnswersExactly(py: Python, e: Expr, shadowed: set<string>, depth: nat)
    requires Lawful(py) && Honest(py, shadowed)
    ensures Fold(py, e, shadowed, depth).Some? <==> depth + Nesting(e) <= 24 && Allowed(py, e, shadowed)
    decreases e, 1
  {
    if depth <= 24 {
      match e {
        case Joined(_) => JoinedAnswers(py, e, shadowed, depth);
        case BinOp(_, _, _) => BinOpAnswers(py, e, shadowed, depth);
        case ListDisplay(elts) => AllAnswer(py, elts, shadowed, depth + 1);
        case TupleDisplay(elts) => AllAnswer(py, elts, shadowed, depth + 1);
        case MethodCall(_, _, _, _) => MethodAnswers(py, e, shadowed, depth);
        case NameCall(_, _, _) => NameAnswers(py, e, shadowed, depth);
        case _ =>
      }
    }
  }

  lemma {:induction false} JoinedAnswers(py: Python, e: Expr, shadowed: set<string>, depth: nat)
    requires Lawful(py) && Honest(py, shadowed) && e.Joined? && depth <= 24
    ensures Fold(py, e, shadowed, depth).Some? <==> depth + Nesting(e) <= 24 && Allowed(py, e, shadowed)
    decreases e, 0
  {
    PartsAnswer(py, e.parts, shadowed, depth + 1);
    PartsSound(py, e.parts, shadowed, depth + 1);
  }

  lemma {:induction false} NameAnswers(py: Python, e: Expr, shadowed: set<string>, depth: nat)
    requires Lawful(py) && Honest(py, shadowed) && e.NameCall? && depth <= 24
    ensures Fold(py, e, shadowed, depth).Some? <==> depth + Nesting(e) <= 24 && Allowed(py, e, shadowed)
    decreases e, 0
  {
    if !e.keywords && |e.args| == 1 && e.name !in shadowed && (e.name == "chr" || e.name == "str") {
      var x := e.args[0];
      FoldAnswersExactly(py, x, shadowed, depth + 1);
      FoldSound(py, x, shadowed, depth + 1);
      NamesNest(e);
      if Eval(py, x).Some? { CallEvaluates(py, e, Eval(py, x).value); }
      if e.name == "chr" { ChrAnswers(py, e, shadowed, depth); } else { StrAnswers(py, e, shadowed, depth); }
    }
  }

  /** The argument folds exactly where it is allowed, to what it evaluates to. */
  ghost predicate ArgumentAnswers(py: Python, e: Expr, shadowed: set<string>, depth: nat) {
    && e.NameCall? && !e.keywords && |e.args| == 1 && e.name !in shadowed && depth <= 24
    && var v := Fold(py, e.args[0], shadowed, depth + 1);
       && (v.Some? <==> depth + Nesting(e) <= 24 && Allowed(py, e.args[0], shadowed))
       && (v.Some? ==> Eval(py, e.args[0]) == v)
  }

  lemma ChrAnswers(py: Python, e: Expr, shadowed: set<string>, depth: nat)
    requires ArgumentAnswers(py, e, shadowed, depth) && e.name == "chr"
    requires var v := Eval(py, e.args[0]); v.Some? && v.value.Int? ==> Eval(py, e) == StrOf(py.chr(v.value.n))
    ensures Fold(py, e, shadowed, depth).Some? <==> depth + Nesting(e) <= 24 && Allowed(py, e, shadowed)
  {
    assert e.name[0] == 'c' && "str"[0] == 's';
    hide Nesting, Eval;
  }

  lemma StrAnswers(py: Python, e: Expr, shadowed: set<string>, depth: nat)
    requires ArgumentAnswers(py, e, shadowed, depth) && e.name == "str"
    requires forall s :: py.text(Str(s)) == Some(s)
    requires var v := Eval(py, e.args[0]); v.Some? ==> Eval(py, e) == StrOf(py.text(v.value))
    ensures Fold(py, e, shadowed, depth).Some? <==> depth + Nesting(e) <= 24 && Allowed(py, e, shadowed)
  {
    assert e.name[0] == 's' && "chr"[0] == 'c';
    hide Nesting, Eval;
  }

  lemma NamesNest(e: Expr)
    requires e.NameCall? && |e.args| == 1
    ensures Nesting(e) == 1 + Nesting(e.args[0])
  {
    assert e.args[1..] == [] && BelowNesting(e.args[1..]) == 0;
  }

  lemma CallEvaluates(py: Python, e: Expr, v: Value)
    requires e.NameCall? && |e.args| == 1 && !e.keywords && Eval(py, e.args[0]) == Some(v) && py.rebound(e.name).None?
    ensures e.name == "chr" && v.Int? ==> Eval(py, e) == StrOf(py.chr(v.n))
    ensures e.name == "str" ==> Eval(py, e) == StrOf(py.text(v))
  {
    assert "chr"[0] == 'c' && "str"[0] == 's';
    EvalOne(py, e.args);
  }

  lemma {:induction false} BinOpAnswers(py: Python, e: Expr, shadowed: set<string>, depth: nat)
    requires Lawful(py) && Honest(py, shadowed) && e.BinOp? && depth <= 24
    ensures Fold(py, e, shadowed, depth).Some? <==> depth + Nesting(e) <= 24 && Allowed(py, e, shadowed)
    decreases e, 0
  {
    FoldAnswersExactly(py, e.left, shadowed, depth + 1);
    FoldAnswersExactly(py, e.right, shadowed, depth + 1);
    FoldSound(py, e.left, shadowed, depth + 1);
    FoldSound(py, e.right, shadowed, depth + 1);
    OperandsNest(e, depth);
    match e.op
    case Add => AddAnswers(py, e, shadowed, depth);
    case Mult => MultAnswers(py, e, shadowed, depth);
    case Mod => ModAnswers(py, e, shadowed, depth);
    case OtherOp(_) => assert Fold(py, e, shadowed, depth) == FoldBinOp(py, e, shadowed, depth);
  }

  lemma OperandsNest(e: Expr, depth: nat)
    requires e.BinOp?
    ensures depth + Nesting(e) <= 24 <==> depth + 1 + Nesting(e.left) <= 24 && depth + 1 + Nesting(e.right) <= 24
  {}

  /** Both operands fold exactly where they are allowed, to what they evaluate to. */
  ghost predicate OperandsAnswer(py: Python, e: Expr, shadowed: set<string>, depth: nat)
    requires e.BinOp?
  {
    var left, right := Fold(py, e.left, shadowed, depth + 1), Fold(py, e.right, shadowed, depth + 1);
    && (left.Some? <==> depth + 1 + Nesting(e.left) <= 24 && Allowed(py, e.left, shadowed))
    && (right.Some? <==> depth + 1 + Nesting(e.right) <= 24 && Allowed(py, e.right, shadowed))
    && (left.Some? ==> Eval(py, e.left) == left) && (right.Some? ==> Eval(py, e.right) == right)
    && (depth + Nesting(e) <= 24 <==> depth + 1 + Nesting(e.left) <= 24 && depth + 1 + Nesting(e.right) <= 24)
  }

  lemma AddAnswers(py: Python, e: Expr, shadowed: set<string>, depth: nat)
    requires e.BinOp? && e.op == Add && depth <= 24 && OperandsAnswer(py, e, shadowed, depth)
    ensures Fold(py, e, shadowed, depth).Some? <==> depth + Nesting(e) <= 24 && Allowed(py, e, shadowed)
  {
    assert Fold(py, e, shadowed, depth) == FoldBinOp(py, e, shadowed, depth);
    hide Nesting;
  }

  lemma MultAnswers(py: Python, e: Expr, shadowed: set<string>, depth: nat)
    requires e.BinOp? && e.op == Mult && depth <= 24 && OperandsAnswer(py, e, shadowed, depth)
    ensures Fold(py, e, shadowed, depth).Some? <==> depth + Nesting(e) <= 24 && Allowed(py, e, shadowed)
  {
    assert Fold(py, e, shadowed, depth) == FoldBinOp(py, e, shadowed, depth);
    hide Nesting, Repeated;
  }

  lemma ModAnswers(py: Python, e: Expr, shadowed: set<string>, depth: nat)
    requires e.BinOp? && e.op == Mod && depth <= 24 && OperandsAnswer(py, e, shadowed, depth)
    ensures Fold(py, e, shadowed, depth).Some? <==> depth + Nesting(e) <= 24 && Allowed(py, e, shadowed)
  {
    assert Fold(py, e, shadowed, depth) == FoldBinOp(py, e, shadowed, depth);
    hide Nesting;
  }

  lemma {:induction false} MethodAnswers(py: Python, e: Expr, shadowed: set<string>, depth: nat)
    requires Lawful(py) && Honest(py, shadowed) && e.MethodCall? && depth <= 24
    ensures Answers(py, e, shadowed, depth)
    decreases e, 0
  {
    FoldAnswersExactly(py, e.receiver, shadowed, depth + 1);
    if e.attr == "join" && |e.args| == 1 && (e.args[0].ListDisplay? || e.args[0].TupleDisplay?) {
      AllAnswer(py, e.args[0].elts, shadowed, depth + 1);
      JoinAnswers(py, e, shadowed, depth);
    } else if e.attr == "format" {
      AllAnswer(py, e.args, shadowed, depth + 1);
      FormatAnswers(py, e, shadowed, depth);
    } else if e.attr == "decode" {
      DecodeAnswers(py, e, shadowed, depth);
    } else {
      assert Fold(py, e, shadowed, depth) == FoldMethod(py, e, shadowed, depth);
    }
  }

  /** The folder answers for this expression exactly on the allowlist. */
  ghost predicate Answers(py: Python, e: Expr, shadowed: set<string>, depth: nat) {
    Fold(py, e, shadowed, depth).Some? <==> depth + Nesting(e) <= 24 && Allowed(py, e, shadowed)
  }

  ghost predicate AllAnswers(py: Python, es: seq<Expr>, shadowed: set<string>, depth: nat)
    requires depth > 0
  {
    FoldAll(py, es, shadowed, depth).Some?
    <==> depth - 1 + BelowNesting(es) <= 24 && forall x :: x in es ==> Allowed(py, x, shadowed)
  }

  lemma DecodeAnswers(py: Python, e: Expr, shadowed: set<string>, depth: nat)
    requires Lawful(py) && Honest(py, shadowed) && e.MethodCall? && e.attr == "decode" && depth <= 24
    requires Answers(py, e.receiver, shadowed, depth + 1)
    ensures Answers(py, e, shadowed, depth)
  {
    assert e.attr[0] == 'd' && "join"[0] == 'j' && "format"[0] == 'f';
    FoldSound(py, e.receiver, shadowed, depth + 1);
    assert Fold(py, e, shadowed, depth) == FoldMethod(py, e, shadowed, depth);
    assert e.args == [] ==> EvalAll(py, e.args) == Some([]);
  }

  lemma FormatAnswers(py: Python, e: Expr, shadowed: set<string>, depth: nat)
    requires Lawful(py) && Honest(py, shadowed) && e.MethodCall? && e.attr == "format" && depth <= 24
    requires Answers(py, e.receiver, shadowed, depth + 1) && AllAnswers(py, e.args, shadowed, depth + 1)
    ensures Answers(py, e, shadowed, depth)
  {
    assert e.attr[0] == 'f' && "join"[0] == 'j';
    var v := Fold(py, e.receiver, shadowed, depth + 1);
    FoldSound(py, e.receiver, shadowed, depth + 1);
    AllSound(py, e.args, shadowed, depth + 1);
    if v.Some? && v.value.Str? { SpecExactly(v.value.s); }
    assert Fold(py, e, shadowed, depth) == FoldMethod(py, e, shadowed, depth);
  }

  /** The elements of a display that all fold to short strings. */
  ghost predicate AllShort(py: Python, es: seq<Expr>) {
    forall x :: x in es ==> IsShort(Eval(py, x))
  }

  lemma ShortExactly(py: Python, es: seq<Expr>, shadowed: set<string>, depth: nat)
    requires Lawful(py) && Honest(py, shadowed) && FoldAll(py, es, shadowed, depth).Some?
    ensures EvalAll(py, es) == FoldAll(py, es, shadowed, depth)
    ensures (forall x :: x in FoldAll(py, es, shadowed, depth).value ==> FoldedString(x).Some?) <==> AllShort(py, es)
  {
    AllSound(py, es, shadowed, depth);
    AllEvaluated(py, es);
    var vs := EvalAll(py, es).value;
    if AllShort(py, es) {
      forall x | x in vs ensures FoldedString(x).Some? {
        var i :| 0 <= i < |vs| && vs[i] == x;
        assert es[i] in es;
      }
    } else {
      var x :| x in es && !IsShort(Eval(py, x));
      var i :| 0 <= i < |es| && es[i] == x;
      assert vs[i] in vs && FoldedString(vs[i]).None?;
    }
  }

  predicate IsJoin(e: Expr) {
    && e.MethodCall? && e.attr == "join" && |e.args| == 1 && !e.keywords
    && (e.args[0].ListDisplay? || e.args[0].TupleDisplay?)
  }

  /** What a join folds to, by its receiver and its elements. */
  lemma JoinFolds(py: Python, e: Expr, shadowed: set<string>, depth: nat)
    requires IsJoin(e) && depth <= 24
    ensures var v, vs := Fold(py, e.receiver, shadowed, depth + 1), FoldAll(py, e.args[0].elts, shadowed, depth + 1);
      Fold(py, e, shadowed, depth).Some? <==>
        IsShort(v) && vs.Some? && (forall x :: x in vs.value ==> FoldedString(x).Some?)
        && IsShort(Some(Str(JoinAll(v.value.s, vs.value))))
  {
    assert Fold(py, e, shadowed, depth) == FoldMethod(py, e, shadowed, depth);
  }

  lemma JoinEvaluates(py: Python, e: Expr, sep: string, vs: seq<Value>)
    requires IsJoin(e) && Eval(py, e.receiver) == Some(Str(sep)) && EvalAll(py, e.args[0].elts) == Some(vs) && AllStr(vs)
    ensures Eval(py, e) == Some(Str(JoinAll(sep, vs)))
  {
    EvalOne(py, e.args);
  }

  lemma JoinAllowed(py: Python, e: Expr, shadowed: set<string>)
    requires IsJoin(e)
    ensures Allowed(py, e, shadowed) <==>
      && Allowed(py, e.receiver, shadowed) && IsShort(Eval(py, e)) && IsShort(Eval(py, e.receiver))
      && (forall x :: x in e.args[0].elts ==> Allowed(py, x, shadowed)) && AllShort(py, e.args[0].elts)
  {}

  /** What is known of a join's receiver and elements. */
  ghost predicate JoinParts(py: Python, e: Expr, shadowed: set<string>, depth: nat)
    requires IsJoin(e)
  {
    var v, vs := Fold(py, e.receiver, shadowed, depth + 1), FoldAll(py, e.args[0].elts, shadowed, depth + 1);
    && (v.Some? ==> Eval(py, e.receiver) == v)
    && (vs.Some? ==> EvalAll(py, e.args[0].elts) == vs)
    && (vs.Some? ==> ((forall x :: x in vs.value ==> FoldedString(x).Some?) <==> AllShort(py, e.args[0].elts)))
    && (vs.Some? && IsShort(v) && AllStr(vs.value) ==> Eval(py, e) == Some(Str(JoinAll(v.value.s, vs.value))))
  }

  lemma JoinPartsHold(py: Python, e: Expr, shadowed: set<string>, depth: nat)
    requires IsJoin(e) && Lawful(py) && Honest(py, shadowed)
    ensures JoinParts(py, e, shadowed, depth)
  {
    var v, vs := Fold(py, e.receiver, shadowed, depth + 1), FoldAll(py, e.args[0].elts, shadowed, depth + 1);
    FoldSound(py, e.receiver, shadowed, depth + 1);
    if vs.Some? {
      ShortExactly(py, e.args[0].elts, shadowed, depth + 1);
      if IsShort(v) && AllStr(vs.value) { JoinEvaluates(py, e, v.value.s, vs.value); }
    }
    hide Fold, FoldAll, Eval, EvalAll, AllShort, JoinAll, Lawful, Honest;
  }

  lemma JoinFoldsWithin(py: Python, e: Expr, shadowed: set<string>, depth: nat)
    requires IsJoin(e) && depth <= 24 && JoinParts(py, e, shadowed, depth)
    ensures Fold(py, e, shadowed, depth).Some? <==>
      && Fold(py, e.receiver, shadowed, depth + 1).Some? && FoldAll(py, e.args[0].elts, shadowed, depth + 1).Some?
      && IsShort(Eval(py, e.receiver)) && AllShort(py, e.args[0].elts) && IsShort(Eval(py, e))
  {
    JoinFolds(py, e, shadowed, depth);
    hide Fold, FoldAll, Eval, EvalAll, AllShort, JoinAll;
    var vs := FoldAll(py, e.args[0].elts, shadowed, depth + 1);
    assert vs.Some? && (forall x :: x in vs.value ==> FoldedString(x).Some?) ==> AllStr(vs.value);
  }

  lemma JoinAnswers(py: Python, e: Expr, shadowed: set<string>, depth: nat)
    requires Lawful(py) && Honest(py, shadowed) && e.MethodCall? && e.attr == "join" && depth <= 24
    requires |e.args| == 1 && (e.args[0].ListDisplay? || e.args[0].TupleDisplay?)
    requires Answers(py, e.receiver, shadowed, depth + 1) && AllAnswers(py, e.args[0].elts, shadowed, depth + 1)
    ensures Answers(py, e, shadowed, depth)
  {
    if e.keywords {
      assert Fold(py, e, shadowed, depth) == FoldMethod(py, e, shadowed, depth) == None;
    } else {
      JoinPartsHold(py, e, shadowed, depth);
      JoinFoldsWithin(py, e, shadowed, depth);
      JoinNests(e);
      JoinAllowed(py, e, shadowed);
      hide JoinParts, Fold, FoldAll, Eval, EvalAll, Lawful, Honest, BelowNesting, Nesting, Allowed, AllShort, JoinAll;
    }
  }

  lemma JoinNests(e: Expr)
    requires e.MethodCall? && e.attr == "join" && |e.args| == 1
    requires e.args[0].ListDisplay? || e.args[0].TupleDisplay?
    ensures Nesting(e) == Deeper(1 + Nesting(e.receiver), BelowNesting(e.args[0].elts))
  {}

  lemma {:induction false} AllEvaluated(py: Python, es: seq<Expr>)
    ensures EvalAll(py, es).Some? ==>
              |EvalAll(py, es).value| == |es|
              && forall i :: 0 <= i < |es| ==> Eval(py, es[i]) == Some(EvalAll(py, es).value[i])
  {
    if es != [] { AllEvaluated(py, es[1..]); }
  }

  lemma {:induction false} AllAnswer(py: Python, es: seq<Expr>, shadowed: set<string>, depth: nat)
    requires Lawful(py) && Honest(py, shadowed) && 0 < depth <= 25
    ensures FoldAll(py, es, shadowed, depth).Some?
       <==> depth - 1 + BelowNesting(es) <= 24 && forall x :: x in es ==> Allowed(py, x, shadowed)
    decreases es, 2
  {
    if es != [] {
      FoldAnswersExactly(py, es[0], shadowed, depth);
      AllAnswer(py, es[1..], shadowed, depth);
      assert es == [es[0]] + es[1..];
    }
  }

  lemma {:induction false} PartsAnswer(py: Python, parts: seq<Part>, shadowed: set<string>, depth: nat)
    requires Lawful(py) && Honest(py, shadowed) && 0 < depth <= 25
    ensures FoldParts(py, parts, shadowed, depth).Some?
       <==> depth - 1 + PartsNesting(parts) <= 24 && forall p :: p in parts ==> AllowedPart(py, p, shadowed)
    decreases parts, 2
  {
    if parts != [] {
      PartAnswers(py, parts[0], shadowed, depth);
      PartsAnswer(py, parts[1..], shadowed, depth);
      assert parts == [parts[0]] + parts[1..];
    }
  }

  lemma {:induction false} PartAnswers(py: Python, p: Part, shadowed: set<string>, depth: nat)
    requires Lawful(py) && Honest(py, shadowed)
    ensures FoldPart(py, p, shadowed, depth).Some?
       <==> AllowedPart(py, p, shadowed) && (p.Formatted? ==> depth + Nesting(p.expr) <= 24)
    decreases p, 2
  {
    if p.Formatted? {
      FoldAnswersExactly(py, p.expr, shadowed, depth);
      FoldSound(py, p.expr, shadowed, depth);
    }
  }

  // ---- the two operations both sides share --------------------------------------------

  /** A repeated string is as long as its count asks, a negative count asking
      for nothing; it starts with the string and repeats after each length of it. */
  lemma {:induction false} RepeatedReads(s: string, n: int)
    ensures |Repeated(s, n)| == (if n > 0 then n * |s| else 0)
    ensures n > 0 ==> Repeated(s, n)[..|s|] == s && Repeated(s, n)[|s|..] == Repeated(s, n - 1)
    decreases if n < 0 then 0 else n
  {
    if n > 0 {
      RepeatedReads(s, n - 1);
      assert n * |s| == |s| + (n - 1) * |s|;
    }
  }

  /** Joining puts the separator between neighbours and nowhere else. */
  lemma {:induction false} JoinedAcross(sep: string, a: seq<Value>, b: seq<Value>)
    requires AllStr(a) && AllStr(b) && a != [] && b != []
    ensures AllStr(a + b) && JoinAll(sep, a + b) == JoinAll(sep, a) + sep + JoinAll(sep, b)
    decreases |a|
  {
    assert (a + b)[1..] == a[1..] + b;
    if |a| > 1 {
      JoinedAcross(sep, a[1..], b);
      assert JoinAll(sep, a + b) == a[0].s + sep + (JoinAll(sep, a[1..]) + sep + JoinAll(sep, b));
    } else {
      assert (a + b)[1..] == b;
    }
  }

  lemma JoinedFew(sep: string, s: string)
    ensures JoinAll(sep, []) == "" && JoinAll(sep, [Str(s)]) == s
  {}
}
