/** The version-literal counter's constant folder: a partial evaluator over
    Python expressions, compared with evaluation itself. */
module ConstantFold {
  import opened Options

  const FOLD_MAX_DEPTH: nat := 24
  const FOLD_MAX_LENGTH: nat := 4096

  /** `Exotic` is any constant the folder does not admit (an ellipsis, a
      complex number). */
  datatype Value =
    | NoneValue
    | Str(s: string)
    | Int(n: int)
    | Bool(b: bool)
    | Float(bits: nat)
    | Bytes(bytes: seq<bv8>)
    | List(items: seq<Value>)
    | Tuple(items: seq<Value>)
    | Exotic(tag: nat)

  datatype Op = Add | Mult | Mod | OtherOp(symbol: string)

  datatype Expr =
    | Constant(value: Value)
    | Joined(parts: seq<Part>)
    | BinOp(op: Op, left: Expr, right: Expr)
    | ListDisplay(elts: seq<Expr>)
    | TupleDisplay(elts: seq<Expr>)
    | MethodCall(receiver: Expr, attr: string, args: seq<Expr>, keywords: bool)
    | NameCall(name: string, args: seq<Expr>, keywords: bool)
    | OtherExpr(id: nat)

  /** A piece of an f-string; `plain` means no conversion and no format
      specification. */
  datatype Part =
    | Literal(value: Value)
    | Formatted(expr: Expr, plain: bool)

  // ---- evaluation ----------------------------------------------------------------

  /** The interpreter the module runs under. `rebound` says what a name stands
      for when the module does not leave it to the builtins. Every partial
      operation may raise, which is `None`. */
  datatype Python = Python(
    percent: (string, Value) -> Option<string>,
    format: (string, seq<Value>) -> Option<string>,
    decode: seq<bv8> -> Option<string>,
    text: Value -> Option<string>,
    formatted: (Expr, bool, Value) -> Option<string>,
    chr: int -> Option<string>,
    binary: (Op, Value, Value) -> Option<Value>,
    invoke: (Value, string, seq<Value>) -> Option<Value>,
    rebound: string -> Option<seq<Value> -> Option<Value>>,
    other: Expr -> Option<Value>)

  /** What the language fixes about those operations. */
  ghost predicate Lawful(py: Python) {
    && (forall s :: py.text(Str(s)) == Some(s))
    && (forall e: Expr, v: Value :: v.Str? || v.Int? || v.Bool? ==> py.formatted(e, true, v) == py.text(v))
  }

  function Repeated(s: string, n: int): (r: string)
    decreases if n < 0 then 0 else n
  {
    if n <= 0 then "" else s + Repeated(s, n - 1)
  }

  predicate AllStr(vs: seq<Value>) {
    forall v :: v in vs ==> v.Str?
  }

  function JoinAll(sep: string, vs: seq<Value>): string
    requires AllStr(vs)
  {
    if vs == [] then "" else if |vs| == 1 then vs[0].s else vs[0].s + sep + JoinAll(sep, vs[1..])
  }

  function StrOf(t: Option<string>): Option<Value> {
    var s :- t;
    Some(Str(s))
  }

  function Eval(py: Python, e: Expr): Option<Value>
    decreases e
  {
    match e
    case Constant(v) => Some(v)
    case Joined(parts) =>
      var s :- EvalParts(py, parts);
      Some(Str(s))
    case BinOp(op, l, r) =>
      var a :- Eval(py, l);
      var b :- Eval(py, r);
      Apply(py, op, a, b)
    case ListDisplay(elts) =>
      var vs :- EvalAll(py, elts);
      Some(List(vs))
    case TupleDisplay(elts) =>
      var vs :- EvalAll(py, elts);
      Some(Tuple(vs))
    case MethodCall(receiver, attr, args, keywords) =>
      if keywords then py.other(e)
      else
        var v :- Eval(py, receiver);
        var vs :- EvalAll(py, args);
        Send(py, v, attr, vs)
    case NameCall(name, args, keywords) =>
      if keywords then py.other(e)
      else
        var vs :- EvalAll(py, args);
        if py.rebound(name).Some? then py.rebound(name).value(vs)
        else if name == "chr" && |vs| == 1 && vs[0].Int? then StrOf(py.chr(vs[0].n))
        else if name == "str" && |vs| == 1 then StrOf(py.text(vs[0]))
        else py.other(e)
    case OtherExpr(_) => py.other(e)
  }

  function EvalAll(py: Python, es: seq<Expr>): Option<seq<Value>>
    decreases es
  {
    if es == [] then Some([])
    else
      var v :- Eval(py, es[0]);
      var vs :- EvalAll(py, es[1..]);
      Some([v] + vs)
  }

  function EvalParts(py: Python, parts: seq<Part>): Option<string>
    decreases parts
  {
    if parts == [] then Some("")
    else
      var s :- EvalPart(py, parts[0]);
      var rest :- EvalParts(py, parts[1..]);
      Some(s + rest)
  }

  function EvalPart(py: Python, p: Part): Option<string>
    decreases p
  {
    match p
    case Literal(v) => if v.Str? then Some(v.s) else None
    case Formatted(e, plain) =>
      var v :- Eval(py, e);
      py.formatted(e, plain, v)
  }

  function Apply(py: Python, op: Op, a: Value, b: Value): Option<Value> {
    match (op, a, b)
    case (Add, Str(s), Str(t)) => Some(Str(s + t))
    case (Mult, Str(s), Int(n)) => Some(Str(Repeated(s, n)))
    case (Mult, Int(n), Str(s)) => Some(Str(Repeated(s, n)))
    case (Mod, Str(s), _) => StrOf(py.percent(s, b))
    case _ => py.binary(op, a, b)
  }

  function Send(py: Python, v: Value, attr: string, vs: seq<Value>): Option<Value> {
    if v.Str? && attr == "join" && |vs| == 1 && (vs[0].List? || vs[0].Tuple?) && AllStr(vs[0].items)
    then Some(Str(JoinAll(v.s, vs[0].items)))
    else if v.Str? && attr == "format" then StrOf(py.format(v.s, vs))
    else if v.Bytes? && attr == "decode" && vs == [] then StrOf(py.decode(v.bytes))
    else py.invoke(v, attr, vs)
  }

  // ---- folding -------------------------------------------------------------------

  /** The one choke point of a folded string. */
  function FoldedString(v: Value): Option<string> {
    if v.Str? && |v.s| <= FOLD_MAX_LENGTH then Some(v.s) else None
  }

  function Bounded(s: string): Option<Value> {
    if |s| <= FOLD_MAX_LENGTH then Some(Str(s)) else None
  }

  function Stringify(py: Python, v: Value): Option<string> {
    match v
    case Str(s) => Some(s)
    case Int(_) => py.text(v)
    case Bool(_) => py.text(v)
    case _ => None
  }

  predicate Admitted(v: Value) {
    v.NoneValue? || v.Str? || v.Int? || v.Bool? || v.Float? || v.Bytes?
  }

  /** `{`, then no `}`, then `!` or `:` -- a conversion or a specification. */
  predicate HasSpec(t: string) {
    exists i, j :: 0 <= i < j < |t| && t[i] == '{' && (t[j] == '!' || t[j] == ':') && '}' !in t[i + 1..j]
  }

  function Fold(py: Python, e: Expr, shadowed: set<string>, depth: nat): Option<Value>
    decreases e, 1
  {
    if depth > FOLD_MAX_DEPTH then None
    else match e
      case Constant(v) => if Admitted(v) then Some(v) else None
      case Joined(parts) =>
        var s :- FoldParts(py, parts, shadowed, depth + 1);
        Bounded(s)
      case BinOp(op, l, r) => FoldBinOp(py, e, shadowed, depth)
      case ListDisplay(elts) =>
        var vs :- FoldAll(py, elts, shadowed, depth + 1);
        Some(List(vs))
      case TupleDisplay(elts) =>
        var vs :- FoldAll(py, elts, shadowed, depth + 1);
        Some(Tuple(vs))
      case MethodCall(_, _, _, _) => FoldMethod(py, e, shadowed, depth)
      case NameCall(name, args, keywords) =>
        if keywords || |args| != 1 || name in shadowed then None
        else if name == "chr" then
          var v :- Fold(py, args[0], shadowed, depth + 1);
          if !v.Int? then None
          else
            var s :- py.chr(v.n);
            Bounded(s)
        else if name == "str" then
          var v :- Fold(py, args[0], shadowed, depth + 1);
          StrOf(Stringify(py, v))
        else None
      case OtherExpr(_) => None
  }

  function FoldBinOp(py: Python, e: Expr, shadowed: set<string>, depth: nat): Option<Value>
    requires e.BinOp?
    decreases e, 0
  {
    var left :- Fold(py, e.left, shadowed, depth + 1);
    match e.op
    case Add =>
      var right :- Fold(py, e.right, shadowed, depth + 1);
      var t :- FoldedString(right);
      var s :- FoldedString(left);
      Bounded(s + t)
    case Mult =>
      var right :- Fold(py, e.right, shadowed, depth + 1);
      if left.Str? && right.Int? then Bounded(Repeated(left.s, right.n))
      else if right.Str? && left.Int? then Bounded(Repeated(right.s, left.n))
      else None
    case Mod =>
      var template :- FoldedString(left);
      var operand :- Fold(py, e.right, shadowed, depth + 1);
      var s :- py.percent(template, operand);
      Bounded(s)
    case OtherOp(_) => None
  }

  function FoldMethod(py: Python, e: Expr, shadowed: set<string>, depth: nat): Option<Value>
    requires e.MethodCall?
    decreases e, 0
  {
    if e.keywords then None
    else if e.attr == "join" && |e.args| == 1 then
      var v :- Fold(py, e.receiver, shadowed, depth + 1);
      var sep :- FoldedString(v);
      if !(e.args[0].ListDisplay? || e.args[0].TupleDisplay?) then None
      else
        var vs :- FoldAll(py, e.args[0].elts, shadowed, depth + 1);
        if forall x :: x in vs ==> FoldedString(x).Some? then Bounded(JoinAll(sep, vs)) else None
    else if e.attr == "format" then
      var v :- Fold(py, e.receiver, shadowed, depth + 1);
      var template :- FoldedString(v);
      if HasSpec(template) then None
      else
        var vs :- FoldAll(py, e.args, shadowed, depth + 1);
        var s :- py.format(template, vs);
        Bounded(s)
    else if e.attr == "decode" && e.args == [] then
      var v :- Fold(py, e.receiver, shadowed, depth + 1);
      if !v.Bytes? then None
      else
        var s :- py.decode(v.bytes);
        Bounded(s)
    else None
  }

  function FoldAll(py: Python, es: seq<Expr>, shadowed: set<string>, depth: nat): Option<seq<Value>>
    decreases es, 2
  {
    if es == [] then Some([])
    else
      var v :- Fold(py, es[0], shadowed, depth);
      var vs :- FoldAll(py, es[1..], shadowed, depth);
      Some([v] + vs)
  }

  function FoldParts(py: Python, parts: seq<Part>, shadowed: set<string>, depth: nat): Option<string>
    decreases parts, 2
  {
    if parts == [] then Some("")
    else
      var s :- FoldPart(py, parts[0], shadowed, depth);
      var rest :- FoldParts(py, parts[1..], shadowed, depth);
      Some(s + rest)
  }

  function FoldPart(py: Python, p: Part, shadowed: set<string>, depth: nat): Option<string>
    decreases p, 2
  {
    match p
    case Literal(v) => FoldedString(v)
    case Formatted(e, plain) =>
      if !plain then None
      else
        var v :- Fold(py, e, shadowed, depth);
        Stringify(py, v)
  }

  // ---- folding is evaluation --------------------------------------------------------

  /** The two builtins the folder applies mean the builtins unless listed. */
  ghost predicate Honest(py: Python, shadowed: set<string>) {
    forall name :: (name == "chr" || name == "str") && name !in shadowed ==> py.rebound(name).None?
  }

  lemma EvalOne(py: Python, args: seq<Expr>)
    requires |args| == 1
    ensures Eval(py, args[0]).Some? ==> EvalAll(py, args) == Some([Eval(py, args[0]).value])
  {
    assert args[1..] == [];
    if Eval(py, args[0]).Some? {
      assert [Eval(py, args[0]).value] + [] == [Eval(py, args[0]).value];
    }
  }

  lemma {:induction false} FoldSound(py: Python, e: Expr, shadowed: set<string>, depth: nat)
    requires Lawful(py) && Honest(py, shadowed)
    ensures Fold(py, e, shadowed, depth).Some? ==> Eval(py, e) == Fold(py, e, shadowed, depth)
    decreases e, 1
  {
    if Fold(py, e, shadowed, depth).Some? {
      match e {
        case Joined(parts) => PartsSound(py, parts, shadowed, depth + 1);
        case BinOp(_, l, r) =>
          FoldSound(py, l, shadowed, depth + 1);
          FoldSound(py, r, shadowed, depth + 1);
        case ListDisplay(elts) => AllSound(py, elts, shadowed, depth + 1);
        case TupleDisplay(elts) => AllSound(py, elts, shadowed, depth + 1);
        case MethodCall(_, _, _, _) => MethodSound(py, e, shadowed, depth);
        case NameCall(_, args, _) =>
          FoldSound(py, args[0], shadowed, depth + 1);
          EvalOne(py, args);
        case _ =>
      }
    }
  }

  lemma {:induction false} MethodSound(py: Python, e: Expr, shadowed: set<string>, depth: nat)
    requires Lawful(py) && Honest(py, shadowed) && e.MethodCall?
    requires FoldMethod(py, e, shadowed, depth).Some?
    ensures Eval(py, e) == FoldMethod(py, e, shadowed, depth)
    decreases e, 0
  {
    FoldSound(py, e.receiver, shadowed, depth + 1);
    if e.attr == "join" && |e.args| == 1 {
      AllSound(py, e.args[0].elts, shadowed, depth + 1);
      EvalOne(py, e.args);
    } else {
      AllSound(py, e.args, shadowed, depth + 1);
    }
  }

  lemma {:induction false} AllSound(py: Python, es: seq<Expr>, shadowed: set<string>, depth: nat)
    requires Lawful(py) && Honest(py, shadowed)
    ensures FoldAll(py, es, shadowed, depth).Some? ==> EvalAll(py, es) == FoldAll(py, es, shadowed, depth)
    decreases es, 2
  {
    if es != [] {
      FoldSound(py, es[0], shadowed, depth);
      AllSound(py, es[1..], shadowed, depth);
    }
  }

  lemma {:induction false} PartsSound(py: Python, parts: seq<Part>, shadowed: set<string>, depth: nat)
    requires Lawful(py) && Honest(py, shadowed)
    ensures FoldParts(py, parts, shadowed, depth).Some? ==> EvalParts(py, parts) == FoldParts(py, parts, shadowed, depth)
    decreases parts, 2
  {
    if parts != [] {
      PartSound(py, parts[0], shadowed, depth);
      PartsSound(py, parts[1..], shadowed, depth);
    }
  }

  lemma {:induction false} PartSound(py: Python, p: Part, shadowed: set<string>, depth: nat)
    requires Lawful(py) && Honest(py, shadowed)
    ensures FoldPart(py, p, shadowed, depth).Some? ==> EvalPart(py, p) == FoldPart(py, p, shadowed, depth)
    decreases p, 2
  {
    if p.Formatted? {
      FoldSound(py, p.expr, shadowed, depth);
    }
  }

  // ---- depth ---------------------------------------------------------------------

  /** A fold that succeeds at some depth gives the same value from any smaller
      starting depth. */
  lemma {:induction false} FoldShallower(py: Python, e: Expr, shadowed: set<string>, depth: nat, depth': nat)
    requires depth' <= depth && Fold(py, e, shadowed, depth).Some?
    ensures Fold(py, e, shadowed, depth') == Fold(py, e, shadowed, depth)
    decreases e, 1
  {
    match e {
      case Joined(parts) => PartsShallower(py, parts, shadowed, depth + 1, depth' + 1);
      case BinOp(_, l, r) =>
        FoldShallower(py, l, shadowed, depth + 1, depth' + 1);
        FoldShallower(py, r, shadowed, depth + 1, depth' + 1);
      case ListDisplay(elts) => AllShallower(py, elts, shadowed, depth + 1, depth' + 1);
      case TupleDisplay(elts) => AllShallower(py, elts, shadowed, depth + 1, depth' + 1);
      case MethodCall(_, _, _, _) => MethodShallower(py, e, shadowed, depth, depth');
      case NameCall(_, args, _) => FoldShallower(py, args[0], shadowed, depth + 1, depth' + 1);
      case _ =>
    }
  }

  lemma {:induction false} MethodShallower(py: Python, e: Expr, shadowed: set<string>, depth: nat, depth': nat)
    requires e.MethodCall? && depth' <= depth && FoldMethod(py, e, shadowed, depth).Some?
    ensures FoldMethod(py, e, shadowed, depth') == FoldMethod(py, e, shadowed, depth)
    decreases e, 0
  {
    FoldShallower(py, e.receiver, shadowed, depth + 1, depth' + 1);
    if e.attr == "join" && |e.args| == 1 {
      AllShallower(py, e.args[0].elts, shadowed, depth + 1, depth' + 1);
    } else if e.attr == "format" {
      AllShallower(py, e.args, shadowed, depth + 1, depth' + 1);
    }
  }

  lemma {:induction false} AllShallower(py: Python, es: seq<Expr>, shadowed: set<string>, depth: nat, depth': nat)
    requires depth' <= depth && FoldAll(py, es, shadowed, depth).Some?
    ensures FoldAll(py, es, shadowed, depth') == FoldAll(py, es, shadowed, depth)
    decreases es, 2
  {
    if es != [] {
      FoldShallower(py, es[0], shadowed, depth, depth');
      AllShallower(py, es[1..], shadowed, depth, depth');
    }
  }

  lemma {:induction false} PartsShallower(py: Python, parts: seq<Part>, shadowed: set<string>, depth: nat, depth': nat)
    requires depth' <= depth && FoldParts(py, parts, shadowed, depth).Some?
    ensures FoldParts(py, parts, shadowed, depth') == FoldParts(py, parts, shadowed, depth)
    decreases parts, 2
  {
    if parts != [] {
      PartShallower(py, parts[0], shadowed, depth, depth');
      PartsShallower(py, parts[1..], shadowed, depth, depth');
    }
  }

  lemma {:induction false} PartShallower(py: Python, p: Part, shadowed: set<string>, depth: nat, depth': nat)
    requires depth' <= depth && FoldPart(py, p, shadowed, depth).Some?
    ensures FoldPart(py, p, shadowed, depth') == FoldPart(py, p, shadowed, depth)
    decreases p, 2
  {
    if p.Formatted? {
      FoldShallower(py, p.expr, shadowed, depth, depth');
    }
  }

  // ---- length ----------------------------------------------------------------------

  /** The expressions whose folded string passes the length check: everything
      but a constant and a `str(...)` call. */
  predicate Checked(e: Expr) {
    !e.Constant? && !(e.NameCall? && e.name == "str")
  }

  lemma CheckedStringsAreShort(py: Python, e: Expr, shadowed: set<string>, depth: nat)
    requires Checked(e) && Fold(py, e, shadowed, depth).Some? && Fold(py, e, shadowed, depth).value.Str?
    ensures |Fold(py, e, shadowed, depth).value.s| <= FOLD_MAX_LENGTH
  {}

  /** The other two do not: `str` of a constant folds at any length. */
  lemma StrCallIsUnchecked(py: Python, s: string)
    requires |s| > FOLD_MAX_LENGTH
    ensures Fold(py, NameCall("str", [Constant(Str(s))], false), {}, 0) == Some(Str(s))
  {
    assert Fold(py, Constant(Str(s)), {}, 1) == Some(Str(s));
  }

  predicate IsStrCall(e: Expr) {
    e.NameCall? && e.name == "str" && |e.args| == 1 && !e.keywords
  }

  /** An overlong string constant, or a number with an overlong text, inside any
      number of `str(...)` calls. */
  predicate LongAtCore(py: Python, e: Expr, shadowed: set<string>, depth: nat)
    decreases e
  {
    if IsStrCall(e) then
      var v := Fold(py, e.args[0], shadowed, depth + 1);
      LongAtCore(py, e.args[0], shadowed, depth + 1)
      || (v.Some? && !v.value.Str? && Stringify(py, v.value).Some?
          && |Stringify(py, v.value).value| > FOLD_MAX_LENGTH)
    else
      e.Constant? && e.value.Str? && |e.value.s| > FOLD_MAX_LENGTH
  }

  /** A folded string exceeds the limit exactly when such a core is all there is
      to it. */
  lemma {:induction false} OverlongExactly(py: Python, e: Expr, shadowed: set<string>, depth: nat)
    requires Fold(py, e, shadowed, depth).Some? && Fold(py, e, shadowed, depth).value.Str?
    ensures |Fold(py, e, shadowed, depth).value.s| > FOLD_MAX_LENGTH <==> LongAtCore(py, e, shadowed, depth)
    decreases e
  {
    if IsStrCall(e) {
      var v := Fold(py, e.args[0], shadowed, depth + 1).value;
      if v.Str? {
        OverlongExactly(py, e.args[0], shadowed, depth + 1);
      } else {
        CoreIsString(py, e.args[0], shadowed, depth + 1);
      }
    }
  }

  lemma {:induction false} CoreIsString(py: Python, e: Expr, shadowed: set<string>, depth: nat)
    requires Fold(py, e, shadowed, depth).Some?
    ensures LongAtCore(py, e, shadowed, depth) ==> Fold(py, e, shadowed, depth).value.Str?
  {}

  // ---- which modules shadow the builtins ---------------------------------------------

  datatype Target = NameTarget(id: string) | Unpack(targets: seq<Target>) | OtherTarget

  datatype Alias = Alias(name: string, asname: string)

  /** Module-level statements by what they bind. `Compound` is any statement
      with targets of its own (a loop, a context manager) and nested blocks. */
  datatype Statement =
    | FunctionDef(name: string)
    | ClassDef(name: string)
    | Assign(targets: seq<Target>)
    | AnnAssign(target: Target, valued: bool)
    | Import(aliases: seq<Alias>)
    | Compound(own: seq<Target>, nested: seq<Statement>)
    | Effect

  predicate Builtin(name: string) {
    name == "chr" || name == "str"
  }

  function FirstComponent(name: string): string {
    if name == "" || name[0] == '.' then "" else [name[0]] + FirstComponent(name[1..])
  }

  function AliasName(a: Alias): string {
    if a.asname != "" then a.asname else FirstComponent(a.name)
  }

  /** What the counter lists: direct bindings of the two names only. */
  function Shadows(st: Statement): set<string> {
    match st
    case FunctionDef(name) => if Builtin(name) then {name} else {}
    case ClassDef(name) => if Builtin(name) then {name} else {}
    case Assign(targets) => set t | t in targets && t.NameTarget? && Builtin(t.id) :: t.id
    case AnnAssign(target, _) => if target.NameTarget? && Builtin(target.id) then {target.id} else {}
    case Import(aliases) => set a | a in aliases && Builtin(AliasName(a)) :: AliasName(a)
    case _ => {}
  }

  /** What an import binds: its alias, else the name up to the first dot. */
  predicate ImportedAs(a: Alias, n: string) {
    if a.asname != "" then n == a.asname else n <= a.name && '.' !in n && (n == a.name || a.name[|n|] == '.')
  }

  lemma {:induction false} FirstComponentExactly(name: string, n: string)
    ensures FirstComponent(name) == n <==> n <= name && '.' !in n && (n == name || name[|n|] == '.')
    decreases name
  {
    if name != "" && name[0] != '.' {
      if n != "" && n[0] == name[0] {
        FirstComponentExactly(name[1..], n[1..]);
        assert n == [n[0]] + n[1..] && name == [name[0]] + name[1..];
      }
    }
  }

  /** A statement binds this name itself, at the top of its targets. */
  ghost predicate BindsDirectly(st: Statement, n: string) {
    match st
    case FunctionDef(name) => n == name
    case ClassDef(name) => n == name
    case Assign(targets) => NameTarget(n) in targets
    case AnnAssign(target, _) => target == NameTarget(n)
    case Import(aliases) => exists a :: a in aliases && ImportedAs(a, n)
    case Compound(_, _) => false
    case Effect => false
  }

  /** The counter lists a statement's name exactly if that is one of the two
      builtins and the statement binds it directly. */
  lemma ShadowsExactly(st: Statement, n: string)
    ensures n in Shadows(st) <==> (n == "chr" || n == "str") && BindsDirectly(st, n)
  {
    if st.Import? {
      forall a | a in st.aliases ensures AliasName(a) == n <==> ImportedAs(a, n) {
        FirstComponentExactly(a.name, n);
      }
    }
  }

  method ShadowedBuiltinNames(body: seq<Statement>) returns (shadowed: set<string>)
    ensures forall n :: n in shadowed <==> exists st :: st in body && n in Shadows(st)
  {
    shadowed := {};
    var i := 0;
    while i < |body|
      invariant 0 <= i <= |body|
      invariant forall n :: n in shadowed <==> exists st :: st in body[..i] && n in Shadows(st)
    {
      assert body[..i + 1] == body[..i] + [body[i]];
      shadowed := shadowed + Shadows(body[i]);
      i := i + 1;
    }
    assert body[..|body|] == body;
  }

  /** The names a module's statements bind when it runs. */
  function TargetNames(t: Target): set<string> {
    match t
    case NameTarget(id) => {id}
    case Unpack(targets) => AllTargetNames(targets)
    case OtherTarget => {}
  }

  function AllTargetNames(ts: seq<Target>): set<string> {
    if ts == [] then {} else TargetNames(ts[0]) + AllTargetNames(ts[1..])
  }

  function Binds(st: Statement): set<string> {
    match st
    case FunctionDef(name) => {name}
    case ClassDef(name) => {name}
    case Assign(targets) => AllTargetNames(targets)
    case AnnAssign(target, valued) => if valued then TargetNames(target) else {}
    case Import(aliases) => set a | a in aliases :: AliasName(a)
    case Compound(own, nested) => AllTargetNames(own) + AllBinds(nested)
    case Effect => {}
  }

  function AllBinds(body: seq<Statement>): set<string> {
    if body == [] then {} else Binds(body[0]) + AllBinds(body[1..])
  }

  ghost predicate BindsTarget(t: Target, n: string) {
    t == NameTarget(n) || (t.Unpack? && exists u :: u in t.targets && BindsTarget(u, n))
  }

  /** Somewhere in a statement, its nested blocks included, this name is bound. */
  ghost predicate BindsSomewhere(st: Statement, n: string) {
    match st
    case Assign(targets) => exists t :: t in targets && BindsTarget(t, n)
    case AnnAssign(target, valued) => valued && BindsTarget(target, n)
    case Compound(own, nested) =>
      (exists t :: t in own && BindsTarget(t, n)) || (exists u :: u in nested && BindsSomewhere(u, n))
    case _ => BindsDirectly(st, n)
  }

  lemma {:induction false} TargetNamesExactly(t: Target, n: string)
    ensures n in TargetNames(t) <==> BindsTarget(t, n)
    decreases t, 0
  {
    if t.Unpack? { AllTargetNamesExactly(t.targets, n); }
  }

  lemma {:induction false} AllTargetNamesExactly(ts: seq<Target>, n: string)
    ensures n in AllTargetNames(ts) <==> exists t :: t in ts && BindsTarget(t, n)
    decreases ts, 1
  {
    if ts != [] {
      TargetNamesExactly(ts[0], n);
      AllTargetNamesExactly(ts[1..], n);
      assert ts == [ts[0]] + ts[1..];
    }
  }

  lemma {:induction false} BindsExactly(st: Statement, n: string)
    ensures n in Binds(st) <==> BindsSomewhere(st, n)
    decreases st, 0
  {
    match st
    case Assign(targets) => AllTargetNamesExactly(targets, n);
    case AnnAssign(target, _) => TargetNamesExactly(target, n);
    case Import(aliases) =>
      forall a | a in aliases ensures AliasName(a) == n <==> ImportedAs(a, n) {
        FirstComponentExactly(a.name, n);
      }
    case Compound(own, nested) =>
      AllTargetNamesExactly(own, n);
      AllBindsExactly(nested, n);
    case _ =>
  }

  lemma {:induction false} AllBindsExactly(body: seq<Statement>, n: string)
    ensures n in AllBinds(body) <==> exists st :: st in body && BindsSomewhere(st, n)
    decreases body, 1
  {
    if body != [] {
      BindsExactly(body[0], n);
      AllBindsExactly(body[1..], n);
      assert body == [body[0]] + body[1..];
    }
  }

  ghost predicate Listed(body: seq<Statement>, n: string) {
    exists st :: st in body && n in Shadows(st)
  }

  /** An interpreter running a module: only names it binds are rebound. */
  ghost predicate Runs(py: Python, body: seq<Statement>) {
    forall n :: n !in AllBinds(body) ==> py.rebound(n).None?
  }

  ghost predicate FoldsFaithfully(py: Python, shadowed: set<string>) {
    forall e, depth: nat :: Fold(py, e, shadowed, depth).Some? ==> Eval(py, e) == Fold(py, e, shadowed, depth)
  }

  /** An interpreter in which every name in `bound` stands for a function
      returning `None`. */
  function Rebinding(bound: set<string>): Python {
    Python((s: string, v: Value) => None, (s: string, vs: seq<Value>) => None, (b: seq<bv8>) => None,
           (v: Value) => if v.Str? then Some(v.s) else Some(""),
           (e: Expr, plain: bool, v: Value) => if v.Str? then Some(v.s) else Some(""),
           (n: int) => Some("x"), (op: Op, a: Value, b: Value) => None,
           (v: Value, a: string, vs: seq<Value>) => None,
           (n: string) => if n in bound then Some((vs: seq<Value>) => Some(NoneValue)) else None,
           (e: Expr) => None)
  }

  /** For every module: folding is faithful under every lawful interpreter
      that runs it, exactly when the counter lists every builtin it binds. */
  lemma FoldFaithfulExactly(body: seq<Statement>, shadowed: set<string>)
    requires forall n :: n in shadowed <==> Listed(body, n)
    ensures (forall py: Python :: Lawful(py) && Runs(py, body) ==> FoldsFaithfully(py, shadowed))
         == (forall n :: Builtin(n) && n in AllBinds(body) ==> n in shadowed)
  {
    if forall n :: Builtin(n) && n in AllBinds(body) ==> n in shadowed {
      forall py: Python | Lawful(py) && Runs(py, body) ensures FoldsFaithfully(py, shadowed) {
        forall e, depth: nat ensures Fold(py, e, shadowed, depth).Some? ==> Eval(py, e) == Fold(py, e, shadowed, depth) {
          FoldSound(py, e, shadowed, depth);
        }
      }
    } else {
      var n :| Builtin(n) && n in AllBinds(body) && n !in shadowed;
      var py := Rebinding(AllBinds(body));
      UnlistedIsUnfaithful(py, body, shadowed, n);
    }
  }

  lemma UnlistedIsUnfaithful(py: Python, body: seq<Statement>, shadowed: set<string>, n: string)
    requires Builtin(n) && n in AllBinds(body) && n !in shadowed && py == Rebinding(AllBinds(body))
    ensures Lawful(py) && Runs(py, body) && !FoldsFaithfully(py, shadowed)
  {
    var e := NameCall(n, [Constant(Int(65))], false);
    EvalOne(py, e.args);
    assert Fold(py, e.args[0], shadowed, 1) == Some(Int(65));
    assert Fold(py, e, shadowed, 0).Some? && Fold(py, e, shadowed, 0).value.Str?;
    assert Eval(py, e) == Some(NoneValue);
  }

  /** A tuple assignment binds `chr` without being listed. */
  lemma UnpackingIsUnlisted()
    ensures var body := [Assign([Unpack([NameTarget("chr"), NameTarget("x")])])];
            "chr" in AllBinds(body) && !Listed(body, "chr")
  {
    var inner := [NameTarget("chr"), NameTarget("x")];
    var body := [Assign([Unpack(inner)])];
    assert TargetNames(inner[0]) == {"chr"} && "chr" in AllTargetNames(inner);
    assert "chr" in TargetNames(Unpack(inner)) && "chr" in AllTargetNames([Unpack(inner)]);
    assert "chr" in Binds(body[0]);
  }

  // ---- which folded sites are reported -------------------------------------------------

  /** The span of an expression: start line and column, end line and column. */
  datatype Box = Box(line: int, col: int, endLine: int, endCol: int)

  datatype Site = Site(box: Box, text: string)

  /** The code's containment: each coordinate on its own. */
  predicate Covers(outer: Box, inner: Box) {
    outer.line <= inner.line && outer.col <= inner.col && outer.endLine >= inner.endLine && outer.endCol >= inner.endCol
  }

  predicate Boxed(rows: seq<Site>, b: Box) {
    exists i :: 0 <= i < |rows| && rows[i].box == b
  }

  /** The first row of each box, in order: the dictionary the code builds. */
  function FirstRows(folded: seq<Site>): seq<Site> {
    if folded == [] then []
    else
      var init, last := folded[..|folded| - 1], folded[|folded| - 1];
      FirstRows(init) + if Boxed(init, last.box) then [] else [last]
  }

  predicate FirstAt(folded: seq<Site>, i: int, r: Site) {
    0 <= i < |folded| && folded[i] == r && forall k :: 0 <= k < i ==> folded[k].box != r.box
  }

  /** A row is kept exactly if it is the first of its box. */
  lemma {:induction false} FirstRowsExactly(folded: seq<Site>, r: Site)
    ensures r in FirstRows(folded) <==> exists i :: FirstAt(folded, i, r)
    decreases |folded|
  {
    if folded != [] {
      var n := |folded| - 1;
      FirstRowsExactly(folded[..n], r);
      assert forall i :: FirstAt(folded[..n], i, r) <==> i < n && FirstAt(folded, i, r);
      assert Boxed(folded[..n], folded[n].box) <==> exists k :: 0 <= k < n && folded[k].box == folded[n].box;
      assert FirstAt(folded, n, r) <==> r == folded[n] && !Boxed(folded[..n], r.box);
    }
  }

  method FirstOfEachBox(folded: seq<Site>) returns (unique: seq<Site>)
    ensures unique == FirstRows(folded)
    ensures forall i, j :: 0 <= i < j < |unique| ==> unique[i].box != unique[j].box
    ensures forall b :: Boxed(unique, b) <==> Boxed(folded, b)
  {
    unique := [];
    var seen: set<Box> := {};
    var i := 0;
    while i < |folded|
      invariant 0 <= i <= |folded|
      invariant unique == FirstRows(folded[..i])
      invariant forall b :: b in seen <==> Boxed(unique, b)
      invariant forall b :: b in seen <==> Boxed(folded[..i], b)
      invariant forall i, j :: 0 <= i < j < |unique| ==> unique[i].box != unique[j].box
    {
      var r := folded[i];
      assert folded[..i + 1][..i] == folded[..i] && folded[..i + 1] == folded[..i] + [r];
      BoxedAppend(folded[..i], r);
      if r.box !in seen {
        BoxedAppend(unique, r);
        unique := unique + [r];
        seen := seen + {r.box};
      }
      i := i + 1;
    }
    assert folded[..|folded|] == folded;
  }

  lemma BoxedAppend(rows: seq<Site>, r: Site)
    ensures forall b :: Boxed(rows + [r], b) <==> Boxed(rows, b) || b == r.box
  {
    forall b ensures Boxed(rows + [r], b) <==> Boxed(rows, b) || b == r.box {
      if Boxed(rows, b) {
        var i :| 0 <= i < |rows| && rows[i].box == b;
        assert (rows + [r])[i].box == b;
      }
      if b == r.box { assert (rows + [r])[|rows|].box == b; }
    }
  }

  predicate Maximal(rows: seq<Site>, b: Box) {
    forall i :: 0 <= i < |rows| && rows[i].box != b ==> !Covers(rows[i].box, b)
  }

  /** The rows whose box is maximal among `all`, in order. */
  function MaximalRows(rows: seq<Site>, all: seq<Site>): seq<Site> {
    if rows == [] then []
    else
      var last := rows[|rows| - 1];
      MaximalRows(rows[..|rows| - 1], all) + if Maximal(all, last.box) then [last] else []
  }

  method KeepMaximal(unique: seq<Site>) returns (kept: seq<Site>)
    ensures kept == MaximalRows(unique, unique)
    ensures forall r :: r in kept <==> r in unique && forall o :: o in unique && o.box != r.box ==> !Covers(o.box, r.box)
  {
    kept := [];
    var i := 0;
    while i < |unique|
      invariant 0 <= i <= |unique|
      invariant kept == MaximalRows(unique[..i], unique)
      invariant forall r :: r in kept <==> r in unique[..i] && Maximal(unique, r.box)
    {
      assert unique[..i + 1] == unique[..i] + [unique[i]] && unique[..i + 1][..i] == unique[..i];
      if Maximal(unique, unique[i].box) {
        kept := kept + [unique[i]];
      }
      i := i + 1;
    }
    assert unique[..|unique|] == unique;
    forall b ensures Maximal(unique, b) <==> forall o :: o in unique && o.box != b ==> !Covers(o.box, b) {
      if Maximal(unique, b) {
        forall o | o in unique && o.box != b ensures !Covers(o.box, b) {
          var i :| 0 <= i < |unique| && unique[i] == o;
        }
      } else {
        var i :| 0 <= i < |unique| && unique[i].box != b && Covers(unique[i].box, b);
        assert unique[i] in unique;
      }
    }
  }

  /** Nothing folded is lost: every box lies in a maximal one. */
  lemma {:induction false} MaximalAbove(rows: seq<Site>, b: Box, todo: set<Box>)
    requires Boxed(rows, b)
    requires forall i :: 0 <= i < |rows| && rows[i].box != b && Covers(rows[i].box, b) ==> rows[i].box in todo
    ensures exists m :: Boxed(rows, m) && Maximal(rows, m) && Covers(m, b)
    decreases |todo|
  {
    if !Maximal(rows, b) {
      var i :| 0 <= i < |rows| && rows[i].box != b && Covers(rows[i].box, b);
      MaximalAbove(rows, rows[i].box, todo - {rows[i].box});
      var m :| Boxed(rows, m) && Maximal(rows, m) && Covers(m, rows[i].box);
      assert Covers(m, b);
    } else {
      assert Covers(b, b);
    }
  }

  lemma EveryFoldedBoxIsKept(rows: seq<Site>)
    ensures forall b :: Boxed(rows, b) ==> exists m :: Boxed(rows, m) && Maximal(rows, m) && Covers(m, b)
  {
    forall b | Boxed(rows, b) ensures exists m :: Boxed(rows, m) && Maximal(rows, m) && Covers(m, b) {
      MaximalAbove(rows, b, set r | r in rows :: r.box);
    }
  }

  /** Span containment as positions order: line first, then column. */
  predicate SpanInside(outer: Box, inner: Box) {
    && (outer.line < inner.line || (outer.line == inner.line && outer.col <= inner.col))
    && (outer.endLine > inner.endLine || (outer.endLine == inner.endLine && outer.endCol >= inner.endCol))
  }

  /** The code's containment is span containment exactly when the columns nest
      too; across lines an inner span may start left of its outer one, and is
      then kept beside it. */
  lemma CoversIsSpanExactly(outer: Box, inner: Box)
    requires outer.line <= outer.endLine && inner.line <= inner.endLine
    ensures Covers(outer, inner)
         == (SpanInside(outer, inner) && outer.col <= inner.col && outer.endCol >= inner.endCol)
    ensures exists o, i :: SpanInside(o, i) && !Covers(o, i)
  {
    assert SpanInside(Box(1, 10, 3, 2), Box(2, 4, 2, 9)) && !Covers(Box(1, 10, 3, 2), Box(2, 4, 2, 9));
  }
}
