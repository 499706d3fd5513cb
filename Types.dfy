/** The type model: concrete types, the wildcard and type variables; function
    types as trees of them; their rendering; and rewriting of variables. */
module Types {
  import opened Results
  import opened Containers

  /** A variable's identifier. */
  type Var = string

  /** `Typ` is a named type with ordered parameters, `Any` the wildcard that
      carries no information, `TypVar` a placeholder identified by its name. */
  datatype TypPlus = Typ(tag: string, params: seq<TypPlus>) | Any | TypVar(id: Var)

  /** A curried function type: a Node is "left -> right", a Leaf a plain type. */
  type FT = Tree<TypPlus>

  // ---------------------------------------------------------------------------
  // Variables

  /** Variable `v` occurs in `t`, at the top or nested in parameters. */
  predicate Occurs(v: Var, t: TypPlus) {
    match t
    case Typ(_, ps) => exists i :: 0 <= i < |ps| && Occurs(v, ps[i])
    case Any => false
    case TypVar(w) => w == v
  }

  /** `t` mentions no variable at any depth. */
  predicate VarFree(t: TypPlus) {
    match t
    case Typ(_, ps) => forall i :: 0 <= i < |ps| ==> VarFree(ps[i])
    case Any => true
    case TypVar(_) => false
  }

  lemma {:induction false} VarFreeNoOccurrence(t: TypPlus)
    ensures VarFree(t) <==> forall v :: !Occurs(v, t)
  {
    match t
    case Typ(_, ps) =>
      forall i | 0 <= i < |ps| ensures VarFree(ps[i]) <==> forall v :: !Occurs(v, ps[i]) {
        VarFreeNoOccurrence(ps[i]);
      }
      if !VarFree(t) {
        var i :| 0 <= i < |ps| && !VarFree(ps[i]);
        var v :| Occurs(v, ps[i]);
        assert Occurs(v, t);
      }
    case Any =>
    case TypVar(w) => assert Occurs(w, t);
  }

  /** Variable `v` occurs somewhere in the leaves of a function type. */
  predicate OccursFT(v: Var, ft: FT) {
    match ft
    case Leaf(t) => Occurs(v, t)
    case Node(l, r) => OccursFT(v, l) || OccursFT(v, r)
  }

  // ---------------------------------------------------------------------------
  // Formatting

  /** JavaScript's `Array.prototype.join`. */
  function Join(sep: string, xs: seq<string>): string {
    if |xs| == 0 then "" else if |xs| == 1 then xs[0] else xs[0] + sep + Join(sep, xs[1..])
  }

  /** `format`: a `Typ` is its tag, one space, then its rendered parameters
      separated by spaces; the wildcard is "Any"; a variable is its name. */
  function Format(t: TypPlus): string {
    match t
    case Typ(tag, ps) => tag + " " + Join(" ", seq(|ps|, i requires 0 <= i < |ps| => Format(ps[i])))
    case Any => "Any"
    case TypVar(id) => id
  }

  /** `formatFT`: "left -> right", with the left side parenthesised exactly
      when it is itself a function type. */
  function FormatFT(ft: FT): string {
    match ft
    case Leaf(t) => Format(t)
    case Node(l, r) =>
      (if l.Node? then "(" + FormatFT(l) + ")" else FormatFT(l)) + " -> " + FormatFT(r)
  }

  /** A nullary type keeps the separator after its tag: "Num " for `Num`. */
  lemma FormatNullary(tag: string)
    ensures Format(Typ(tag, [])) == tag + " "
  {
  }

  /** A first-order curried type `t1 -> ... -> tn` renders as the rendered
      leaves joined by " -> ", with no parentheses. */
  lemma {:induction false} FormatFTChain(ts: seq<TypPlus>)
    requires |ts| >= 1
    ensures FormatFT(Build(MapSeq(t => Leaf(t), ts))) == Join(" -> ", MapSeq(Format, ts))
  {
    if |ts| > 1 {
      FormatFTChain(ts[1..]);
      assert MapSeq(t => Leaf(t), ts)[1..] == MapSeq(t => Leaf(t), ts[1..]);
      assert MapSeq(Format, ts)[1..] == MapSeq(Format, ts[1..]);
    }
  }

  lemma FormatExamples()
    ensures Format(Typ("Seq", [Typ("Num", [])])) == "Seq Num "
    ensures Format(Typ("Pair", [TypVar("a"), Any])) == "Pair a Any"
    ensures FormatFT(Build([Build([Leaf(TypVar("a")), Leaf(TypVar("a"))]), Leaf(TypVar("b"))])) == "(a -> a) -> b"
  {
    assert Format(Typ("Num", [])) == "Num ";
    assert seq(1, i requires 0 <= i < 1 => Format([Typ("Num", [])][i])) == ["Num "];
    assert seq(2, i requires 0 <= i < 2 => Format([TypVar("a"), Any][i])) == ["a", "Any"];
    assert Join(" ", ["a", "Any"]) == "a" + " " + Join(" ", ["Any"]);
  }

  // ---------------------------------------------------------------------------
  // Argument and return positions

  /** `arg`: the type of the first argument of a function type. */
  function Arg(ft: FT): (r: Result<FT>)
    ensures r.Ok? <==> ft.Node?
    ensures r.Err? ==> r.error == LeafAccess
    ensures r.Ok? ==> r.value == ft.left
  {
    if ft.Leaf? then Err(LeafAccess) else Ok(ft.left)
  }

  /** `ret`: what remains of a function type once its first argument is given. */
  function Ret(ft: FT): (r: Result<FT>)
    ensures r.Ok? <==> ft.Node?
    ensures r.Err? ==> r.error == LeafAccess
    ensures r.Ok? ==> r.value == ft.right
  {
    if ft.Leaf? then Err(LeafAccess) else Ok(ft.right)
  }

  /** Argument and return position together make up the function type. */
  lemma ArgRetSplit(ft: FT)
    requires ft.Node?
    ensures Node(Arg(ft).value, Ret(ft).value) == ft
  {
  }

  // ---------------------------------------------------------------------------
  // Rewriting variables

  /** `replaceParams`: replaces every variable of `t`, at any depth, by what `f`
      gives for its name; tags, parameter counts and wildcards are kept. */
  function ReplaceParams(f: Var -> TypPlus, t: TypPlus): (r: TypPlus)
    ensures t.Typ? ==> r.Typ? && r.tag == t.tag && |r.params| == |t.params|
    ensures t.Any? ==> r == Any
    ensures t.TypVar? ==> r == f(t.id)
    ensures t.Typ? ==> forall i :: 0 <= i < |t.params| ==> r.params[i] == ReplaceParams(f, t.params[i])
  {
    match t
    case Typ(tag, ps) => Typ(tag, seq(|ps|, i requires 0 <= i < |ps| => ReplaceParams(f, ps[i])))
    case Any => t
    case TypVar(v) => f(v)
  }

  /** Replacing every variable by a variable-free type leaves none behind. */
  lemma {:induction false} ReplaceParamsVarFree(f: Var -> TypPlus, t: TypPlus)
    requires forall v :: Occurs(v, t) ==> VarFree(f(v))
    ensures VarFree(ReplaceParams(f, t))
  {
    match t
    case Typ(tag, ps) =>
      forall i | 0 <= i < |ps| ensures VarFree(ReplaceParams(f, t).params[i]) {
        forall v | Occurs(v, ps[i]) ensures VarFree(f(v)) { assert Occurs(v, t); }
        ReplaceParamsVarFree(f, ps[i]);
      }
    case Any =>
    case TypVar(v) => assert Occurs(v, t);
  }

  /** Every variable of the result comes from the replacement of a variable of `t`. */
  lemma {:induction false} ReplaceParamsOccurs(f: Var -> TypPlus, t: TypPlus, w: Var)
    requires Occurs(w, ReplaceParams(f, t))
    ensures exists v :: Occurs(v, t) && Occurs(w, f(v))
  {
    match t
    case Typ(tag, ps) =>
      var i :| 0 <= i < |ps| && Occurs(w, ReplaceParams(f, t).params[i]);
      ReplaceParamsOccurs(f, ps[i], w);
      var v :| Occurs(v, ps[i]) && Occurs(w, f(v));
      assert Occurs(v, t);
    case Any =>
    case TypVar(v) => assert Occurs(v, t);
  }

  /** Replacing each variable by itself changes nothing. */
  lemma {:induction false} ReplaceParamsIdentity(f: Var -> TypPlus, t: TypPlus)
    requires forall v :: Occurs(v, t) ==> f(v) == TypVar(v)
    ensures ReplaceParams(f, t) == t
  {
    match t
    case Typ(tag, ps) =>
      forall i | 0 <= i < |ps| ensures ReplaceParams(f, t).params[i] == ps[i] {
        forall v | Occurs(v, ps[i]) ensures f(v) == TypVar(v) { assert Occurs(v, t); }
        ReplaceParamsIdentity(f, ps[i]);
      }
      assert ReplaceParams(f, t).params == ps;
    case Any =>
    case TypVar(v) => assert Occurs(v, t);
  }

  function ToAny(v: Var): TypPlus {
    Any
  }

  /** `stripParams`: every variable of `t`, at any depth, becomes the wildcard;
      the result mentions no variable, and a variable-free type is unchanged. */
  function StripParams(t: TypPlus): (r: TypPlus)
    ensures VarFree(r)
    ensures VarFree(t) ==> r == t
    ensures t.TypVar? ==> r == Any
    ensures t.Typ? ==> r.Typ? && r.tag == t.tag && |r.params| == |t.params|
    ensures t.Typ? ==> forall i :: 0 <= i < |t.params| ==> r.params[i] == StripParams(t.params[i])
  {
    ReplaceParamsVarFree(ToAny, t);
    VarFreeNoOccurrence(t);
    var r := ReplaceParams(ToAny, t);
    if VarFree(t) then ReplaceParamsIdentity(ToAny, t); r else r
  }

  lemma StripParamsExample()
    ensures StripParams(Typ("Map", [TypVar("k"), Typ("Seq", [TypVar("v")])]))
         == Typ("Map", [Any, Typ("Seq", [Any])])
  {
    var inner := Typ("Seq", [TypVar("v")]);
    assert ReplaceParams(ToAny, TypVar("v")) == Any;
    assert ReplaceParams(ToAny, inner).params == [Any];
    assert ReplaceParams(ToAny, inner) == Typ("Seq", [Any]);
    assert ReplaceParams(ToAny, Typ("Map", [TypVar("k"), inner])).params == [Any, Typ("Seq", [Any])];
  }
}
