/** Applying a curried function type to an argument type by two passes of
    one-directional matching. */
module Unification {
  import opened Results
  import opened Containers
  import opened Types
  import opened Substitution

  /** `unify(at, f, x)`: the part `at(f)` is matched against `x`, which binds
      variables of `x`; those bindings are applied to `x`, and the result is
      matched back against `at(f)`, which binds variables of `f`; the second
      bindings are applied to the whole of `f`. */
  function Unify(at: FT -> Result<FT>, f: FT, x: FT): Result<FT> {
    var f' :- at(f);
    var s1 :- CalcSubst(f', x);
    var x' := ApplySubst(x, s1);
    var s2 :- CalcSubst(x', f');
    Ok(ApplySubst(f, s2))
  }

  /** `apply(f, x)`: the type of `f` applied to one argument of type `x`. */
  function Apply(f: FT, x: FT): Result<FT> {
    var u :- Unify(Arg, f, x);
    Ret(u)
  }

  /** The substitution the second pass of `apply` computes, when it does. */
  function SecondPass(f: FT, x: FT): Result<Subst>
    requires f.Node?
  {
    var s1 :- CalcSubst(f.left, x);
    CalcSubst(ApplySubst(x, s1), f.left)
  }

  lemma ApplyBySecondPass(f: FT, x: FT)
    requires f.Node?
    ensures Apply(f, x).Ok? <==> SecondPass(f, x).Ok?
    ensures Apply(f, x).Ok? ==> Apply(f, x).value == ApplySubst(f.right, SecondPass(f, x).value)
  {
  }

  /** `unify` only instantiates variables: the result has the shape of `f`. */
  lemma UnifyKeepsShape(at: FT -> Result<FT>, f: FT, x: FT)
    requires Unify(at, f, x).Ok?
    ensures SameShape(f, Unify(at, f, x).value)
  {
  }

  /** The result of `apply` is the return part of `f` with some variables of
      its argument part replaced by variable-free types, and nothing else. */
  lemma ApplyInstantiates(f: FT, x: FT)
    requires Apply(f, x).Ok?
    ensures f.Node?
    ensures exists s: Subst :: && SubstVarFree(s)
                               && (forall k :: k in s ==> OccursFT(k, f.left))
                               && Apply(f, x).value == ApplySubst(f.right, s)
  {
    ApplyBySecondPass(f, x);
    var s1 := CalcSubst(f.left, x).value;
    var s2 := SecondPass(f, x).value;
    CalcSubstBindsRightVarsOnly(ApplySubst(x, s1), f.left);
  }

  /** The result has the shape of the return part, mentions only variables of
      the return part, and none of those the second pass binds. */
  lemma ApplyNoNewVariables(f: FT, x: FT, w: Var)
    requires Apply(f, x).Ok?
    ensures f.Node? && SameShape(f.right, Apply(f, x).value)
    ensures OccursFT(w, Apply(f, x).value) ==> OccursFT(w, f.right) && w !in SecondPass(f, x).value
  {
    ApplyBySecondPass(f, x);
    var s1 := CalcSubst(f.left, x).value;
    var s2 := SecondPass(f, x).value;
    CalcSubstBindsRightVarsOnly(ApplySubst(x, s1), f.left);
    if OccursFT(w, Apply(f, x).value) {
      ApplySubstEliminates(f.right, s2, w);
    }
  }

  /** A function whose argument part has no variables returns its return part
      unchanged. */
  lemma ApplyMonomorphicArgument(f: FT, x: FT)
    requires f.Node? && forall v :: !OccursFT(v, f.left)
    requires Apply(f, x).Ok?
    ensures Apply(f, x).value == f.right
  {
    ApplyBySecondPass(f, x);
    var s1 := CalcSubst(f.left, x).value;
    var s2 := SecondPass(f, x).value;
    CalcSubstBindsRightVarsOnly(ApplySubst(x, s1), f.left);
    ApplySubstOfUnbound(f.right, s2);
  }

  /** A variable-free argument compatible with the argument part is accepted. */
  lemma ApplyConcreteArgument(f: FT, x: FT)
    requires f.Node? && forall v :: !OccursFT(v, x)
    requires LeafwiseCompatible(f.left, x)
    ensures Apply(f, x).Ok?
  {
    CalcSubstOk(f.left, x);
    var s1 := CalcSubst(f.left, x).value;
    CalcSubstBindsRightVarsOnly(f.left, x);
    assert s1 == map[];
    ApplySubstEmpty(x);
    LeafwiseCompatibleSymmetric(f.left, x);
    CalcSubstOk(x, f.left);
    ApplyBySecondPass(f, x);
  }

  /** How `apply` fails: LeafAccess exactly on a leaf, ZipShapeMismatch exactly
      when the argument's shape differs from the argument part's, and
      TypeMismatch when the shapes agree but a leaf pair does not. */
  lemma ApplyErrors(f: FT, x: FT)
    ensures Apply(f, x) == Err(LeafAccess) <==> f.Leaf?
    ensures f.Node? ==> (Apply(f, x) == Err(ZipShapeMismatch) <==> !SameShape(f.left, x))
    ensures f.Node? && SameShape(f.left, x) && !LeafwiseCompatible(f.left, x) ==> Apply(f, x) == Err(TypeMismatch)
  {
    if f.Node? {
      CalcSubstOk(f.left, x);
      if SameShape(f.left, x) {
        CalcSubstSameShapeError(f.left, x);
        var r1 := CalcSubst(f.left, x);
        if r1.Ok? {
          var x' := ApplySubst(x, r1.value);
          SameShapeSymmetric(x, x');
          SameShapeSymmetric(f.left, x);
          SameShapeTransitive(x', x, f.left);
          CalcSubstSameShapeError(x', f.left);
        }
      }
    }
  }

  /** `Pair Num Str` against `Pair a a`: `a` is offered Num and then Str, and
      the merge keeps Num without reporting the conflict. */
  lemma CalcSubstConflictingPair()
    ensures CalcSubstTyp(Typ("Pair", [Num(), Str()]), Typ("Pair", [TypVar("a"), TypVar("a")]))
         == Ok(map["a" := Num()])
  {
    var p, q := Typ("Pair", [Num(), Str()]), Typ("Pair", [TypVar("a"), TypVar("a")]);
    assert p.params[0] == Num() && p.params[1] == Str();
    assert q.params[0] == TypVar("a") && q.params[1] == TypVar("a");
    CalcSubstTypBinds(Num(), "a");
    CalcSubstTypBinds(Str(), "a");
    var m1, m2 := map["a" := Num()], map["a" := Str()];
    assert CalcSubstParams(p, q, 2) == Ok([]);
    assert [m2] + [] == [m2];
    assert CalcSubstTyp(p.params[1], q.params[1]) == Ok(m2);
    assert CalcSubstParams(p, q, 1) == Ok([m2]);
    assert CalcSubstTyp(p.params[0], q.params[0]) == Ok(m1);
    assert [m1] + [m2] == [m1, m2];
    assert CalcSubstParams(p, q, 0) == Ok([m1, m2]);
    assert [m1, m2][..1] == [m1] && [m1][..0] == [];
    MergeSubstUnit(m1);
    assert MergeSubsts([m1]) == m1;
    MergeSubstConflictKeepsFirst(m1, m2, "a");
    assert MergeSubst(m1, m2) == m1;
    assert MergeSubsts([m1, m2]) == m1;
  }

  /** The converse of the last clause of `ApplyErrors` does not hold: a leafwise
      compatible argument can still be rejected. Against `Pair Num Str`, the
      argument `Pair a a` passes the first pass, whose merge keeps `a := Num`
      and drops the conflicting `a := Str`. The second pass then meets
      `Pair Num Num` against `Pair Num Str` and reports the conflict. */
  lemma ApplyRejectsConflictingBindings()
    ensures var f := Node(Leaf(Typ("Pair", [Num(), Str()])), Leaf(Num()));
            var x := Leaf(Typ("Pair", [TypVar("a"), TypVar("a")]));
            && LeafwiseCompatible(f.left, x)
            && CalcSubst(f.left, x) == Ok(map["a" := Num()])
            && Apply(f, x) == Err(TypeMismatch)
  {
    var p, q := Typ("Pair", [Num(), Str()]), Typ("Pair", [TypVar("a"), TypVar("a")]);
    var f, x := Node(Leaf(p), Leaf(Num())), Leaf(q);
    var m1 := map["a" := Num()];
    assert p.params[0] == Num() && p.params[1] == Str();
    assert q.params[0] == TypVar("a") && q.params[1] == TypVar("a");
    assert Compatible(p, q);
    // First pass: the merge keeps `a := Num`.
    CalcSubstConflictingPair();
    CalcSubstLeaf(p, q);
    assert CalcSubst(f.left, x) == Ok(m1);
    // Second pass: the rewritten argument `Pair Num Num` against `Pair Num Str`.
    var q' := Typ("Pair", [Num(), Num()]);
    ApplySubstNum(m1);
    assert ReplaceParams(Replacer(m1), q).params == [Num(), Num()];
    assert ApplySubst(x, m1) == Leaf(q');
    assert q'.params[1] == Num();
    assert !Compatible(q'.params[1], p.params[1]);
    assert !Compatible(q', p);
    CalcSubstTypOk(q', p);
    CalcSubstLeaf(q', p);
    assert CalcSubst(ApplySubst(x, m1), f.left) == Err(TypeMismatch);
  }

  /** The mirror case: an argument whose two parts disagree is accepted. For
      `Pair a a -> a` applied to `Pair Num Str`, the first pass binds nothing;
      the second offers `a := Num` and `a := Str`, and the merge keeps Num. */
  lemma ApplyAcceptsConflictingArgument()
    ensures Apply(Node(Leaf(Typ("Pair", [TypVar("a"), TypVar("a")])), Leaf(TypVar("a"))),
                  Leaf(Typ("Pair", [Num(), Str()])))
         == Ok(Leaf(Num()))
  {
    var p, q := Typ("Pair", [Num(), Str()]), Typ("Pair", [TypVar("a"), TypVar("a")]);
    var f, x := Node(Leaf(q), Leaf(TypVar("a"))), Leaf(p);
    var m1 := map["a" := Num()];
    assert p.params[0] == Num() && p.params[1] == Str();
    assert q.params[0] == TypVar("a") && q.params[1] == TypVar("a");
    // First pass: variables on the left bind nothing.
    assert Compatible(q, p);
    CalcSubstOk(f.left, x);
    CalcSubstBindsRightVarsOnly(f.left, x);
    forall k ensures !OccursFT(k, x) {
      assert !Occurs(k, p.params[0]) && !Occurs(k, p.params[1]);
    }
    assert CalcSubst(f.left, x) == Ok(map[]);
    ApplySubstEmpty(x);
    // Second pass: the merge keeps `a := Num`.
    CalcSubstConflictingPair();
    CalcSubstLeaf(p, q);
    assert SecondPass(f, x) == Ok(m1);
    ApplyBySecondPass(f, x);
  }

  // ---------------------------------------------------------------------------
  // The applications of the original's test suite

  function Num(): TypPlus {
    Typ("Num", [])
  }

  function Str(): TypPlus {
    Typ("Str", [])
  }

  function SeqOf(t: TypPlus): TypPlus {
    Typ("Seq", [t])
  }

  /** `Num -> Num -> Num`. */
  function AddType(): FT {
    Build([Leaf(Num()), Leaf(Num()), Leaf(Num())])
  }

  /** `Seq a -> (a -> b) -> Seq b`. */
  function MapType(): FT {
    Build([Leaf(SeqOf(TypVar("a"))), Build([Leaf(TypVar("a")), Leaf(TypVar("b"))]), Leaf(SeqOf(TypVar("b")))])
  }

  /** `a -> Seq b -> (a -> b -> a) -> a`. */
  function FoldType(): FT {
    Build([Leaf(TypVar("a")), Leaf(SeqOf(TypVar("b"))),
           Build([Leaf(TypVar("a")), Leaf(TypVar("b")), Leaf(TypVar("a"))]), Leaf(TypVar("a"))])
  }

  /** Matching `Typ(tag, [p])` against `Typ(tag, [q])` is matching `p` against `q`. */
  lemma CalcSubstTypSingleParam(tag: string, p: TypPlus, q: TypPlus)
    ensures CalcSubstTyp(Typ(tag, [p]), Typ(tag, [q])) == CalcSubstTyp(p, q)
  {
    var l, r := Typ(tag, [p]), Typ(tag, [q]);
    assert l.params[0] == p && r.params[0] == q;
    CalcSubstTypOk(p, q);
    if CalcSubstTyp(p, q).Ok? {
      var s := CalcSubstTyp(p, q).value;
      assert CalcSubstParams(l, r, 1) == Ok([]);
      assert [s] + [] == [s];
      assert CalcSubstParams(l, r, 0) == Ok([s]);
      assert [s][..0] == [];
      MergeSubstUnit(s);
      assert MergeSubsts([s]) == MergeSubst(map[], s) == s;
      assert CalcSubstConcreteTyp(l, r) == Ok(s);
    } else {
      assert CalcSubstParams(l, r, 0) == Err(TypeMismatch);
    }
  }

  /** A variable on the right facing a variable-free concrete type is bound to it. */
  lemma CalcSubstTypBinds(l: TypPlus, id: Var)
    requires l.Typ? && VarFree(l)
    ensures CalcSubstTyp(l, TypVar(id)) == Ok(map[id := l])
  {
  }

  lemma CalcSubstTypNum()
    ensures CalcSubstTyp(Num(), Num()) == Ok(map[])
  {
    assert CalcSubstParams(Num(), Num(), 0) == Ok([]);
  }

  lemma ApplySubstNum(s: Subst)
    ensures Rewriter(s)(Num()) == Num()
  {
    assert ReplaceParams(Replacer(s), Num()).params == [];
  }

  lemma ApplySubstSeq(s: Subst, v: Var)
    requires v in s
    ensures Rewriter(s)(SeqOf(TypVar(v))) == SeqOf(s[v])
  {
    assert ReplaceParams(Replacer(s), SeqOf(TypVar(v))).params == [s[v]];
  }

  lemma ApplyAddExample()
    ensures Apply(AddType(), Leaf(Num())) == Ok(Node(Leaf(Num()), Leaf(Num())))
    ensures Apply(Node(Leaf(Num()), Leaf(Num())), Leaf(Num())) == Ok(Leaf(Num()))
  {
    var num := Leaf(Num());
    var f, g := AddType(), Node(num, num);
    assert f == Node(num, g);
    assert forall v :: !OccursFT(v, num);
    CalcSubstTypNum();
    CompatibleSymmetric(Num(), Num());
    assert LeafwiseCompatible(num, num);
    ApplyConcreteArgument(f, num);
    ApplyMonomorphicArgument(f, num);
    ApplyConcreteArgument(g, num);
    ApplyMonomorphicArgument(g, num);
  }

  /** `map` applied to `Seq Num`: the second pass binds `a := Num`. */
  lemma ApplyMapFirst()
    ensures Apply(MapType(), Leaf(SeqOf(Num()))) ==
            Ok(Node(Node(Leaf(Num()), Leaf(TypVar("b"))), Leaf(SeqOf(TypVar("b")))))
  {
    var a, b := Leaf(TypVar("a")), Leaf(TypVar("b"));
    var f := MapType();
    var x := Leaf(SeqOf(Num()));
    assert f == Node(Leaf(SeqOf(TypVar("a"))), Node(Node(a, b), Leaf(SeqOf(TypVar("b")))));
    CalcSubstTypSingleParam("Seq", TypVar("a"), Num());
    CalcSubstLeaf(SeqOf(TypVar("a")), SeqOf(Num()));
    assert CalcSubst(f.left, x) == Ok(map[]);
    ApplySubstEmpty(x);
    CalcSubstTypSingleParam("Seq", Num(), TypVar("a"));
    CalcSubstTypBinds(Num(), "a");
    CalcSubstLeaf(SeqOf(Num()), SeqOf(TypVar("a")));
    var s2 := map["a" := Num()];
    assert SecondPass(f, x) == Ok(s2);
    ApplyBySecondPass(f, x);
    ApplySubstNum(s2);
    assert Rewriter(s2)(TypVar("a")) == Num();
    assert Rewriter(s2)(TypVar("b")) == TypVar("b");
    assert ReplaceParams(Replacer(s2), SeqOf(TypVar("b"))).params == [TypVar("b")];
    assert Rewriter(s2)(SeqOf(TypVar("b"))) == SeqOf(TypVar("b"));
  }

  /** `Num -> b` against `a -> a`: the first pass binds `a := Num`, the second
      `b := Num`. */
  lemma ApplyMapSecond()
    ensures Apply(Node(Node(Leaf(Num()), Leaf(TypVar("b"))), Leaf(SeqOf(TypVar("b")))),
                  Node(Leaf(TypVar("a")), Leaf(TypVar("a"))))
         == Ok(Leaf(SeqOf(Num())))
  {
    var num, a, b := Leaf(Num()), Leaf(TypVar("a")), Leaf(TypVar("b"));
    var g := Node(Node(num, b), Leaf(SeqOf(TypVar("b"))));
    var y := Node(a, a);
    CalcSubstTypBinds(Num(), "a");
    CalcSubstLeaf(Num(), TypVar("a"));
    CalcSubstLeaf(TypVar("b"), TypVar("a"));
    CalcSubstNode(num, b, a, a);
    var t1 := map["a" := Num()];
    assert MergeSubst(t1, map[]) == t1;
    assert CalcSubst(g.left, y) == Ok(t1);
    ApplySubstNum(t1);
    assert ApplySubst(y, t1) == Node(num, num);
    CalcSubstTypNum();
    CalcSubstLeaf(Num(), Num());
    CalcSubstTypBinds(Num(), "b");
    CalcSubstLeaf(Num(), TypVar("b"));
    CalcSubstNode(num, num, num, b);
    var t2 := map["b" := Num()];
    assert MergeSubst(map[], t2) == t2;
    assert SecondPass(g, y) == Ok(t2);
    ApplyBySecondPass(g, y);
    ApplySubstSeq(t2, "b");
  }

  lemma ApplyMapExample()
    ensures Apply(MapType(), Leaf(SeqOf(Num()))) ==
            Ok(Node(Node(Leaf(Num()), Leaf(TypVar("b"))), Leaf(SeqOf(TypVar("b")))))
    ensures Apply(Apply(MapType(), Leaf(SeqOf(Num()))).value, Node(Leaf(TypVar("a")), Leaf(TypVar("a"))))
         == Ok(Leaf(SeqOf(Num())))
  {
    ApplyMapFirst();
    ApplyMapSecond();
  }

  /** `fold` applied to `Num`: the second pass binds `a := Num`. */
  lemma ApplyFoldFirst()
    ensures Apply(FoldType(), Leaf(Num())) ==
            Ok(Node(Leaf(SeqOf(TypVar("b"))), Node(Node(Leaf(Num()), Node(Leaf(TypVar("b")), Leaf(Num()))), Leaf(Num()))))
  {
    var num, a, b := Leaf(Num()), Leaf(TypVar("a")), Leaf(TypVar("b"));
    var sb := Leaf(SeqOf(TypVar("b")));
    var f := FoldType();
    assert f == Node(a, Node(sb, Node(Node(a, Node(b, a)), a)));
    CalcSubstLeaf(TypVar("a"), Num());
    assert CalcSubst(a, num) == Ok(map[]);
    ApplySubstEmpty(num);
    CalcSubstTypBinds(Num(), "a");
    CalcSubstLeaf(Num(), TypVar("a"));
    var s := map["a" := Num()];
    assert SecondPass(f, num) == Ok(s);
    ApplyBySecondPass(f, num);
    ApplySubstNum(s);
    assert Rewriter(s)(TypVar("a")) == Num();
    assert Rewriter(s)(TypVar("b")) == TypVar("b");
    assert ReplaceParams(Replacer(s), SeqOf(TypVar("b"))).params == [TypVar("b")];
    assert Rewriter(s)(SeqOf(TypVar("b"))) == SeqOf(TypVar("b"));
  }

  /** `Seq b -> ...` applied to `Seq Num`: the second pass binds `b := Num`. */
  lemma ApplyFoldSecond()
    ensures Apply(Node(Leaf(SeqOf(TypVar("b"))), Node(Node(Leaf(Num()), Node(Leaf(TypVar("b")), Leaf(Num()))), Leaf(Num()))),
                  Leaf(SeqOf(Num())))
         == Ok(Node(Node(Leaf(Num()), Node(Leaf(Num()), Leaf(Num()))), Leaf(Num())))
  {
    var num, b := Leaf(Num()), Leaf(TypVar("b"));
    var sb := Leaf(SeqOf(TypVar("b")));
    var g := Node(sb, Node(Node(num, Node(b, num)), num));
    var y := Leaf(SeqOf(Num()));
    CalcSubstTypSingleParam("Seq", TypVar("b"), Num());
    CalcSubstLeaf(SeqOf(TypVar("b")), SeqOf(Num()));
    assert CalcSubst(sb, y) == Ok(map[]);
    ApplySubstEmpty(y);
    CalcSubstTypSingleParam("Seq", Num(), TypVar("b"));
    CalcSubstTypBinds(Num(), "b");
    CalcSubstLeaf(SeqOf(Num()), SeqOf(TypVar("b")));
    var t := map["b" := Num()];
    assert SecondPass(g, y) == Ok(t);
    ApplyBySecondPass(g, y);
    ApplySubstNum(t);
    assert Rewriter(t)(TypVar("b")) == Num();
  }

  /** `(Num -> Num -> Num) -> Num` applied to `add`, which has no variables. */
  lemma ApplyFoldThird()
    ensures Apply(Node(Node(Leaf(Num()), Node(Leaf(Num()), Leaf(Num()))), Leaf(Num())), AddType())
         == Ok(Leaf(Num()))
  {
    var num := Leaf(Num());
    var h := Node(Node(num, Node(num, num)), num);
    var add := AddType();
    assert add == Node(num, Node(num, num));
    forall v ensures !OccursFT(v, add) && !OccursFT(v, h.left) {
      assert !Occurs(v, Num());
      assert add == h.left;
    }
    CalcSubstTypNum();
    CompatibleSymmetric(Num(), Num());
    assert LeafwiseCompatible(h.left, add);
    ApplyConcreteArgument(h, add);
    ApplyMonomorphicArgument(h, add);
  }

  lemma ApplyFoldExample()
    ensures Apply(FoldType(), Leaf(Num())).Ok?
    ensures Apply(Apply(FoldType(), Leaf(Num())).value, Leaf(SeqOf(Num()))).Ok?
    ensures Apply(Apply(Apply(FoldType(), Leaf(Num())).value, Leaf(SeqOf(Num()))).value, AddType())
         == Ok(Leaf(Num()))
  {
    ApplyFoldFirst();
    ApplyFoldSecond();
    ApplyFoldThird();
  }

  /** `apply` on a plain (non-function) type fails with LeafAccess. */
  lemma ApplyLeafExample()
    ensures Apply(Leaf(Num()), Leaf(Num())) == Err(LeafAccess)
  {
  }
}
