/** Properties of `Interpreter.Eval`: what each kind of expression does to
    the result and to the environment, and how sequences compose. */
module InterpreterLaws {
  import opened Results
  import opened Ast
  import opened Interpreter

  /** Looking up a word returns exactly its binding and changes nothing;
      an unbound word fails with a message naming it. */
  lemma EvalWordLooksUp(name: string, env: Env)
    ensures var o := Eval(Ast.Word(name), env);
            && o.env == env
            && (o.result.Ok? <==> name in env)
            && (name in env ==> o.result.value == env[name])
            && (name !in env ==> o.result == Err("Unbound variable: " + name))
  {
  }

  /** A function expression never fails: it yields a closure over the
      current environment and leaves the environment alone. */
  lemma EvalFunctionCaptures(params: seq<string>, body: Expr, env: Env)
    ensures var o := Eval(Function(params, body), env);
            && o.env == env
            && o.result == Ok(Closure(params, body, env))
  {
  }

  /** A successful define returns the value of its body and binds the name
      to it, overwriting any earlier binding, in the environment the body
      left behind; no other name changes. A failing body is passed on as
      is. */
  lemma EvalDefineBinds(name: string, body: Expr, env: Env)
    ensures var ob := Eval(body, env);
            var o := Eval(Define(name, body), env);
            && (ob.result.Err? ==> o == ob)
            && (ob.result.Ok? ==>
                  && o.result == ob.result
                  && o.env.Keys == ob.env.Keys + {name}
                  && o.env[name] == ob.result.value
                  && (forall k :: k in ob.env && k != name ==> o.env[k] == ob.env[k]))
  {
  }

  /** A closure keeps the environment it was created in: redefining a name
      afterwards changes the interpreter's environment but not the closure
      an earlier define stored. */
  lemma ClosureIsSnapshot(f: string, params: seq<string>, body: Expr,
                          x: string, rhs: Expr, env: Env)
    requires f != x && f !in DefinedNames(rhs)
    ensures var o := Eval(Sequence([Define(f, Function(params, body)), Define(x, rhs), Ast.Word(f)]), env);
            o.result.Ok? ==>
              && o.result.value == Closure(params, body, env)
              && x in o.env
              && f in o.env && o.env[f] == Closure(params, body, env)
  {
    var es := [Define(f, Function(params, body)), Define(x, rhs), Ast.Word(f)];
    assert es[1..] == [Define(x, rhs), Ast.Word(f)];
    assert es[1..][1..] == [Ast.Word(f)];
    assert es[1..][1..][1..] == [];
    var c := Closure(params, body, env);
    var env1 := env[f := c];
    assert Eval(Function(params, body), env) == Outcome(Ok(c), env);
    var o1 := Eval(Define(f, Function(params, body)), env);
    assert o1 == Outcome(Ok(c), env1);
    var o2 := Eval(Define(x, rhs), env1);
    if o2.result.Ok? {
      assert f in o2.env && o2.env[f] == c;
      assert Eval(Ast.Word(f), o2.env) == Outcome(Ok(c), o2.env);
      calc {
        Eval(Sequence(es), env);
        EvalSeq(es, env, None);
        EvalSeq(es[1..], env1, Some(c));
        EvalSeq(es[1..][1..], o2.env, Some(o2.result.value));
        EvalSeq(es[1..][1..][1..], o2.env, Some(c));
        Outcome(Ok(c), o2.env);
      }
    } else {
      assert Eval(Sequence(es), env) == EvalSeq(es[1..], env1, Some(c)) == o2;
    }
  }

  /** The empty sequence is an error. */
  lemma EvalEmptySequence(env: Env)
    ensures Eval(Sequence([]), env) == Outcome(Err("Empty sequence"), env)
  {
  }

  /** A one-element sequence behaves exactly like its element. */
  lemma EvalSingleton(x: Expr, env: Env)
    ensures Eval(Sequence([x]), env) == Eval(x, env)
  {
    var o := Eval(x, env);
    if o.result.Ok? {
      assert [x][1..] == [];
      assert o == Outcome(Ok(o.result.value), o.env);
      assert EvalSeq([], o.env, Some(o.result.value)) == o;
      assert EvalSeq([x], env, None) == EvalSeq([x][1..], o.env, Some(o.result.value));
    }
  }

  /** Once one element has been evaluated, the remembered last value no
      longer matters. */
  lemma LastIrrelevant(es: seq<Expr>, env: Env, l1: Option<Value>, l2: Option<Value>)
    requires |es| > 0
    ensures EvalSeq(es, env, l1) == EvalSeq(es, env, l2)
  {
  }

  lemma {:induction false} EvalSeqAppend(a: seq<Expr>, b: seq<Expr>, env: Env, last: Option<Value>)
    requires |a| > 0
    ensures var oa := EvalSeq(a, env, last);
            EvalSeq(a + b, env, last)
              == if oa.result.Err? then oa else EvalSeq(b, oa.env, Some(oa.result.value))
    decreases |a|
  {
    var o := Eval(a[0], env);
    assert (a + b)[0] == a[0];
    assert (a + b)[1..] == a[1..] + b;
    if o.result.Ok? {
      if |a| == 1 {
        assert a[1..] + b == b;
      } else {
        EvalSeqAppend(a[1..], b, o.env, Some(o.result.value));
      }
    }
  }

  /** Sequences compose: evaluating `a + b` is evaluating `a` and then, in
      the environment it leaves and unless it failed, `b`. */
  lemma SequenceSplit(a: seq<Expr>, b: seq<Expr>, env: Env)
    requires |a| > 0 && |b| > 0
    ensures var oa := Eval(Sequence(a), env);
            Eval(Sequence(a + b), env)
              == if oa.result.Err? then oa else Eval(Sequence(b), oa.env)
  {
    EvalSeqAppend(a, b, env, None);
    var oa := Eval(Sequence(a), env);
    if oa.result.Ok? {
      LastIrrelevant(b, oa.env, Some(oa.result.value), None);
    }
  }

  /** The environment in which the element at index `j` of `es` is
      evaluated, provided the elements before it all succeeded. */
  function EnvBefore(es: seq<Expr>, j: nat, env: Env): (before: Env)
    requires j <= |es|
  {
    if j == 0 then env else Eval(Sequence(es[..j]), env).env
  }

  /** The first failing element ends the sequence: its error and the
      environment it leaves are the sequence's, and the bindings made by
      the elements before it are kept. */
  lemma FirstErrorAborts(es: seq<Expr>, j: nat, env: Env)
    requires j < |es|
    requires j == 0 || Eval(Sequence(es[..j]), env).result.Ok?
    requires Eval(es[j], EnvBefore(es, j, env)).result.Err?
    ensures Eval(Sequence(es), env) == Eval(es[j], EnvBefore(es, j, env))
    ensures EnvBefore(es, j, env).Keys <= Eval(Sequence(es), env).env.Keys
  {
    var envj := EnvBefore(es, j, env);
    assert es[j..][0] == es[j];
    if j > 0 {
      assert es == es[..j] + es[j..];
      SequenceSplit(es[..j], es[j..], env);
    } else {
      assert es[j..] == es;
    }
  }

  /** A successful sequence yields the value of its last element, evaluated
      after all the others. */
  lemma SequenceReturnsLast(es: seq<Expr>, env: Env)
    requires |es| > 0
    requires Eval(Sequence(es), env).result.Ok?
    ensures var n := |es| - 1;
            && (n == 0 || Eval(Sequence(es[..n]), env).result.Ok?)
            && Eval(Sequence(es), env) == Eval(es[n], EnvBefore(es, n, env))
  {
    var n := |es| - 1;
    if n == 0 {
      assert es == [es[0]];
      EvalSingleton(es[0], env);
    } else {
      assert es == es[..n] + [es[n]];
      SequenceSplit(es[..n], [es[n]], env);
      EvalSingleton(es[n], Eval(Sequence(es[..n]), env).env);
    }
  }

  /** Defines inside a sequence are not undone when it ends: once a define
      and everything before it succeeded, its name stays bound, whether or
      not the rest of the sequence succeeds. */
  lemma DefinitionsPersist(es: seq<Expr>, i: nat, env: Env)
    requires i < |es| && es[i].Define?
    requires Eval(Sequence(es[..i + 1]), env).result.Ok?
    ensures es[i].name in Eval(Sequence(es), env).env
  {
    var p := es[..i + 1];
    SequenceReturnsLast(p, env);
    assert p[..i] == es[..i];
    assert es[i].name in Eval(Sequence(p), env).env;
    if i + 1 < |es| {
      assert es == p + es[i + 1..];
      SequenceSplit(p, es[i + 1..], env);
    } else {
      assert es == p;
    }
  }

  /** Starting from a fresh interpreter, every value ever produced or bound
      is a closure: a `Value::Word` never arises. */
  lemma FreshInterpreterYieldsClosures(e: Expr)
    ensures OnlyClosures(New().env)
    ensures var o := Eval(e, New().env);
            && OnlyClosures(o.env)
            && (o.result.Ok? ==> o.result.value.Closure? && !o.result.value.Word?)
  {
  }
}
