/**
 The filter builder and the walk that decides whether a filter reads a denied attribute.  Both
 work on the same syntax tree; what its operators mean is left to the backends, so the tree is
 read here through an arbitrary interpretation.
 */
module Filters {
  import opened Results

  datatype Operator = And | Or | Other(name: string)

  datatype Expression =
    | AttributeRef(level: string, key: string)
    | FieldRef(fieldLevel: string, name: string)
    | NestedRef(nestedLevel: string)
    | Constant(rendering: string)
    | Call(op: Operator, args: seq<Expression>)
    | NilCall

  // A *Call: possibly nil, and nil means no filter.
  type Predicate = e: Expression | e.Call? || e.NilCall? witness NilCall

  // ---------- The builder ----------

  predicate Joins(op: Operator, e: Expression) {
    e.Call? && e.op == op
  }

  predicate EmptyCall(op: Operator, e: Expression) {
    Joins(op, e) && e.args == []
  }

  /** What one predicate adds to the arguments of a call of op. */
  function Share(op: Operator, p: Expression): seq<Expression> {
    if Joins(op, p) then p.args else [p]
  }

  function Arguments(op: Operator, ps: seq<Expression>): seq<Expression> {
    if ps == [] then [] else Arguments(op, ps[..|ps| - 1]) + Share(op, ps[|ps| - 1])
  }

  function Joined(op: Operator, args: seq<Expression>): Predicate {
    if args == [] then NilCall
    else if |args| == 1 && (args[0].Call? || args[0].NilCall?) then args[0]
    else Call(op, args)
  }

  function Combined(op: Operator, ps: seq<Expression>): Predicate {
    Joined(op, Arguments(op, ps))
  }

  /** combine, the function behind And and Or. */
  method Combine(op: Operator, predicates: seq<Predicate>) returns (r: Predicate)
    ensures r == Combined(op, predicates)
  {
    var args: seq<Expression> := [];
    for i := 0 to |predicates|
      invariant args == Arguments(op, predicates[..i])
    {
      assert predicates[..i + 1][..i] == predicates[..i];
      var predicate_ := predicates[i];
      if predicate_ != NilCall && predicate_.op == op {
        args := args + predicate_.args;
        continue;
      }
      args := args + [predicate_];
    }
    assert predicates[..|predicates|] == predicates;
    if |args| == 0 {
      return NilCall;
    }
    if (args[0].Call? || args[0].NilCall?) && |args| == 1 {
      return args[0];
    }
    return Call(op, args);
  }

  lemma {:induction false} ArgumentsConcat(op: Operator, ps: seq<Expression>, qs: seq<Expression>)
    ensures Arguments(op, ps + qs) == Arguments(op, ps) + Arguments(op, qs)
    decreases |qs|
  {
    hide Share;
    if qs == [] {
      assert ps + qs == ps;
    } else {
      ArgumentsConcat(op, ps, qs[..|qs| - 1]);
      assert (ps + qs)[..|ps + qs| - 1] == ps + qs[..|qs| - 1];
    }
  }

  lemma ArgumentsOne(op: Operator, p: Expression)
    ensures Arguments(op, [p]) == Share(op, p)
  {
    assert [p][..0] == [];
  }

  /** A lone predicate comes back unchanged, and so does a call of op with several arguments. */
  lemma LonePredicate(op: Operator, p: Predicate)
    requires Joins(op, p) ==> |p.args| > 1
    ensures Combined(op, [p]) == p
  {
    ArgumentsOne(op, p);
  }

  // ---------- The attribute walk ----------

  predicate References(e: Expression, key: string) {
    match e
    case AttributeRef(_, k) => k == key
    case Call(_, args) => ReferencesAny(args, key)
    case _ => false
  }

  predicate ReferencesAny(es: seq<Expression>, key: string) {
    exists i | 0 <= i < |es| :: References(es[i], key)
  }

  /** referencesAttribute: the same walk, stopping at the first argument that reads the key. */
  method ReferencesAttribute(e: Expression, key: string) returns (found: bool)
    ensures found <==> References(e, key)
    decreases e
  {
    match e
    case AttributeRef(_, k) =>
      return k == key;
    case Call(_, args) =>
      for i := 0 to |args|
        invariant forall j | 0 <= j < i :: !References(args[j], key)
      {
        var here := ReferencesAttribute(args[i], key);
        if here {
          return true;
        }
      }
      return false;
    case _ =>
      return false;
  }

  lemma ReferencesAnyConcat(es: seq<Expression>, fs: seq<Expression>, key: string)
    ensures ReferencesAny(es + fs, key) <==> ReferencesAny(es, key) || ReferencesAny(fs, key)
  {
    hide References;
    var whole := es + fs;
    if ReferencesAny(es, key) {
      var i :| 0 <= i < |es| && References(es[i], key);
      assert whole[i] == es[i];
    }
    if ReferencesAny(fs, key) {
      var i :| 0 <= i < |fs| && References(fs[i], key);
      assert whole[|es| + i] == fs[i];
    }
  }

  lemma {:induction false} ArgumentsReference(op: Operator, ps: seq<Expression>, key: string)
    ensures ReferencesAny(Arguments(op, ps), key) <==> ReferencesAny(ps, key)
  {
    hide ReferencesAny;
    if ps != [] {
      var front, last := ps[..|ps| - 1], ps[|ps| - 1];
      ArgumentsReference(op, front, key);
      ReferencesAnyConcat(Arguments(op, front), Share(op, last), key);
      ReferencesAnyConcat(front, [last], key);
      assert front + [last] == ps;
      ReferencesAnyOne(last, key);
    }
  }

  lemma ReferencesAnyOne(e: Expression, key: string)
    ensures ReferencesAny([e], key) <==> References(e, key)
    ensures e.Call? ==> (ReferencesAny(e.args, key) <==> References(e, key))
  {
    assert [e][0] == e;
  }

  /** A joined filter reads an attribute exactly when one of its parts does, nil and empty parts included. */
  lemma CombinedReferences(op: Operator, ps: seq<Predicate>, key: string)
    ensures References(Combined(op, ps), key) <==> exists i | 0 <= i < |ps| :: References(ps[i], key)
  {
    hide Arguments;
    var args := Arguments(op, ps);
    ArgumentsReference(op, ps, key);
    if |args| == 1 {
      ReferencesAnyOne(args[0], key);
      assert args == [args[0]];
    }
    ReferencesAnyOne(Call(op, args), key);
    assert References(Combined(op, ps), key) <==> ReferencesAny(ps, key);
  }

  // ---------- Interpretations ----------

  /**
   How a backend reads a tree: a value for each leaf and a function of the arguments' values for
   each operator.  V may be anything, for instance functions of a span and of the event a
   quantifier has bound.
   */
  datatype Reading<!V> = Reading(
    attribute: (string, string) -> V,
    field: (string, string) -> V,
    nested: string -> V,
    constant: string -> V,
    call: (Operator, seq<V>) -> V,
    nothing: V)

  function Meaning<V>(m: Reading<V>, e: Expression): V {
    match e
    case AttributeRef(level, key) => m.attribute(level, key)
    case FieldRef(level, name) => m.field(level, name)
    case NestedRef(level) => m.nested(level)
    case Constant(rendering) => m.constant(rendering)
    case Call(op, args) => m.call(op, seq(|args|, i requires 0 <= i < |args| => Meaning(m, args[i])))
    case NilCall => m.nothing
  }

  ghost predicate Says<V>(op: Operator, vs: seq<V>, holds: V -> bool) {
    if op == And then forall i | 0 <= i < |vs| :: holds(vs[i])
    else exists i | 0 <= i < |vs| :: holds(vs[i])
  }

  /**
   Calls of op mean the conjunction of their arguments (for And) or the disjunction (for Or).
   Without empties that is promised only of calls that have arguments, the ones a filter may hold;
   with empties also of a call without any, and a nil filter lets everything through.
   */
  ghost predicate Boolean<V(!new)>(m: Reading<V>, op: Operator, holds: V -> bool, empties: bool) {
    && (forall vs: seq<V> | vs != [] || empties :: holds(m.call(op, vs)) <==> Says(op, vs, holds))
    && (empties ==> holds(m.nothing))
  }

  ghost function Meanings<V>(m: Reading<V>, es: seq<Expression>): (r: seq<V>)
    ensures |r| == |es| && forall i | 0 <= i < |es| :: r[i] == Meaning(m, es[i])
  {
    seq(|es|, i requires 0 <= i < |es| => Meaning(m, es[i]))
  }

  lemma MeaningOfCall<V>(m: Reading<V>, op: Operator, args: seq<Expression>)
    ensures Meaning(m, Call(op, args)) == m.call(op, Meanings(m, args))
  {
    var vs := seq(|args|, i requires 0 <= i < |args| => Meaning(m, args[i]));
    assert vs == Meanings(m, args);
  }

  lemma MeaningOfNil<V>(m: Reading<V>)
    ensures Meaning(m, NilCall) == m.nothing
  {
  }

  lemma SaysConcat<V>(op: Operator, vs: seq<V>, ws: seq<V>, holds: V -> bool)
    ensures
      Says(op, vs + ws, holds) <==>
      if op == And then Says(op, vs, holds) && Says(op, ws, holds)
      else Says(op, vs, holds) || Says(op, ws, holds)
  {
    var whole := vs + ws;
    forall i | 0 <= i < |vs| ensures whole[i] == vs[i] {}
    forall i | 0 <= i < |ws| ensures whole[|vs| + i] == ws[i] {}
    if op == And && Says(op, whole, holds) {
      forall i | 0 <= i < |vs| ensures holds(vs[i]) {
        assert holds(whole[i]);
      }
      forall i | 0 <= i < |ws| ensures holds(ws[i]) {
        assert holds(whole[|vs| + i]);
      }
    }
    if op != And && Says(op, vs, holds) {
      var i :| 0 <= i < |vs| && holds(vs[i]);
      assert holds(whole[i]);
    }
    if op != And && Says(op, ws, holds) {
      var i :| 0 <= i < |ws| && holds(ws[i]);
      assert holds(whole[|vs| + i]);
    }
  }

  lemma SaysOne<V>(op: Operator, v: V, holds: V -> bool)
    ensures Says(op, [v], holds) <==> holds(v)
  {
    assert [v][0] == v;
  }

  lemma ShareSays<V(!new)>(m: Reading<V>, op: Operator, p: Expression, holds: V -> bool, empties: bool)
    requires Boolean(m, op, holds, empties)
    requires EmptyCall(op, p) ==> empties
    ensures Says(op, Meanings(m, Share(op, p)), holds) <==> holds(Meaning(m, p))
  {
    hide Says, Meaning;
    if Joins(op, p) {
      MeaningOfCall(m, op, p.args);
    } else {
      assert Meanings(m, [p]) == [Meaning(m, p)];
      SaysOne(op, Meaning(m, p), holds);
    }
  }

  lemma {:induction false} ArgumentsSay<V(!new)>(
      m: Reading<V>, op: Operator, ps: seq<Expression>, holds: V -> bool, empties: bool)
    requires Boolean(m, op, holds, empties)
    requires forall i | 0 <= i < |ps| :: EmptyCall(op, ps[i]) ==> empties
    ensures Says(op, Meanings(m, Arguments(op, ps)), holds) <==> Says(op, Meanings(m, ps), holds)
  {
    hide Says, Meaning, Boolean, Share;
    if ps == [] {
      assert Meanings(m, Arguments(op, ps)) == Meanings(m, ps);
    } else {
      var front, last := ps[..|ps| - 1], ps[|ps| - 1];
      ArgumentsSay(m, op, front, holds, empties);
      ShareSays(m, op, last, holds, empties);
      SaysConcat(op, Meanings(m, Arguments(op, front)), Meanings(m, Share(op, last)), holds);
      assert Meanings(m, Arguments(op, ps)) == Meanings(m, Arguments(op, front)) + Meanings(m, Share(op, last));
      SaysConcat(op, Meanings(m, front), [Meaning(m, last)], holds);
      SaysOne(op, Meaning(m, last), holds);
      assert Meanings(m, ps) == Meanings(m, front) + [Meaning(m, last)];
    }
  }

  lemma JoinedSays<V(!new)>(m: Reading<V>, op: Operator, args: seq<Expression>, holds: V -> bool)
    requires Boolean(m, op, holds, false) && args != []
    ensures holds(Meaning(m, Joined(op, args))) <==> Says(op, Meanings(m, args), holds)
  {
    hide Says, Meaning;
    MeaningOfCall(m, op, args);
    SaysOne(op, Meaning(m, args[0]), holds);
    if |args| == 1 {
      assert Meanings(m, args) == [Meaning(m, args[0])];
    }
  }

  /**
   And evaluates as the conjunction of its arguments and Or as their disjunction, whatever the
   leaves and the other operators mean, for at least one predicate and none that is a call
   of the same operator without arguments.
   */
  lemma CombinedMeaning<V(!new)>(m: Reading<V>, op: Operator, ps: seq<Predicate>, holds: V -> bool)
    requires Boolean(m, op, holds, false)
    requires ps != [] && forall i | 0 <= i < |ps| :: !EmptyCall(op, ps[i])
    ensures
      holds(Meaning(m, Combined(op, ps))) <==>
      if op == And then forall i | 0 <= i < |ps| :: holds(Meaning(m, ps[i]))
      else exists i | 0 <= i < |ps| :: holds(Meaning(m, ps[i]))
  {
    hide Meaning, Boolean;
    ArgumentsSay(m, op, ps, holds, false);
    SharesMakeArguments(op, ps);
    JoinedSays(m, op, Arguments(op, ps), holds);
  }

  lemma {:induction false} SharesMakeArguments(op: Operator, ps: seq<Expression>)
    ensures Arguments(op, ps) == [] <==> forall i | 0 <= i < |ps| :: EmptyCall(op, ps[i])
  {
    if ps != [] {
      SharesMakeArguments(op, ps[..|ps| - 1]);
      assert forall i | 0 <= i < |ps| - 1 :: ps[..|ps| - 1][i] == ps[i];
      if Arguments(op, ps) == [] {
        assert Share(op, ps[|ps| - 1]) == [];
      }
    }
  }

  /**
   With no predicates, or only empty calls, the result is nil, which is no filter at all.  For And
   that is still the conjunction; for Or it is not the disjunction, and that is the only case
   in which the law fails, nil predicates included.
   */
  lemma CombinedMeaningWithEmpties<V(!new)>(m: Reading<V>, op: Operator, ps: seq<Predicate>, holds: V -> bool)
    requires Boolean(m, op, holds, true)
    ensures
      var meant := Says(op, Meanings(m, ps), holds);
      (holds(Meaning(m, Combined(op, ps))) <==> meant) <==>
      (op == And || exists i | 0 <= i < |ps| :: !EmptyCall(op, ps[i]))
  {
    hide Meaning, Joins;
    ArgumentsSay(m, op, ps, holds, true);
    SharesMakeArguments(op, ps);
    var args := Arguments(op, ps);
    if args == [] {
      MeaningOfNil(m);
    } else {
      JoinedSays(m, op, args, holds);
    }
  }

  /** It does fail: under a reading of truth values, with Or, Or of nothing is true. */
  lemma OrOfNothingIsNoFilter()
    ensures
      var m := Truth();
      Boolean(m, Or, v => v, true) && Meaning(m, Combined(Or, [])) && !Says(Or, Meanings(m, []), v => v)
  {
    MeaningOfNil(Truth());
  }

  ghost function Truth(): Reading<bool> {
    Reading(
      (level, key) => false, (level, name) => false, level => false, rendering => false,
      (op, vs) => if op == And then !(false in vs) else true in vs,
      true)
  }

  // ---------- Shape of the tree ----------

  function Concat(parts: seq<seq<Expression>>): seq<Expression> {
    if parts == [] then [] else Concat(parts[..|parts| - 1]) + parts[|parts| - 1]
  }

  /** The expressions below all the calls of op at the top, from left to right. */
  function Leaves(op: Operator, e: Expression): seq<Expression> {
    if Joins(op, e) then Concat(seq(|e.args|, i requires 0 <= i < |e.args| => Leaves(op, e.args[i])))
    else [e]
  }

  function LeavesOf(op: Operator, es: seq<Expression>): seq<Expression> {
    Concat(seq(|es|, i requires 0 <= i < |es| => Leaves(op, es[i])))
  }

  /** No call of op directly inside a call of op. */
  predicate Flat(op: Operator, e: Expression) {
    Joins(op, e) ==> NoneJoins(op, e.args)
  }

  predicate NoneJoins(op: Operator, es: seq<Expression>) {
    forall i | 0 <= i < |es| :: !Joins(op, es[i])
  }

  lemma LeavesOfSnoc(op: Operator, es: seq<Expression>, e: Expression)
    ensures LeavesOf(op, es + [e]) == LeavesOf(op, es) + Leaves(op, e)
  {
    hide Leaves;
    var all := es + [e];
    var parts := seq(|all|, i requires 0 <= i < |all| => Leaves(op, all[i]));
    assert parts[..|es|] == seq(|es|, i requires 0 <= i < |es| => Leaves(op, es[i]));
  }

  lemma {:induction false} LeavesOfConcat(op: Operator, es: seq<Expression>, fs: seq<Expression>)
    ensures LeavesOf(op, es + fs) == LeavesOf(op, es) + LeavesOf(op, fs)
    decreases |fs|
  {
    hide LeavesOf;
    if fs == [] {
      assert es + fs == es;
      NoLeaves(op);
    } else {
      var front, last := fs[..|fs| - 1], fs[|fs| - 1];
      LeavesOfConcat(op, es, front);
      LeavesOfSnoc(op, front, last);
      LeavesOfSnoc(op, es + front, last);
      assert front + [last] == fs && es + front + [last] == es + fs;
    }
  }

  lemma NoLeaves(op: Operator)
    ensures LeavesOf(op, []) == []
  {
  }

  lemma LeavesOfShare(op: Operator, p: Expression)
    ensures LeavesOf(op, Share(op, p)) == Leaves(op, p)
  {
    if !Joins(op, p) {
      NoLeaves(op);
      LeavesOfSnoc(op, [], p);
      assert [] + [p] == [p];
    }
  }

  lemma {:induction false} ArgumentsKeepLeaves(op: Operator, ps: seq<Expression>)
    ensures LeavesOf(op, Arguments(op, ps)) == LeavesOf(op, ps)
  {
    hide LeavesOf, Share;
    if ps != [] {
      var front, last := ps[..|ps| - 1], ps[|ps| - 1];
      ArgumentsKeepLeaves(op, front);
      LeavesOfShare(op, last);
      LeavesOfConcat(op, Arguments(op, front), Share(op, last));
      LeavesOfSnoc(op, front, last);
      assert front + [last] == ps;
    }
  }

  lemma {:induction false} LeavesAreThemselves(op: Operator, es: seq<Expression>)
    requires NoneJoins(op, es)
    ensures LeavesOf(op, es) == es
    decreases |es|
  {
    hide LeavesOf;
    if es == [] {
      NoLeaves(op);
    } else {
      LeavesAreThemselves(op, es[..|es| - 1]);
      LeavesOfSnoc(op, es[..|es| - 1], es[|es| - 1]);
      assert es[..|es| - 1] + [es[|es| - 1]] == es;
    }
  }

  /** Joining loses no leaf and keeps their order, unless everything joined is an empty call. */
  lemma CombinedKeepsLeaves(op: Operator, ps: seq<Predicate>)
    requires exists i | 0 <= i < |ps| :: !EmptyCall(op, ps[i])
    ensures Leaves(op, Combined(op, ps)) == LeavesOf(op, ps)
  {
    hide LeavesOf, Leaves;
    var args := Arguments(op, ps);
    ArgumentsKeepLeaves(op, ps);
    SharesMakeArguments(op, ps);
    if |args| == 1 {
      LeavesOfShare(op, Call(op, args));
      NoLeaves(op);
      LeavesOfSnoc(op, [], args[0]);
      assert [] + [args[0]] == args;
    }
    LeavesOfShare(op, Call(op, args));
  }

  lemma {:induction false} FlatArguments(op: Operator, ps: seq<Expression>)
    requires forall i | 0 <= i < |ps| :: Flat(op, ps[i])
    ensures NoneJoins(op, Arguments(op, ps))
  {
    hide Joins;
    if ps != [] {
      FlatArguments(op, ps[..|ps| - 1]);
      assert Flat(op, ps[|ps| - 1]);
    }
  }

  /** Flat predicates join into a flat tree, whose arguments are the leaves in order. */
  lemma CombinedIsFlat(op: Operator, ps: seq<Predicate>)
    requires forall i | 0 <= i < |ps| :: Flat(op, ps[i])
    ensures Flat(op, Combined(op, ps))
    ensures Combined(op, ps) == Joined(op, LeavesOf(op, ps))
  {
    hide LeavesOf;
    FlatArguments(op, ps);
    ArgumentsKeepLeaves(op, ps);
    LeavesAreThemselves(op, Arguments(op, ps));
  }

  // ---------- Regrouping ----------

  /** What is joined has parts, and is not one single call of op. */
  predicate Regroups(op: Operator, group: seq<Expression>) {
    var args := Arguments(op, group);
    args != [] && !(|args| == 1 && Joins(op, args[0]))
  }

  lemma RegroupedArguments(op: Operator, front: seq<Predicate>, group: seq<Predicate>, back: seq<Predicate>)
    ensures Arguments(op, front + group + back) ==
            Arguments(op, front) + Arguments(op, group) + Arguments(op, back)
    ensures Arguments(op, front + [Combined(op, group)] + back) ==
            Arguments(op, front) + Share(op, Combined(op, group)) + Arguments(op, back)
  {
    hide Arguments, Joined, Share;
    ArgumentsConcat(op, front, group);
    ArgumentsConcat(op, front + group, back);
    ArgumentsConcat(op, front, [Combined(op, group)]);
    ArgumentsConcat(op, front + [Combined(op, group)], back);
    ArgumentsOne(op, Combined(op, group));
  }

  predicate Contributes(op: Operator, ps: seq<Expression>) {
    exists i | 0 <= i < |ps| :: !EmptyCall(op, ps[i])
  }

  /** Joining what is joined again leaves it alone: it is not one single call of op that would
      itself come apart, into nothing or into its only predicate. */
  predicate SettlesAlone(op: Operator, group: seq<Expression>) {
    var args := Arguments(op, group);
    |args| == 1 && Joins(op, args[0]) ==>
      var inner := args[0].args;
      inner != [] && (|inner| == 1 ==> !inner[0].Call? && !inner[0].NilCall?)
  }

  /**
   Joining a group first and then joining the result among others builds the same tree as joining
   them all at once exactly when the group regroups; where the others contribute nothing, exactly
   when the group settles on its own.
   */
  lemma Associativity(op: Operator, front: seq<Predicate>, group: seq<Predicate>, back: seq<Predicate>)
    ensures
      Combined(op, front + [Combined(op, group)] + back) == Combined(op, front + group + back) <==>
      if Contributes(op, front + back) then Regroups(op, group) else SettlesAlone(op, group)
  {
    hide Arguments, Contributes, Joined;
    RegroupedArguments(op, front, group, back);
    ArgumentsConcat(op, front, back);
    ContributionIsArguments(op, front + back);
    var f, g, b := Arguments(op, front), Arguments(op, group), Arguments(op, back);
    var x := Share(op, Joined(op, g));
    ShareOfJoined(op, g);
    if f + b == [] {
      assert f + x + b == x && f + g + b == g;
    } else if !Regroups(op, group) {
      UnequalMiddles(op, f, x, g, b);
    }
  }

  lemma ContributionIsArguments(op: Operator, ps: seq<Expression>)
    ensures Contributes(op, ps) <==> Arguments(op, ps) != []
  {
    hide EmptyCall;
    SharesMakeArguments(op, ps);
  }

  /** What a joined group adds to a further join, against its own arguments. */
  lemma ShareOfJoined(op: Operator, g: seq<Expression>)
    ensures
      var x := Share(op, Joined(op, g));
      if g == [] then x == [NilCall] && Joined(op, x) == Joined(op, g)
      else if |g| == 1 && Joins(op, g[0]) then
        x == g[0].args && Joined(op, g) == Call(op, g[0].args)
        && (Joined(op, x) == Joined(op, g) <==> x != [] && (|x| == 1 ==> !x[0].Call? && !x[0].NilCall?))
      else x == g
  {
  }

  /** The case callers rely on: flat predicates, at least one and none without arguments. */
  lemma FlatGroupsRegroup(op: Operator, front: seq<Predicate>, group: seq<Predicate>, back: seq<Predicate>)
    requires group != [] && forall i | 0 <= i < |group| :: Flat(op, group[i]) && !EmptyCall(op, group[i])
    ensures Combined(op, front + [Combined(op, group)] + back) == Combined(op, front + group + back)
  {
    hide Arguments, Flat, Combined, Contributes;
    FlatArguments(op, group);
    SharesMakeArguments(op, group);
    assert !EmptyCall(op, group[0]);
    Associativity(op, front, group, back);
  }

  /** One call nested in a call of the same operator: joined first, it loses a level. */
  lemma NestedGroupDoesNotRegroup(op: Operator, p: Expression)
    ensures
      var nested := Call(op, [Call(op, [p])]);
      Combined(op, [Combined(op, [nested]), NilCall]) != Combined(op, [nested, NilCall])
  {
    var inner := Call(op, [p]);
    var nested := Call(op, [inner]);
    ArgumentsOne(op, nested);
    Associativity(op, [], [nested], [NilCall]);
    assert [] + [Combined(op, [nested])] + [NilCall] == [Combined(op, [nested]), NilCall];
    assert [] + [nested] + [NilCall] == [nested, NilCall];
    assert !EmptyCall(op, ([] + [NilCall])[0]);
  }

  lemma UnequalMiddles(op: Operator, f: seq<Expression>, x: seq<Expression>, g: seq<Expression>, b: seq<Expression>)
    requires f + b != []
    requires (g == [] && x == [NilCall]) || (|g| == 1 && Joins(op, g[0]) && x == g[0].args)
    ensures Joined(op, f + x + b) != Joined(op, f + g + b)
  {
    var left, right := f + x + b, f + g + b;
    assert left[|f|..|f| + |x|] == x && right[|f|..|f| + |g|] == g;
    assert g != [] ==> x != g;
    JoinedDiffers(op, left, right);
  }

  lemma JoinedDiffers(op: Operator, left: seq<Expression>, right: seq<Expression>)
    requires left != right && left != [] && right != []
    requires |left| == 1 ==> left[0] in right
    requires |right| == 1 ==> right[0] in left
    ensures Joined(op, left) != Joined(op, right)
  {
  }

  // ---------- Admission ----------

  /** Two readings that agree on everything but the attribute called key. */
  ghost predicate AgreeApartFrom<V>(m: Reading<V>, n: Reading<V>, keys: seq<string>) {
    && m.field == n.field && m.nested == n.nested && m.constant == n.constant && m.call == n.call
    && m.nothing == n.nothing
    && forall level, key | key !in keys :: m.attribute(level, key) == n.attribute(level, key)
  }

  lemma ReferencesArgument(e: Expression, i: nat, key: string)
    requires e.Call? && i < |e.args|
    ensures References(e.args[i], key) ==> References(e, key)
  {
  }

  /** A filter that reads none of the attributes means the same whatever their values. */
  lemma {:induction false} UnreadAttributesDoNotMatter<V>(
      m: Reading<V>, n: Reading<V>, keys: seq<string>, e: Expression)
    requires AgreeApartFrom(m, n, keys)
    requires forall k | 0 <= k < |keys| :: !References(e, keys[k])
    ensures Meaning(m, e) == Meaning(n, e)
    decreases e
  {
    match e
    case Call(op, args) =>
      forall i | 0 <= i < |args| ensures Meaning(m, args[i]) == Meaning(n, args[i]) {
        forall k | 0 <= k < |keys| ensures !References(args[i], keys[k]) {
          ReferencesArgument(e, i, keys[k]);
        }
        UnreadAttributesDoNotMatter(m, n, keys, args[i]);
      }
      MeaningOfCall(m, op, args);
      MeaningOfCall(n, op, args);
      assert Meanings(m, args) == Meanings(n, args);
    case _ =>
  }

  /** A reading that is true of exactly the expressions whose tree holds the attribute, if it is set. */
  ghost function Detector(key: string, isSet: bool): Reading<bool> {
    Reading(
      (level, k) => isSet && k == key,
      (level, name) => false,
      level => false,
      rendering => false,
      (op, vs) => true in vs,
      false)
  }

  lemma {:induction false} DetectorDetects(key: string, isSet: bool, e: Expression)
    ensures Meaning(Detector(key, isSet), e) <==> isSet && References(e, key)
    decreases e
  {
    match e
    case Call(op, args) =>
      var m := Detector(key, isSet);
      forall i | 0 <= i < |args| ensures Meaning(m, args[i]) <==> isSet && References(args[i], key) {
        DetectorDetects(key, isSet, args[i]);
      }
      MeaningOfCall(m, op, args);
      var vs := Meanings(m, args);
      assert forall i | 0 <= i < |vs| :: vs[i] == (isSet && References(args[i], key));
    case _ =>
  }

  /** The walk is exact: a filter reads an attribute if and only if some reading makes it matter. */
  lemma ReferencesIffItMatters(e: Expression, key: string)
    ensures
      References(e, key) <==>
      exists m: Reading<bool>, n: Reading<bool> ::
        AgreeApartFrom(m, n, [key]) && Meaning(m, e) != Meaning(n, e)
  {
    hide References, Meaning;
    if References(e, key) {
      var m, n := Detector(key, true), Detector(key, false);
      DetectorDetects(key, true, e);
      DetectorDetects(key, false, e);
      assert m.call == n.call;
      assert AgreeApartFrom(m, n, [key]);
    } else {
      forall m: Reading<bool>, n: Reading<bool> | AgreeApartFrom(m, n, [key]) ensures Meaning(m, e) == Meaning(n, e) {
        UnreadAttributesDoNotMatter(m, n, [key], e);
      }
    }
  }

  /** admitFilter, for a caller whose role has been resolved: the first denied key that is read. */
  method AdmitFilter(privileged: bool, denied: seq<string>, filter: Predicate) returns (refusal: Option<string>)
    ensures refusal.Some? ==> !privileged && refusal.value in denied && References(filter, refusal.value)
    ensures refusal.None? <==> privileged || forall k | 0 <= k < |denied| :: !References(filter, denied[k])
  {
    if privileged {
      return None;
    }
    for i := 0 to |denied|
      invariant forall k | 0 <= k < i :: !References(filter, denied[k])
    {
      var found := ReferencesAttribute(filter, denied[i]);
      if found {
        return Some(denied[i]);
      }
    }
    return None;
  }
}
