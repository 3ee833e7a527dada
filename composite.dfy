/**
  `CompositeFix`: running a list of rules one after the other against the
  same working copy and collecting their changes in order.  A rule is given
  by its effect on the working copy.
 */
module Composite {
  import opened Git
  import opened FixersBase

  type Rule = WorkTree -> Effect

  /** The rules in order, each on the working copy the previous one left;
      the first rule that raises ends the run with its exception. */
  function RunAll(rules: seq<Rule>, s: WorkTree): Effect
    decreases |rules|
  {
    if rules == [] then Effect(Done([]), s)
    else
      var e := rules[0](s);
      if e.outcome.Raised? then e
      else
        var r := RunAll(rules[1..], e.after);
        if r.outcome.Raised? then r else Effect(Done(e.outcome.changes + r.outcome.changes), r.after)
  }

  /** Running two lists of rules is running the first, then the second. */
  lemma {:induction false} RunAllAppend(a: seq<Rule>, b: seq<Rule>, s: WorkTree)
    ensures RunAll(a + b, s) == AndThen(RunAll(a, s), t => RunAll(b, t))
    decreases |a|
  {
    if a == [] {
      assert a + b == b;
    } else {
      assert (a + b)[0] == a[0] && (a + b)[1..] == a[1..] + b;
      var e := a[0](s);
      if e.outcome.Done? {
        RunAllAppend(a[1..], b, e.after);
        var r := RunAll(a[1..], e.after);
        if r.outcome.Done? {
          var r2 := RunAll(b, r.after);
          assert RunAll(a[1..] + b, e.after) ==
            if r2.outcome.Raised? then r2 else Effect(Done(r.outcome.changes + r2.outcome.changes), r2.after);
          if r2.outcome.Done? {
            assert e.outcome.changes + (r.outcome.changes + r2.outcome.changes) ==
              (e.outcome.changes + r.outcome.changes) + r2.outcome.changes;
          }
        }
      }
    }
  }

  lemma RunAllOne(rule: Rule, s: WorkTree)
    ensures RunAll([rule], s) == rule(s)
  {
    assert [rule][1..] == [];
    var e := rule(s);
    if e.outcome.Done? {
      assert e.outcome.changes + [] == e.outcome.changes;
    }
  }

  /** `CompositeFix.run`: extends the result list rule by rule. */
  method Run(rules: seq<Rule>, g: GitWorkingDir) returns (o: Outcome)
    modifies g
    ensures Effect(o, g.State()) == RunAll(rules, old(g.State()))
  {
    ghost var s0 := g.State();
    var result: seq<string> := [];
    for i := 0 to |rules|
      invariant RunAll(rules[..i], s0) == Effect(Done(result), g.State())
    {
      var e := rules[i](g.State());
      RunAllAppend(rules[..i], [rules[i]], s0);
      assert rules[..i + 1] == rules[..i] + [rules[i]];
      RunAllOne(rules[i], g.State());
      g.Become(e.after);
      if e.outcome.Raised? {
        RunAllAppend(rules[..i + 1], rules[i + 1..], s0);
        assert rules == rules[..i + 1] + rules[i + 1..];
        return e.outcome;
      }
      result := result + e.outcome.changes;
    }
    assert rules[..|rules|] == rules;
    o := Done(result);
  }

  /** Every rule keeps the reporting contract from every state. */
  ghost predicate AllReported(rules: seq<Rule>)
  {
    forall k, t :: 0 <= k < |rules| ==> Reported(t, rules[k](t))
  }

  /** When every rule keeps the reporting contract, so does the
      composite: one commit per reported change, in order. */
  lemma {:induction false} RunAllReported(rules: seq<Rule>, s: WorkTree)
    requires AllReported(rules)
    ensures Reported(s, RunAll(rules, s))
    decreases |rules|
  {
    if rules == [] {
      NothingReported(s);
    } else {
      var e := rules[0](s);
      assert Reported(s, e);
      if e.outcome.Done? {
        assert AllReported(rules[1..]) by {
          forall k, t | 0 <= k < |rules[1..]| ensures Reported(t, rules[1..][k](t)) {
            assert rules[1..][k] == rules[k + 1];
          }
        }
        RunAllReported(rules[1..], e.after);
        var r := RunAll(rules[1..], e.after);
        if Clean(s) && r.outcome.Done? {
          AppendedTrans(s, e.after, r.after, e.outcome.changes, r.outcome.changes);
        }
      }
    }
  }

  /** The change list of each rule, in order, up to the first that raises. */
  function Parts(rules: seq<Rule>, s: WorkTree): seq<seq<string>>
    decreases |rules|
  {
    if rules == [] then []
    else
      var e := rules[0](s);
      if e.outcome.Raised? then [] else [e.outcome.changes] + Parts(rules[1..], e.after)
  }

  function Flatten(parts: seq<seq<string>>): seq<string>
  {
    if parts == [] then [] else parts[0] + Flatten(parts[1..])
  }

  function TotalLength(parts: seq<seq<string>>): nat
  {
    if parts == [] then 0 else |parts[0]| + TotalLength(parts[1..])
  }

  lemma {:induction false} FlattenLength(parts: seq<seq<string>>)
    ensures |Flatten(parts)| == TotalLength(parts)
    decreases |parts|
  {
    if parts != [] {
      FlattenLength(parts[1..]);
    }
  }

  /** A run that returns has heard from every rule: its changes are the
      rules' change lists concatenated in rule order, and their number is
      the sum of the parts. */
  lemma {:induction false} RunAllParts(rules: seq<Rule>, s: WorkTree)
    requires RunAll(rules, s).outcome.Done?
    ensures |Parts(rules, s)| == |rules|
    ensures RunAll(rules, s).outcome.changes == Flatten(Parts(rules, s))
    ensures |RunAll(rules, s).outcome.changes| == TotalLength(Parts(rules, s))
    decreases |rules|
  {
    if rules != [] {
      var e := rules[0](s);
      RunAllParts(rules[1..], e.after);
      var ps := Parts(rules, s);
      assert ps[1..] == Parts(rules[1..], e.after);
    }
    FlattenLength(Parts(rules, s));
  }
}
