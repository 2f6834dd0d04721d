/**
 Which policy decides a request: the first enabled one, in priority order, that matches it,
 each by its own tree or by its legacy columns.
 */
module Decisions {
  import opened Wrappers
  import opened ConditionTrees
  import opened ConditionTables
  import opened ConditionRequests
  import opened ConditionEngine

  ghost predicate Matching(inside: Membership, s: State, enabled: set<Id>, ctx: Context, p: Id)
    requires Valid(s.tb)
  {
    p in s.policies && p in enabled && PolicyMatches(inside, s, p, ctx)
  }

  /** The matching policy with the smallest number, or none if no enabled policy matches. */
  ghost predicate Decides(inside: Membership, s: State, number: Id -> int, enabled: set<Id>, ctx: Context,
      w: Option<Id>)
    requires Valid(s.tb)
  {
    match w
    case None => forall p :: !Matching(inside, s, enabled, ctx, p)
    case Some(p) =>
      && Matching(inside, s, enabled, ctx, p)
      && forall o :: Matching(inside, s, enabled, ctx, o) && o != p ==> number(p) < number(o)
  }

  /** There is at most one decision. */
  lemma OneDecision(inside: Membership, s: State, number: Id -> int, enabled: set<Id>, ctx: Context,
                    v: Option<Id>, w: Option<Id>)
    requires Valid(s.tb) && Decides(inside, s, number, enabled, ctx, v) && Decides(inside, s, number, enabled, ctx, w)
    ensures v == w
  {
  }

  ghost function Members(listing: seq<Id>): set<Id> {
    set p | p in listing
  }

  /** `evaluate`, over the enabled policies in priority order */
  method Evaluate(inside: Membership, s: State, listing: seq<Id>, number: Id -> int, ctx: Context)
      returns (w: Option<Id>)
    requires Valid(s.tb) && forall p :: p in listing ==> p in s.policies
    requires forall i, j :: 0 <= i < j < |listing| ==> number(listing[i]) < number(listing[j])
    ensures Decides(inside, s, number, Members(listing), ctx, w)
  {
    ghost var enabled := Members(listing);
    for i := 0 to |listing|
      invariant forall k :: 0 <= k < i ==> !Matching(inside, s, enabled, ctx, listing[k])
    {
      if PolicyMatches(inside, s, listing[i], ctx) {
        assert Matching(inside, s, enabled, ctx, listing[i]);
        return Some(listing[i]);
      }
    }
    return None;
  }

  /** Migrating a policy's legacy columns to a tree changes no decision. */
  lemma MigrationKeepsDecision(inside: Membership, s: State, p: Id, dir: Directory, number: Id -> int, enabled: set<Id>,
                               ctx: Context, w: Option<Id>)
    requires ValidState(s)
    ensures var n := Step(s, Migrate(p, dir));
            ValidState(n)
            && (Decides(inside, n, number, enabled, ctx, w) <==> Decides(inside, s, number, enabled, ctx, w))
  {
    var n := Step(s, Migrate(p, dir));
    StepRefines(s, Migrate(p, dir));
    forall o
      ensures Matching(inside, n, enabled, ctx, o) <==> Matching(inside, s, enabled, ctx, o)
    {
      if o in s.policies {
        MigrationKeepsVerdicts(inside, s, p, dir, o, ctx);
      }
    }
  }

  /** Replacing a policy's tree changes no decision on a request that neither its old scope nor the new tree matches. */
  lemma SaveTreeKeepsDecision(inside: Membership, s: State, p: Id, dir: Directory, payload: GroupInput,
                              number: Id -> int, enabled: set<Id>, ctx: Context, w: Option<Id>)
    requires ValidState(s) && p in s.policies && Accepted(dir, payload)
    requires !PolicyMatches(inside, s, p, ctx) && !EvalTree(inside, Displayed(dir, payload), ctx)
    ensures var n := Step(s, SaveTree(p, dir, payload));
            ValidState(n)
            && (Decides(inside, n, number, enabled, ctx, w) <==> Decides(inside, s, number, enabled, ctx, w))
  {
    var n := Step(s, SaveTree(p, dir, payload));
    StepRefines(s, SaveTree(p, dir, payload));
    forall o
      ensures Matching(inside, n, enabled, ctx, o) <==> Matching(inside, s, enabled, ctx, o)
    {
      if o in s.policies {
        SaveTreeDecides(inside, s, p, dir, payload, o, ctx);
      }
    }
  }
}
