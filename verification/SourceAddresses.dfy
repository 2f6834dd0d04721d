/**
 Source-address conditions: which sources they match, and where the engine keeps its promise that
 text that cannot be read as an address matches nothing.
 */
module SourceAddresses {
  import opened Wrappers
  import opened ConditionTrees
  import opened ConditionRequests
  import opened ConditionEngine
  import Networks
  import NetworkTexts
  import Texts
  import Decimals

  /** `ip_address(a) in ip_network(n, strict=False)`, false if either text cannot be read. */
  function Inside(v6: NetworkTexts.V6Text): Membership {
    (n: string, a: string) =>
      match (NetworkTexts.ParseNetwork(v6, n), NetworkTexts.ParseAddress(v6, a))
      case (Some(net), Some(addr)) => Networks.Canonical(net) && Networks.Contains(net, addr)
      case _ => false
  }

  /** The save validates address text as the engine reads it. */
  ghost predicate ReadsAlike(dir: Directory, v6: NetworkTexts.V6Text) {
    && (forall t :: dir.isNetwork(t) <==> NetworkTexts.ParseNetwork(v6, t).Some?)
    && (forall t :: dir.isAddress(t) <==> NetworkTexts.ParseAddress(v6, t).Some?)
  }

  /* ---------- Readable text ---------- */

  /** A condition on a readable network and a readable source: the address lies, or does not lie, between the first
      and the last address of the network; and a text is, or is not, the condition's own. */
  lemma ReadableSourceExact(v6: NetworkTexts.V6Text, leaf: Leaf, ctx: Context, n: Networks.Net, a: Networks.Address)
    requires NetworkTexts.Faithful(v6) && leaf.objectType == SourceIp && ctx.sourceIp.Some?
    requires NetworkTexts.ParseAddress(v6, ctx.sourceIp.value) == Some(a)
    ensures leaf.operator == "equal" ==> (EvalLeaf(Inside(v6), leaf, ctx) <==> ctx.sourceIp.value == leaf.value)
    ensures leaf.operator == "not_equal" ==> (EvalLeaf(Inside(v6), leaf, ctx) <==> ctx.sourceIp.value != leaf.value)
    ensures NetworkTexts.ParseNetwork(v6, leaf.value) == Some(n) ==>
              var size := Networks.Pow2((if n.version == Networks.V4 then 32 else 128) - n.prefix);
              var between := a.version == n.version && n.base <= a.value < n.base + size;
              && (leaf.operator == "is_in_cidr" ==> (EvalLeaf(Inside(v6), leaf, ctx) <==> between))
              && (leaf.operator == "is_not_in_cidr" ==> (EvalLeaf(Inside(v6), leaf, ctx) <==> !between))
  {
    SourceVerdict(Inside(v6), leaf, ctx);
    NetworkTexts.ParsedNetworkCanonical(v6, leaf.value);
    if NetworkTexts.ParseNetwork(v6, leaf.value) == Some(n) {
      Networks.ContainsInterval(n, a);
    }
  }

  function OnBlock(v6: NetworkTexts.V6Text, operator: string, a: Networks.Address, bits: nat): ConditionInput {
    ConditionInput(SourceIp, operator, NetworkTexts.PrintAddress(v6, a) + "/" + Decimals.Print(bits), NoReference)
  }

  /** A policy saved with one condition on a block, written with whatever host bits: `is_in_cidr` makes it match
      exactly the sources that agree on the block's leading bits, `is_not_in_cidr` exactly the other readable ones. */
  lemma SavedBlock(v6: NetworkTexts.V6Text, s: State, p: Id, dir: Directory, operator: string, a: Networks.Address,
                   bits: nat, b: Networks.Address)
    requires NetworkTexts.Faithful(v6) && ReadsAlike(dir, v6) && ValidState(s) && p in s.policies
    requires Networks.ValidAddress(a) && Networks.ValidAddress(b) && bits <= Networks.Width(a.version)
    requires operator == "is_in_cidr" || operator == "is_not_in_cidr"
    ensures var payload := GroupInput(AND, [OnBlock(v6, operator, a, bits)], []);
            var n := Step(s, SaveTree(p, dir, payload));
            var ctx := Context(None, None, Some(NetworkTexts.PrintAddress(v6, b)));
            && Accepted(dir, payload) && ValidState(n) && p in n.policies
            && (PolicyMatches(Inside(v6), n, p, ctx)
                <==> (operator == "is_in_cidr" <==> Networks.SharesBits(a, b, bits)))
  {
    var c, ctx := OnBlock(v6, operator, a, bits), Context(None, None, Some(NetworkTexts.PrintAddress(v6, b)));
    BlockVerdict(v6, dir, operator, a, bits, b);
    SavedCondition(Inside(v6), s, p, dir, AND, c, ctx);
  }

  lemma BlockVerdict(v6: NetworkTexts.V6Text, dir: Directory, operator: string, a: Networks.Address, bits: nat,
                     b: Networks.Address)
    requires NetworkTexts.Faithful(v6) && ReadsAlike(dir, v6)
    requires Networks.ValidAddress(a) && Networks.ValidAddress(b) && bits <= Networks.Width(a.version)
    requires operator == "is_in_cidr" || operator == "is_not_in_cidr"
    ensures var c := OnBlock(v6, operator, a, bits);
            var ctx := Context(None, None, Some(NetworkTexts.PrintAddress(v6, b)));
            && MakeLeaf(dir, c).Ok?
            && (EvalLeaf(Inside(v6), MakeLeaf(dir, c).value, ctx)
                <==> (operator == "is_in_cidr" <==> Networks.SharesBits(a, b, bits)))
  {
    var c := OnBlock(v6, operator, a, bits);
    NetworkTexts.PrefixedExact(v6, a, bits);
    NetworkTexts.PrintedAddress(v6, b);
    ConditionExact(dir, c);
    OperatorsDiffer();
    SourceVerdict(Inside(v6), MakeLeaf(dir, c).value, Context(None, None, Some(NetworkTexts.PrintAddress(v6, b))));
  }

  /* ---------- Unreadable text ---------- */

  /** The condition matches when its text does not. */
  predicate Negated(c: ConditionInput) {
    c.objectType == SourceIp && (c.operator == "not_equal" || c.operator == "is_not_in_cidr")
  }

  /** A saved condition on a request whose source cannot be read: it matches exactly if it is negated, so the promise
      that malformed text never matches is kept by the other two operators alone. */
  lemma UnreadableSourceExact(v6: NetworkTexts.V6Text, dir: Directory, c: ConditionInput, ctx: Context)
    requires ReadsAlike(dir, v6) && c.objectType == SourceIp && MakeLeaf(dir, c).Ok?
    requires ctx.sourceIp.Some? && NetworkTexts.ParseAddress(v6, ctx.sourceIp.value).None?
    ensures EvalLeaf(Inside(v6), MakeLeaf(dir, c).value, ctx) <==> Negated(c)
  {
    OperatorsDiffer();
  }

  /** The same if the network or the address cannot be read, wherever the network text comes from. */
  lemma MalformedExact(v6: NetworkTexts.V6Text, leaf: Leaf, ctx: Context)
    requires leaf.objectType == SourceIp && (leaf.operator == "is_in_cidr" || leaf.operator == "is_not_in_cidr")
    requires ctx.sourceIp.Some?
    requires NetworkTexts.ParseNetwork(v6, leaf.value).None? || NetworkTexts.ParseAddress(v6, ctx.sourceIp.value).None?
    ensures EvalLeaf(Inside(v6), leaf, ctx) <==> leaf.operator == "is_not_in_cidr"
  {
    OperatorsDiffer();
  }

  lemma OperatorsDiffer()
    ensures "equal" != "not_equal" && "equal" != "is_in_cidr" && "equal" != "is_not_in_cidr"
    ensures "not_equal" != "is_in_cidr" && "not_equal" != "is_not_in_cidr" && "is_in_cidr" != "is_not_in_cidr"
  {
    assert |"equal"| == 5 && |"not_equal"| == 9 && |"is_in_cidr"| == 10 && |"is_not_in_cidr"| == 14;
  }

  /** No source condition of the payload, at whatever depth, is negated. */
  predicate Unnegated(t: GroupInput)
    decreases t, 0
  {
    (forall i :: 0 <= i < |t.conditions| ==> !Negated(t.conditions[i])) && AllUnnegated(t.children)
  }

  predicate AllUnnegated(ts: seq<GroupInput>)
    decreases ts, 1
  {
    ts == [] || (Unnegated(ts[0]) && AllUnnegated(ts[1..]))
  }

  /** A saved tree without such conditions treats an unreadable source as no source at all, NOT groups included. */
  lemma {:induction false} UnreadableIsAbsent(v6: NetworkTexts.V6Text, dir: Directory, t: GroupInput, ctx: Context)
    requires ReadsAlike(dir, v6) && Accepted(dir, t) && Unnegated(t)
    requires ctx.sourceIp.Some? && NetworkTexts.ParseAddress(v6, ctx.sourceIp.value).None?
    ensures EvalTree(Inside(v6), Displayed(dir, t), ctx)
      <==> EvalTree(Inside(v6), Displayed(dir, t), ctx.(sourceIp := None))
    decreases t, 0
  {
    UnreadableIsAbsentForest(v6, dir, t.children, ctx);
    UnreadableLeaves(v6, dir, t.conditions, ctx);
  }

  lemma {:induction false} UnreadableIsAbsentForest(v6: NetworkTexts.V6Text, dir: Directory, ts: seq<GroupInput>,
      ctx: Context)
    requires ReadsAlike(dir, v6) && AllAccepted(dir, ts) && AllUnnegated(ts)
    requires ctx.sourceIp.Some? && NetworkTexts.ParseAddress(v6, ctx.sourceIp.value).None?
    ensures EvalTrees(Inside(v6), AllDisplayed(dir, ts), ctx)
            == EvalTrees(Inside(v6), AllDisplayed(dir, ts), ctx.(sourceIp := None))
    decreases ts, 1
  {
    if ts != [] {
      UnreadableIsAbsent(v6, dir, ts[0], ctx);
      UnreadableIsAbsentForest(v6, dir, ts[1..], ctx);
    }
  }

  lemma UnreadableLeaf(v6: NetworkTexts.V6Text, dir: Directory, c: ConditionInput, ctx: Context)
    requires ReadsAlike(dir, v6) && MakeLeaf(dir, c).Ok? && !Negated(c)
    requires ctx.sourceIp.Some? && NetworkTexts.ParseAddress(v6, ctx.sourceIp.value).None?
    ensures EvalLeaf(Inside(v6), MakeLeaf(dir, c).value, ctx)
            == EvalLeaf(Inside(v6), MakeLeaf(dir, c).value, ctx.(sourceIp := None))
  {
    OperatorsDiffer();
  }

  lemma UnreadableLeaves(v6: NetworkTexts.V6Text, dir: Directory, cs: seq<ConditionInput>, ctx: Context)
    requires ReadsAlike(dir, v6) && LeavesAccepted(dir, cs) && forall i :: 0 <= i < |cs| ==> !Negated(cs[i])
    requires ctx.sourceIp.Some? && NetworkTexts.ParseAddress(v6, ctx.sourceIp.value).None?
    ensures EvalLeaves(Inside(v6), Leaves(dir, cs), ctx)
      == EvalLeaves(Inside(v6), Leaves(dir, cs), ctx.(sourceIp := None))
  {
    forall i | 0 <= i < |cs|
      ensures EvalLeaf(Inside(v6), MakeLeaf(dir, cs[i]).value, ctx)
              == EvalLeaf(Inside(v6), MakeLeaf(dir, cs[i]).value, ctx.(sourceIp := None))
    {
      UnreadableLeaf(v6, dir, cs[i], ctx);
    }
  }

  lemma GarbageIsUnreadable(v6: NetworkTexts.V6Text)
    requires NetworkTexts.Faithful(v6)
    ensures NetworkTexts.ParseAddress(v6, "abc").None?
  {
    Texts.SplitPlain("abc", '.');
  }

  /** With any readable network at all, a policy saved with one `is_not_in_cidr` condition admits the source "abc". */
  lemma GarbageIsAdmitted(v6: NetworkTexts.V6Text, s: State, p: Id, dir: Directory, network: string)
    requires NetworkTexts.Faithful(v6) && ReadsAlike(dir, v6)
    requires ValidState(s) && p in s.policies && dir.isNetwork(network)
    ensures var payload := GroupInput(AND, [ConditionInput(SourceIp, "is_not_in_cidr", network, NoReference)], []);
            var n := Step(s, SaveTree(p, dir, payload));
            && Accepted(dir, payload) && ValidState(n) && p in n.policies
            && PolicyMatches(Inside(v6), n, p, Context(None, None, Some("abc")))
  {
    var c := ConditionInput(SourceIp, "is_not_in_cidr", network, NoReference);
    OperatorsDiffer();
    GarbageIsUnreadable(v6);
    UnreadableSourceExact(v6, dir, c, Context(None, None, Some("abc")));
    SavedCondition(Inside(v6), s, p, dir, AND, c, Context(None, None, Some("abc")));
  }
}
