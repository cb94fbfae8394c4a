/**
 * pkg/ebtables: making sure a rule is present in the bridge filter table's
 * FORWARD chain, by listing the chain and inserting the rule only when no
 * listed line already equals it.
 */
module Ebtables {
  import opened Wrappers
  import opened Text
  import opened Host

  const ChainForward: string := "FORWARD"

  /** Some line of the listing, once trimmed, is the rule's arguments joined by single spaces. */
  predicate RuleListed(listing: string, rule: seq<string>)
  {
    var lines := Split(listing, '\n');
    exists i :: 0 <= i < |lines| && TrimSpace(lines[i]) == Join(rule, " ")
  }

  /** checkIfRuleExists */
  method CheckIfRuleExists(listChainOutput: string, args: seq<string>) returns (r: bool)
    ensures r <==> RuleListed(listChainOutput, args)
  {
    var rule := Join(args, " ");
    var lines := Split(listChainOutput, '\n');
    var i := 0;
    while i < |lines|
      invariant 0 <= i <= |lines|
      invariant forall k :: 0 <= k < i ==> TrimSpace(lines[k]) != rule
    {
      if TrimSpace(lines[i]) == rule {
        return true;
      }
      i := i + 1;
    }
    return false;
  }

  /** makeFullArgs: the table, operation and chain in front of the rule's own arguments. */
  function MakeFullArgs(table: string, op: string, chain: string, args: seq<string>): (r: seq<string>)
    ensures |r| == 4 + |args|
    ensures r[..4] == ["-t", table, op, chain] && r[4..] == args
  {
    ["-t", table, op, chain] + args
  }

  /** The FORWARD chain after a successful AddRule. */
  function Ensured(forward: seq<string>, rule: seq<string>): seq<string>
  {
    if RuleListed(Join(forward, "\n"), rule) then forward else [Join(rule, " ")] + forward
  }

  /** The rule as ebtables lists it: one line, no surrounding spaces. */
  predicate Clean(rule: seq<string>)
  {
    var line := Join(rule, " ");
    '\n' !in line && (|line| == 0 || (!IsSpace(line[0]) && !IsSpace(line[|line| - 1])))
  }

  /**
   * AddRule: list FORWARD, then insert the rule at the head of the chain
   * with "-I" in table filter unless the listing already shows it.
   */
  method AddRule(h: Host, rule: seq<string>) returns (e: Outcome)
    modifies h`forward, h`log
    ensures e.Pass? ==> h.forward == Ensured(old(h.forward), rule)
    ensures e.Pass? ==> h.log == old(h.log) + [EbtRuleEnsured(rule)]
    ensures e.Fail? ==> h.forward == old(h.forward) && h.log == old(h.log)
  {
    var listed := h.ListForward();
    if listed.Err? {
      return Fail(listed.error);
    }
    var exist := CheckIfRuleExists(listed.value, rule);
    if !exist {
      var fullargs := MakeFullArgs("filter", "-I", ChainForward, rule);
      var ok := h.Ebtables(fullargs);
      if !ok {
        return Fail(Foreign("ebtables -I FORWARD"));
      }
    }
    h.log := h.log + [EbtRuleEnsured(rule)];
    return Pass;
  }

  /** The insert AddRule issues puts exactly the joined rule at the head of FORWARD. */
  lemma InsertShape(forward: seq<string>, rule: seq<string>)
    ensures IsForwardInsert(MakeFullArgs("filter", "-I", ChainForward, rule))
    ensures EbtablesApplied(forward, MakeFullArgs("filter", "-I", ChainForward, rule))
      == [Join(rule, " ")] + forward
  {
  }

  /** After a successful AddRule the listing shows the rule. */
  lemma {:induction false} EnsuredListed(forward: seq<string>, rule: seq<string>)
    requires Clean(rule)
    ensures RuleListed(Join(Ensured(forward, rule), "\n"), rule)
  {
    if !RuleListed(Join(forward, "\n"), rule) {
      var line := Join(rule, " ");
      var f := [line] + forward;
      SplitJoinMember(f, line, '\n');
      TrimSpaceKeeps(line);
      var lines := Split(Join(f, "\n"), '\n');
      var i :| 0 <= i < |lines| && lines[i] == line;
      assert TrimSpace(lines[i]) == line;
    }
  }

  /** AddRule is idempotent: a second successful call leaves the chain as the first left it. */
  lemma AddRuleIdempotent(forward: seq<string>, rule: seq<string>)
    requires Clean(rule)
    ensures Ensured(Ensured(forward, rule), rule) == Ensured(forward, rule)
  {
    EnsuredListed(forward, rule);
  }
}
