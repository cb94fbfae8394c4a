/**
 * pkg/iptables: the NAT rules of a masqueraded bridge. For a bridge name N
 * the rules are a jump from nat/POSTROUTING to the chain N-POSTROUTING, a
 * MASQUERADE rule in that chain and one ACCEPT rule per ignored
 * destination; each is inserted at the head of its chain unless it is
 * already there. PurgeChain undoes this by listing POSTROUTING.
 */
module Iptables {
  import opened Wrappers
  import opened Text
  import opened Seqs
  import opened Host

  /** The rule record of the source; every rule it builds is in table nat. */
  datatype Rules = Rules(
    table: string, source: string, destination: string, inface: string,
    outface: string, action: string, chain: string, comment: string)

  const NoRule: Rules := Rules("", "", "", "", "", "", "", "")

  const CommentFlag: string := "-m comment --comment"

  function Pair(flag: string, value: string): seq<string>
  {
    if value == "" then [] else [flag, value]
  }

  /** How many of the five rendered fields are non-empty. */
  function SetCount(rule: Rules): nat
  {
    (if rule.source != "" then 1 else 0) + (if rule.destination != "" then 1 else 0)
    + (if rule.action != "" then 1 else 0) + (if rule.outface != "" then 1 else 0)
    + (if rule.comment != "" then 1 else 0)
  }

  /** The field a rendered flag stands for. */
  function SetField(rule: Rules, flag: string, value: string): Rules
  {
    if flag == "-s" then rule.(source := value)
    else if flag == "-d" then rule.(destination := value)
    else if flag == "-j" then rule.(action := value)
    else if flag == "-o" then rule.(outface := value)
    else if flag == CommentFlag then rule.(comment := value)
    else rule
  }

  /** Reads a rendered flag/value list back into the fields it sets. */
  function Decode(tokens: seq<string>): Rules
    decreases |tokens|
  {
    if |tokens| < 2 then NoRule else SetField(Decode(tokens[2..]), tokens[0], tokens[1])
  }

  /** The flags of a flag/value list. */
  function Flags(tokens: seq<string>): seq<string>
    decreases |tokens|
  {
    if |tokens| < 2 then [] else [tokens[0]] + Flags(tokens[2..])
  }

  /** The position of a flag in the order renderRule emits them. */
  function FlagRank(flag: string): nat
  {
    if flag == "-s" then 0 else if flag == "-d" then 1 else if flag == "-j" then 2
    else if flag == "-o" then 3 else if flag == CommentFlag then 4 else 5
  }

  /**
   * renderRule: the -s, -d, -j, -o and comment pairs, in that order, each
   * only when its field is set.
   */
  function RenderRule(rule: Rules): seq<string>
  {
    Pair("-s", rule.source) + (Pair("-d", rule.destination) + (Pair("-j", rule.action)
      + (Pair("-o", rule.outface) + Pair(CommentFlag, rule.comment))))
  }

  /** A rendered rule holds one flag and one value for each non-empty field of the five. */
  lemma RenderLength(rule: Rules)
    ensures |RenderRule(rule)| == 2 * SetCount(rule)
  {
  }

  /** The field of a rule that a rendered flag stands for. */
  function Field(rule: Rules, flag: string): string
  {
    if flag == "-s" then rule.source
    else if flag == "-d" then rule.destination
    else if flag == "-j" then rule.action
    else if flag == "-o" then rule.outface
    else if flag == CommentFlag then rule.comment
    else ""
  }

  lemma PairDecode(flag: string, value: string, rest: seq<string>)
    requires Field(Decode(rest), flag) == ""
    ensures Decode(Pair(flag, value) + rest) == SetField(Decode(rest), flag, value)
    ensures Flags(Pair(flag, value) + rest) == (if value == "" then [] else [flag]) + Flags(rest)
  {
    if value != "" {
      assert (Pair(flag, value) + rest)[2..] == rest;
    } else {
      assert Pair(flag, value) + rest == rest;
    }
  }

  /** Decoding a rendered rule gives back every field renderRule emits: table, chain and inface are never emitted. */
  lemma RenderDecode(rule: Rules)
    ensures Decode(RenderRule(rule)) == rule.(table := "", inface := "", chain := "")
  {
    var t5 := Pair(CommentFlag, rule.comment);
    var t4 := Pair("-o", rule.outface) + t5;
    var t3 := Pair("-j", rule.action) + t4;
    var t2 := Pair("-d", rule.destination) + t3;
    PairDecode(CommentFlag, rule.comment, []);
    assert t5 + [] == t5;
    var d5 := NoRule.(comment := rule.comment);
    assert Decode(t5) == d5;
    PairDecode("-o", rule.outface, t5);
    var d4 := d5.(outface := rule.outface);
    assert Decode(t4) == d4;
    PairDecode("-j", rule.action, t4);
    var d3 := d4.(action := rule.action);
    assert Decode(t3) == d3;
    PairDecode("-d", rule.destination, t3);
    var d2 := d3.(destination := rule.destination);
    assert Decode(t2) == d2;
    PairDecode("-s", rule.source, t2);
  }

  /** The flags are ranked from n on, strictly increasing, all below the unknown rank 5. */
  predicate RankedFrom(flags: seq<string>, n: nat)
  {
    (forall i :: 0 <= i < |flags| ==> n <= FlagRank(flags[i]) < 5)
    && forall i, j :: 0 <= i < j < |flags| ==> FlagRank(flags[i]) < FlagRank(flags[j])
  }

  lemma RankedCons(flag: string, value: string, rest: seq<string>, n: nat)
    requires FlagRank(flag) == n < 5 && Field(Decode(rest), flag) == ""
    requires RankedFrom(Flags(rest), n + 1)
    ensures RankedFrom(Flags(Pair(flag, value) + rest), n)
  {
    PairDecode(flag, value, rest);
    var f := Flags(Pair(flag, value) + rest);
    if value != "" {
      forall i, j | 0 <= i < j < |f| ensures FlagRank(f[i]) < FlagRank(f[j]) {
        if i > 0 { assert f[i] == Flags(rest)[i - 1]; }
        assert f[j] == Flags(rest)[j - 1];
      }
      forall i | 0 <= i < |f| ensures n <= FlagRank(f[i]) < 5 {
        if i > 0 { assert f[i] == Flags(rest)[i - 1]; } else { assert f[i] == flag; }
      }
    }
  }

  /** renderRule emits its pairs in the fixed order -s, -d, -j, -o, comment. */
  lemma RenderOrder(rule: Rules)
    ensures RankedFrom(Flags(RenderRule(rule)), 0)
  {
    var t3 := Pair("-j", rule.action) + (Pair("-o", rule.outface) + Pair(CommentFlag, rule.comment));
    var t2 := Pair("-d", rule.destination) + t3;
    RenderOrderTail(rule);
    RankedCons("-d", rule.destination, t3, 1);
    PairDecode("-d", rule.destination, t3);
    RankedCons("-s", rule.source, t2, 0);
  }

  /** The -j, -o and comment pairs are ranked from 2 on and set neither -s nor -d. */
  lemma RenderOrderTail(rule: Rules)
    ensures var t3 := Pair("-j", rule.action) + (Pair("-o", rule.outface) + Pair(CommentFlag, rule.comment));
      RankedFrom(Flags(t3), 2) && Field(Decode(t3), "-s") == "" && Field(Decode(t3), "-d") == ""
  {
    var t5 := Pair(CommentFlag, rule.comment);
    var t4 := Pair("-o", rule.outface) + t5;
    assert t5 == Pair(CommentFlag, rule.comment) + [];
    RankedCons(CommentFlag, rule.comment, [], 4);
    PairDecode(CommentFlag, rule.comment, []);
    RankedCons("-o", rule.outface, t5, 3);
    PairDecode("-o", rule.outface, t5);
    RankedCons("-j", rule.action, t4, 2);
    PairDecode("-j", rule.action, t4);
  }

  function PostroutingChain(name: string): string
  {
    name + "-POSTROUTING"
  }

  function JumpRule(name: string, source: string): Rules
  {
    Rules("nat", source, "", "", "", PostroutingChain(name), "POSTROUTING", "")
  }

  function MasqueradeRule(name: string, egressIface: string): Rules
  {
    Rules("nat", "", "", "", egressIface, "MASQUERADE", PostroutingChain(name), "")
  }

  function AcceptRule(name: string, destination: string): Rules
  {
    Rules("nat", "", destination, "", "", "ACCEPT", PostroutingChain(name), "")
  }

  function AcceptRules(name: string, ignore: seq<string>): (r: seq<Rules>)
    ensures |r| == |ignore|
    ensures forall k :: 0 <= k < |ignore| ==> r[k] == AcceptRule(name, ignore[k])
  {
    if |ignore| == 0 then [] else AcceptRules(name, ignore[..|ignore| - 1]) + [AcceptRule(name, ignore[|ignore| - 1])]
  }

  /** The rule list AddRule builds. */
  function BuildRules(name: string, source: string, ignore: seq<string>, egressIface: string): seq<Rules>
  {
    [JumpRule(name, source), MasqueradeRule(name, egressIface)] + AcceptRules(name, ignore)
  }

  /** One insert-unless-present step: a rule's tokens and the chain they go to. */
  datatype Insertion = Insertion(chain: string, rule: seq<string>)

  function Rendered(rules: seq<Rules>): (r: seq<Insertion>)
    ensures |r| == |rules|
    ensures forall k :: 0 <= k < |rules| ==> r[k] == Insertion(rules[k].chain, RenderRule(rules[k]))
  {
    if |rules| == 0 then [] else Rendered(rules[..|rules| - 1]) + [Insertion(rules[|rules| - 1].chain, RenderRule(rules[|rules| - 1]))]
  }

  /** The chains after one Exists-then-Insert at position 1 that succeeded. */
  function InsertIfAbsent(chains: map<string, seq<seq<string>>>, x: Insertion): map<string, seq<seq<string>>>
  {
    if x.chain in chains && x.rule !in chains[x.chain] then chains[x.chain := [x.rule] + chains[x.chain]]
    else chains
  }

  function ApplyAll(chains: map<string, seq<seq<string>>>, xs: seq<Insertion>): map<string, seq<seq<string>>>
  {
    if |xs| == 0 then chains else InsertIfAbsent(ApplyAll(chains, xs[..|xs| - 1]), xs[|xs| - 1])
  }

  function WithChain(chains: map<string, seq<seq<string>>>, chain: string): map<string, seq<seq<string>>>
  {
    if chain in chains then chains else chains[chain := []]
  }

  /** The nat table after a successful AddRule that resolved egressIface. */
  function Effect(chains: map<string, seq<seq<string>>>, name: string, source: string,
                  ignore: seq<string>, egressIface: string): map<string, seq<seq<string>>>
  {
    ApplyAll(WithChain(chains, PostroutingChain(name)), Rendered(BuildRules(name, source, ignore, egressIface)))
  }

  /** Whether the k-th existence check of a run answered; checks the run did not record count as answered. */
  predicate Answered(answers: seq<bool>, k: nat)
  {
    k >= |answers| || answers[k]
  }

  predicate AllAnswered(answers: seq<bool>)
  {
    forall k :: 0 <= k < |answers| ==> answers[k]
  }

  /**
   * One Exists-then-Insert at position 1 that succeeded. A check that
   * answered leaves a present rule alone; a failed check reads as "absent",
   * so the rule goes in front again even when its chain holds it.
   */
  function InsertChecked(chains: map<string, seq<seq<string>>>, x: Insertion, answered: bool): map<string, seq<seq<string>>>
  {
    if answered then InsertIfAbsent(chains, x)
    else if x.chain in chains then chains[x.chain := [x.rule] + chains[x.chain]]
    else chains
  }

  /** The inserts of a run whose k-th existence check answered as answers says. */
  function ApplyChecked(chains: map<string, seq<seq<string>>>, xs: seq<Insertion>, answers: seq<bool>)
    : map<string, seq<seq<string>>>
  {
    if |xs| == 0 then chains
    else InsertChecked(ApplyChecked(chains, xs[..|xs| - 1], answers), xs[|xs| - 1], Answered(answers, |xs| - 1))
  }

  /** The nat table after a successful AddRule, whatever its existence checks answered. */
  function EffectChecked(chains: map<string, seq<seq<string>>>, name: string, source: string,
                         ignore: seq<string>, egressIface: string, answers: seq<bool>): map<string, seq<seq<string>>>
  {
    ApplyChecked(WithChain(chains, PostroutingChain(name)), Rendered(BuildRules(name, source, ignore, egressIface)), answers)
  }

  /**
   * AddRule: resolve the egress interface when an egress network is given,
   * build the rule list, create the per-name chain (its error ignored), then
   * insert each rule at position 1 unless it already exists.
   */
  method AddRule(h: Host, name: string, source: string, ignore: seq<string>, egressNetwork: string)
    returns (e: Outcome, ghost egressIface: string, ghost answers: seq<bool>)
    modifies h`chains, h`log
    ensures egressNetwork == "" ==> egressIface == ""
    ensures e.Pass? ==> |answers| == 2 + |ignore|
    ensures e.Pass? ==> h.chains == EffectChecked(old(h.chains), name, source, ignore, egressIface, answers)
    ensures e.Pass? && AllAnswered(answers) ==> h.chains == Effect(old(h.chains), name, source, ignore, egressIface)
    ensures e.Pass? ==> h.log == old(h.log) + [NatRulesEnsured(name, source, ignore, egressNetwork)]
    ensures e.Fail? ==> h.log == old(h.log)
    ensures egressNetwork != "" && h.parseCIDR(egressNetwork).None? ==>
      e == Fail(Parse(egressNetwork)) && h.chains == old(h.chains)
    ensures e == Fail(NoEgressRoute) ==> h.chains == old(h.chains)
  {
    answers := [];
    var egress := EgressInterface(h, egressNetwork);
    if egress.Err? {
      return Fail(egress.error), "", answers;
    }
    var egressInterface := egress.value;
    egressIface := egressInterface;
    var chain := PostroutingChain(name);
    var handle := h.IptablesHandle();
    if !handle {
      return Fail(Foreign("iptables.NewWithProtocol")), egressIface, answers;
    }
    ghost var created := h.chains;
    h.IptNewChain(chain);
    ghost var start := h.chains;
    var rules := CollectRules(name, source, ignore, egressInterface);
    var ok;
    ok, answers := InsertRules(h, rules);
    if !ok {
      return Fail(Foreign("iptables -I")), egressIface, answers;
    }
    assert rules[1].chain == chain;
    assert start == WithChain(created, chain);
    if AllAnswered(answers) {
      ApplyCheckedAnswered(start, Rendered(rules), answers);
    }
    h.log := h.log + [NatRulesEnsured(name, source, ignore, egressNetwork)];
    e := Pass;
  }

  /**
   * The egress interface of AddRule: none without an egress network;
   * otherwise the interface of the one kernel route to the network's
   * address.
   */
  method EgressInterface(h: Host, egressNetwork: string) returns (r: Result<string>)
    ensures egressNetwork == "" ==> r == Ok("")
    ensures egressNetwork != "" && h.parseCIDR(egressNetwork).None? ==> r == Err(Parse(egressNetwork))
    ensures egressNetwork != "" && r.Ok? ==> r.value in h.links
    ensures r.Err? ==> r.error == Parse(egressNetwork) || r.error == NoEgressRoute || r.error.Panic?
  {
    if egressNetwork == "" {
      return Ok("");
    }
    var parsed := h.parseCIDR(egressNetwork);
    if parsed.None? {
      return Err(Parse(egressNetwork));
    }
    var egressRoute := h.RouteGet(parsed.value.0);
    if |egressRoute| != 1 {
      return Err(NoEgressRoute);
    }
    var i := h.InterfaceByIndex(egressRoute[0].linkIndex);
    if i.None? {
      return Err(Panic("nil *net.Interface from InterfaceByIndex"));
    }
    return Ok(i.value);
  }

  /** The rule list of AddRule: the jump, the masquerade, then one accept per ignored network, in order. */
  method CollectRules(name: string, source: string, ignore: seq<string>, egressIface: string) returns (rules: seq<Rules>)
    ensures rules == BuildRules(name, source, ignore, egressIface)
  {
    rules := [JumpRule(name, source), MasqueradeRule(name, egressIface)];
    var k := 0;
    while k < |ignore|
      invariant 0 <= k <= |ignore|
      invariant rules == [JumpRule(name, source), MasqueradeRule(name, egressIface)] + AcceptRules(name, ignore[..k])
    {
      assert ignore[..k + 1][..k] == ignore[..k];
      rules := rules + [AcceptRule(name, ignore[k])];
      k := k + 1;
    }
    assert ignore[..k] == ignore;
  }

  /** Every rule's chain is a chain of the table. */
  predicate ChainsExist(rules: seq<Rules>, chains: map<string, seq<seq<string>>>)
  {
    forall k :: 0 <= k < |rules| ==> rules[k].chain in chains
  }

  lemma ChainsExistSnoc(rules: seq<Rules>, i: nat, chains: map<string, seq<seq<string>>>)
    requires i < |rules| && ChainsExist(rules[..i], chains) && rules[i].chain in chains
    ensures ChainsExist(rules[..i + 1], chains)
  {
    assert forall k :: 0 <= k < i ==> rules[..i + 1][k] == rules[..i][k];
  }

  /** The insert loop of AddRule: each rule at position 1 of its chain unless it already exists. */
  method InsertRules(h: Host, rules: seq<Rules>) returns (ok: bool, ghost answers: seq<bool>)
    modifies h`chains
    ensures ok ==> |answers| == |rules| && h.chains == ApplyChecked(old(h.chains), Rendered(rules), answers)
    ensures ok ==> ChainsExist(rules, old(h.chains))
  {
    ghost var start := h.chains;
    answers := [];
    var i := 0;
    while i < |rules|
      invariant 0 <= i <= |rules| && |answers| == i
      invariant h.chains == ApplyChecked(start, Rendered(rules[..i]), answers)
      invariant ChainsExist(rules[..i], start)
    {
      var rls := rules[i];
      var r := RenderRule(rls);
      ApplyCheckedKeys(start, Rendered(rules[..i]), answers, rls.chain);
      ghost var answered;
      ok, answered := InsertOne(h, rls.chain, r);
      if !ok {
        return false, answers;
      }
      ApplyCheckedSnoc(start, rules, answers, answered, i);
      answers := answers + [answered];
      ChainsExistSnoc(rules, i, start);
      i := i + 1;
    }
    assert rules[..i] == rules;
    return true, answers;
  }

  /** One step of the insert loop: ipt.Exists, then ipt.Insert when the check did not find the rule. */
  method InsertOne(h: Host, chain: string, rule: seq<string>) returns (ok: bool, ghost answered: bool)
    modifies h`chains
    ensures ok ==> chain in old(h.chains) && h.chains == InsertChecked(old(h.chains), Insertion(chain, rule), answered)
    ensures !ok ==> h.chains == old(h.chains)
  {
    var exist;
    exist, answered := h.IptExists(chain, rule);
    if exist {
      return true, answered;
    }
    ok := h.IptInsert(chain, rule);
  }

  /** A run's inserts read only the answers of their own checks. */
  lemma {:induction false} ApplyCheckedPrefix(chains: map<string, seq<seq<string>>>, xs: seq<Insertion>,
                                              answers: seq<bool>, more: seq<bool>)
    requires |xs| <= |answers|
    ensures ApplyChecked(chains, xs, answers + more) == ApplyChecked(chains, xs, answers)
  {
    if |xs| > 0 {
      ApplyCheckedPrefix(chains, xs[..|xs| - 1], answers, more);
      assert (answers + more)[|xs| - 1] == answers[|xs| - 1];
    }
  }

  lemma ApplyCheckedSnoc(start: map<string, seq<seq<string>>>, rules: seq<Rules>, answers: seq<bool>, a: bool, i: nat)
    requires i < |rules| && |answers| == i
    ensures ApplyChecked(start, Rendered(rules[..i + 1]), answers + [a])
      == InsertChecked(ApplyChecked(start, Rendered(rules[..i]), answers), Insertion(rules[i].chain, RenderRule(rules[i])), a)
  {
    assert rules[..i + 1][..i] == rules[..i];
    var xs := Rendered(rules[..i + 1]);
    assert xs[..i] == Rendered(rules[..i]);
    ApplyCheckedPrefix(start, xs[..i], answers, [a]);
  }

  /** The PurgeChain step for one POSTROUTING listing line. */
  function PurgeStep(chains: map<string, seq<seq<string>>>, line: string, name: string): map<string, seq<seq<string>>>
  {
    var pieces := Split(line, ' ');
    if Contains(line, PostroutingChain(name)) && |pieces| >= 2 then
      var deleted := if "POSTROUTING" in chains
        then chains["POSTROUTING" := RemoveFirst(chains["POSTROUTING"], pieces[2..])] else chains;
      deleted - {PostroutingChain(name)}
    else chains
  }

  function Purged(chains: map<string, seq<seq<string>>>, lines: seq<string>, name: string): map<string, seq<seq<string>>>
  {
    if |lines| == 0 then chains else PurgeStep(Purged(chains, lines[..|lines| - 1], name), lines[|lines| - 1], name)
  }

  /**
   * PurgeChain: for every POSTROUTING listing line that mentions
   * N-POSTROUTING, delete the rule made of the line's tokens after the
   * first two, then clear and delete the chain N-POSTROUTING.
   */
  method PurgeChain(h: Host, name: string) returns (e: Outcome)
    modifies h`chains, h`log
    ensures e.Pass? ==> "POSTROUTING" in old(h.chains)
    ensures e.Pass? ==> h.chains == Purged(old(h.chains), Listing("POSTROUTING", old(h.chains)["POSTROUTING"]), name)
    ensures e.Pass? ==> h.log == old(h.log) + [NatChainPurged(name)]
    ensures e.Fail? ==> h.log == old(h.log)
    ensures e == Fail(Foreign("iptables -S")) ==> h.chains == old(h.chains)
  {
    var handle := h.IptablesHandle();
    if !handle {
      // The source only prints this error and goes on with a nil handle.
      return Fail(Panic("nil *iptables.IPTables"));
    }
    var listed := h.IptList("POSTROUTING");
    if listed.Err? {
      return Fail(Foreign("iptables -S"));
    }
    var rules := listed.value;
    var i := 0;
    while i < |rules|
      invariant 0 <= i <= |rules|
      invariant h.chains == Purged(old(h.chains), rules[..i], name)
      invariant h.log == old(h.log)
    {
      assert rules[..i + 1][..i] == rules[..i];
      e := PurgeLine(h, rules[i], name);
      if e.Fail? {
        return e;
      }
      i := i + 1;
    }
    assert rules[..i] == rules;
    h.log := h.log + [NatChainPurged(name)];
    e := Pass;
  }

  /**
   * The body of PurgeChain's loop for one listing line: a line that
   * mentions N-POSTROUTING has the rule of its tokens after the first two
   * deleted from POSTROUTING, and then N-POSTROUTING cleared and deleted.
   */
  method PurgeLine(h: Host, line: string, name: string) returns (e: Outcome)
    modifies h`chains
    ensures e.Pass? ==> h.chains == PurgeStep(old(h.chains), line, name)
    ensures e == Pass || e == Fail(Panic("slice bounds out of range"))
      || e == Fail(Foreign("iptables -D")) || e == Fail(Foreign("iptables -X"))
  {
    var chain := PostroutingChain(name);
    var res := Contains(line, chain);
    if res {
      var pieces := Split(line, ' ');
      if |pieces| < 2 {
        return Fail(Panic("slice bounds out of range"));
      }
      var r := pieces[2..];
      var ok := h.IptDeleteIfExists("POSTROUTING", r);
      if !ok {
        return Fail(Foreign("iptables -D"));
      }
      ok := h.IptClearAndDeleteChain(chain);
      if !ok {
        return Fail(Foreign("iptables -X"));
      }
    }
    return Pass;
  }

  // ---------------------------------------------------------------------------
  // Lemmas

  lemma {:induction false} ApplyAllKeys(chains: map<string, seq<seq<string>>>, xs: seq<Insertion>, c: string)
    ensures c in ApplyAll(chains, xs) <==> c in chains
  {
    if |xs| > 0 {
      ApplyAllKeys(chains, xs[..|xs| - 1], c);
    }
  }

  lemma {:induction false} ApplyCheckedKeys(chains: map<string, seq<seq<string>>>, xs: seq<Insertion>,
                                            answers: seq<bool>, c: string)
    ensures c in ApplyChecked(chains, xs, answers) <==> c in chains
  {
    if |xs| > 0 {
      ApplyCheckedKeys(chains, xs[..|xs| - 1], answers, c);
    }
  }

  /** A run whose existence checks all answered inserts exactly what ApplyAll says. */
  lemma {:induction false} ApplyCheckedAnswered(chains: map<string, seq<seq<string>>>, xs: seq<Insertion>, answers: seq<bool>)
    requires AllAnswered(answers)
    ensures ApplyChecked(chains, xs, answers) == ApplyAll(chains, xs)
  {
    if |xs| > 0 {
      ApplyCheckedAnswered(chains, xs[..|xs| - 1], answers);
    }
  }

  /**
   * A failed existence check for a rule its chain already holds puts the
   * rule in front a second time, where an answered check changes nothing.
   */
  lemma UncheckedDuplicates(chains: map<string, seq<seq<string>>>, x: Insertion)
    requires x.chain in chains && x.rule in chains[x.chain]
    ensures InsertChecked(chains, x, true) == chains
    ensures x.chain in InsertChecked(chains, x, false)
    ensures InsertChecked(chains, x, false)[x.chain] == [x.rule] + chains[x.chain]
    ensures multiset(InsertChecked(chains, x, false)[x.chain])[x.rule] == multiset(chains[x.chain])[x.rule] + 1
  {
  }

  /** Rules already in their chains stay there. */
  lemma {:induction false} ApplyAllKeeps(chains: map<string, seq<seq<string>>>, xs: seq<Insertion>, c: string, r: seq<string>)
    requires c in chains && r in chains[c]
    ensures c in ApplyAll(chains, xs) && r in ApplyAll(chains, xs)[c]
  {
    if |xs| > 0 {
      ApplyAllKeeps(chains, xs[..|xs| - 1], c, r);
    }
  }

  /** After the inserts, every rule is in its chain, provided the chains exist. */
  lemma {:induction false} ApplyAllPresent(chains: map<string, seq<seq<string>>>, xs: seq<Insertion>, k: nat)
    requires k < |xs|
    requires forall j :: 0 <= j < |xs| ==> xs[j].chain in chains
    ensures xs[k].chain in ApplyAll(chains, xs) && xs[k].rule in ApplyAll(chains, xs)[xs[k].chain]
  {
    var p := xs[..|xs| - 1];
    ApplyAllKeys(chains, p, xs[|xs| - 1].chain);
    if k < |xs| - 1 {
      ApplyAllPresent(chains, p, k);
      var m := ApplyAll(chains, p);
      assert xs[k] == p[k];
      var m' := InsertIfAbsent(m, xs[|xs| - 1]);
      assert xs[k].chain in m' && xs[k].rule in m'[xs[k].chain];
    }
  }

  /** Inserting rules that are all present already changes nothing. */
  lemma {:induction false} ApplyAllNoop(chains: map<string, seq<seq<string>>>, xs: seq<Insertion>)
    requires forall j :: 0 <= j < |xs| ==> xs[j].chain in chains && xs[j].rule in chains[xs[j].chain]
    ensures ApplyAll(chains, xs) == chains
  {
    if |xs| > 0 {
      ApplyAllNoop(chains, xs[..|xs| - 1]);
    }
  }

  /** AddRule is idempotent on the nat table: a second successful run changes nothing. */
  lemma AddRuleIdempotent(chains: map<string, seq<seq<string>>>, name: string, source: string,
                          ignore: seq<string>, egressIface: string)
    requires "POSTROUTING" in chains
    ensures Effect(Effect(chains, name, source, ignore, egressIface), name, source, ignore, egressIface)
      == Effect(chains, name, source, ignore, egressIface)
  {
    var c := PostroutingChain(name);
    var start := WithChain(chains, c);
    var xs := Rendered(BuildRules(name, source, ignore, egressIface));
    var once := ApplyAll(start, xs);
    assert forall j :: 0 <= j < |xs| ==> xs[j].chain in start by {
      forall j | 0 <= j < |xs| ensures xs[j].chain in start {
        assert BuildRules(name, source, ignore, egressIface)[j].chain in {"POSTROUTING", c};
      }
    }
    ApplyAllKeys(start, xs, c);
    assert WithChain(once, c) == once;
    forall j | 0 <= j < |xs| ensures xs[j].chain in once && xs[j].rule in once[xs[j].chain] {
      ApplyAllPresent(start, xs, j);
    }
    ApplyAllNoop(once, xs);
  }

  /** The rules of xs that go to chain c, in order. */
  function RulesFor(xs: seq<Insertion>, c: string): seq<seq<string>>
  {
    if |xs| == 0 then []
    else RulesFor(xs[..|xs| - 1], c) + (if xs[|xs| - 1].chain == c then [xs[|xs| - 1].rule] else [])
  }

  /** Into an empty chain, insert-at-front-unless-present leaves the distinct rules in reverse order. */
  lemma {:induction false} ApplyAllFreshChain(chains: map<string, seq<seq<string>>>, xs: seq<Insertion>, c: string)
    requires c in chains && chains[c] == []
    ensures c in ApplyAll(chains, xs) && ApplyAll(chains, xs)[c] == Reverse(Dedup(RulesFor(xs, c)))
  {
    if |xs| > 0 {
      var p, x := xs[..|xs| - 1], xs[|xs| - 1];
      ApplyAllFreshChain(chains, p, c);
      ApplyAllKeys(chains, p, c);
      if x.chain == c {
        assert RulesFor(xs, c) == RulesFor(p, c) + [x.rule];
        FreshChainStep(ApplyAll(chains, p), x, RulesFor(p, c));
      } else {
        assert RulesFor(xs, c) == RulesFor(p, c) + [];
        assert RulesFor(p, c) + [] == RulesFor(p, c);
      }
    }
  }

  /** One insert into a chain that holds the distinct rules sent so far, last one first. */
  lemma FreshChainStep(m: map<string, seq<seq<string>>>, x: Insertion, rs: seq<seq<string>>)
    requires x.chain in m && m[x.chain] == Reverse(Dedup(rs))
    ensures x.chain in InsertIfAbsent(m, x) && InsertIfAbsent(m, x)[x.chain] == Reverse(Dedup(rs + [x.rule]))
  {
    var d := Dedup(rs);
    DedupSnoc(rs, x.rule);
    ReverseMember(d, x.rule);
    if x.rule !in d {
      ReverseSnoc(d, x.rule);
    }
  }

  lemma {:induction false} ReverseSnoc<T>(s: seq<T>, x: T)
    ensures Reverse(s + [x]) == [x] + Reverse(s)
  {
    if |s| > 0 {
      assert (s + [x])[1..] == s[1..] + [x];
      ReverseSnoc(s[1..], x);
    }
  }

  lemma {:induction false} ReverseMember<T>(s: seq<T>, x: T)
    ensures x in Reverse(s) <==> x in s
  {
    if |s| > 0 {
      ReverseMember(s[1..], x);
      assert s == [s[0]] + s[1..];
    }
  }

  lemma {:induction false} DedupCons<T>(x: T, s: seq<T>)
    requires x !in s
    ensures Dedup([x] + s) == [x] + Dedup(s)
  {
    if |s| > 0 {
      var p := s[..|s| - 1];
      assert ([x] + s)[..|s|] == [x] + p;
      assert p + [s[|s| - 1]] == s;
      DedupCons(x, p);
    }
  }

  lemma {:induction false} RulesForAppend(a: seq<Insertion>, b: seq<Insertion>, c: string)
    ensures RulesFor(a + b, c) == RulesFor(a, c) + RulesFor(b, c)
  {
    if |b| > 0 {
      assert (a + b)[..|a + b| - 1] == a + b[..|b| - 1];
      assert (a + b)[|a + b| - 1] == b[|b| - 1];
      RulesForAppend(a, b[..|b| - 1], c);
    } else {
      assert a + b == a;
    }
  }

  lemma {:induction false} RenderedAppend(a: seq<Rules>, b: seq<Rules>)
    ensures Rendered(a + b) == Rendered(a) + Rendered(b)
  {
  }

  /** The accept rules all go to the per-name chain, one per ignored destination. */
  lemma {:induction false} AcceptRulesFor(name: string, ignore: seq<string>)
    ensures RulesFor(Rendered(AcceptRules(name, ignore)), PostroutingChain(name))
      == AcceptTokens(name, ignore)
  {
    if |ignore| > 0 {
      var p := ignore[..|ignore| - 1];
      AcceptRulesFor(name, p);
      var rs := AcceptRules(name, ignore);
      assert rs[..|rs| - 1] == AcceptRules(name, p);
      assert Rendered(rs)[..|rs| - 1] == Rendered(AcceptRules(name, p));
      AcceptTokensSnoc(name, ignore);
    }
  }

  function AcceptTokens(name: string, ignore: seq<string>): (r: seq<seq<string>>)
    ensures |r| == |ignore|
    ensures forall k :: 0 <= k < |ignore| ==> r[k] == RenderRule(AcceptRule(name, ignore[k]))
  {
    seq(|ignore|, k requires 0 <= k < |ignore| => RenderRule(AcceptRule(name, ignore[k])))
  }

  lemma AcceptTokensSnoc(name: string, ignore: seq<string>)
    requires |ignore| > 0
    ensures AcceptTokens(name, ignore)
      == AcceptTokens(name, ignore[..|ignore| - 1]) + [RenderRule(AcceptRule(name, ignore[|ignore| - 1]))]
  {
    var n := |ignore|;
    var front := ignore[..n - 1];
    var a, b := AcceptTokens(name, ignore), AcceptTokens(name, front);
    forall k | 0 <= k < n - 1 ensures a[k] == b[k] {
      assert front[k] == ignore[k];
    }
    assert a == b + [a[n - 1]];
  }

  /** Of the jump and MASQUERADE rules only the latter goes to the per-name chain. */
  lemma HeadRulesFor(name: string, source: string, egressIface: string)
    ensures RulesFor(Rendered([JumpRule(name, source), MasqueradeRule(name, egressIface)]), PostroutingChain(name))
      == [RenderRule(MasqueradeRule(name, egressIface))]
  {
    var c := PostroutingChain(name);
    var head := [JumpRule(name, source), MasqueradeRule(name, egressIface)];
    var xs := Rendered(head);
    assert |c| > |"POSTROUTING"|;
    assert xs[0].chain == "POSTROUTING" != c && xs[1].chain == c;
    assert xs[..1][..0] == [];
    assert RulesFor(xs[..1], c) == [];
  }

  /** The rules AddRule sends to the per-name chain: MASQUERADE first, then one ACCEPT per ignored destination. */
  lemma BuildRulesFor(name: string, source: string, ignore: seq<string>, egressIface: string)
    ensures RulesFor(Rendered(BuildRules(name, source, ignore, egressIface)), PostroutingChain(name))
      == [RenderRule(MasqueradeRule(name, egressIface))] + AcceptTokens(name, ignore)
  {
    var c := PostroutingChain(name);
    var head := [JumpRule(name, source), MasqueradeRule(name, egressIface)];
    RenderedAppend(head, AcceptRules(name, ignore));
    RulesForAppend(Rendered(head), Rendered(AcceptRules(name, ignore)), c);
    HeadRulesFor(name, source, egressIface);
    AcceptRulesFor(name, ignore);
  }

  /** The MASQUERADE rule is none of the ACCEPT rules: their targets differ. */
  lemma MasqueradeNotAccept(name: string, ignore: seq<string>, egressIface: string)
    ensures RenderRule(MasqueradeRule(name, egressIface)) !in AcceptTokens(name, ignore)
  {
    var masq := RenderRule(MasqueradeRule(name, egressIface));
    var accepts := AcceptTokens(name, ignore);
    RenderDecode(MasqueradeRule(name, egressIface));
    forall k | 0 <= k < |accepts| ensures accepts[k] != masq {
      RenderDecode(AcceptRule(name, ignore[k]));
    }
  }

  /**
   * On a fresh per-name chain every ACCEPT rule ends up ahead of the
   * MASQUERADE rule, the ACCEPT rules in reverse order of the ignore list
   * (a repeated destination once, at its first position).
   */
  lemma FreshChainOrder(chains: map<string, seq<seq<string>>>, name: string, source: string,
                        ignore: seq<string>, egressIface: string)
    requires PostroutingChain(name) !in chains || chains[PostroutingChain(name)] == []
    ensures var c := PostroutingChain(name);
      c in Effect(chains, name, source, ignore, egressIface)
      && Effect(chains, name, source, ignore, egressIface)[c]
        == Reverse(Dedup(AcceptTokens(name, ignore))) + [RenderRule(MasqueradeRule(name, egressIface))]
  {
    var c := PostroutingChain(name);
    var masq := RenderRule(MasqueradeRule(name, egressIface));
    BuildRulesFor(name, source, ignore, egressIface);
    MasqueradeNotAccept(name, ignore, egressIface);
    ApplyAllFreshChain(WithChain(chains, c), Rendered(BuildRules(name, source, ignore, egressIface)), c);
    DedupCons(masq, AcceptTokens(name, ignore));
    ReverseSnoc(Dedup(AcceptTokens(name, ignore)), masq);
  }

  /**
   * Into an empty chain, whatever the existence checks answered, the first
   * rule sent there ends up last and every rule in front of it is one of the
   * rules sent after it.
   */
  lemma {:induction false} ApplyCheckedFreshChain(chains: map<string, seq<seq<string>>>, xs: seq<Insertion>,
                                                  answers: seq<bool>, c: string)
    requires c in chains && chains[c] == []
    ensures var r := ApplyChecked(chains, xs, answers);
      && c in r
      && (|RulesFor(xs, c)| == 0 ==> r[c] == [])
      && (|RulesFor(xs, c)| > 0 ==>
            && |r[c]| >= 1 && r[c][|r[c]| - 1] == RulesFor(xs, c)[0]
            && forall t :: t in r[c][..|r[c]| - 1] ==> t in RulesFor(xs, c)[1..])
  {
    if |xs| > 0 {
      var p, x := xs[..|xs| - 1], xs[|xs| - 1];
      ApplyCheckedFreshChain(chains, p, answers, c);
      ApplyCheckedKeys(chains, p, answers, c);
      var m := ApplyChecked(chains, p, answers)[c];
      var rs := RulesFor(p, c);
      if x.chain == c {
        assert RulesFor(xs, c) == rs + [x.rule];
        if |rs| > 0 {
          var r := ApplyChecked(chains, xs, answers)[c];
          if r != m {
            assert r == [x.rule] + m;
            assert r[..|r| - 1] == [x.rule] + m[..|m| - 1];
            assert (rs + [x.rule])[1..] == rs[1..] + [x.rule];
          } else {
            assert (rs + [x.rule])[1..] == rs[1..] + [x.rule];
          }
        }
      } else {
        assert RulesFor(xs, c) == rs + [];
        assert rs + [] == rs;
      }
    }
  }

  /**
   * FreshChainOrder for any run, failed existence checks included: the
   * MASQUERADE rule is last and every rule in front of it is an ACCEPT rule.
   */
  lemma FreshChainOrderChecked(chains: map<string, seq<seq<string>>>, name: string, source: string,
                               ignore: seq<string>, egressIface: string, answers: seq<bool>)
    requires PostroutingChain(name) !in chains || chains[PostroutingChain(name)] == []
    ensures var c := PostroutingChain(name);
      var r := EffectChecked(chains, name, source, ignore, egressIface, answers);
      && c in r && |r[c]| >= 1
      && r[c][|r[c]| - 1] == RenderRule(MasqueradeRule(name, egressIface))
      && (forall t :: t in r[c][..|r[c]| - 1] ==> t in AcceptTokens(name, ignore))
      && RenderRule(MasqueradeRule(name, egressIface)) !in r[c][..|r[c]| - 1]
  {
    var c := PostroutingChain(name);
    var masq, accepts := RenderRule(MasqueradeRule(name, egressIface)), AcceptTokens(name, ignore);
    var xs := Rendered(BuildRules(name, source, ignore, egressIface));
    var r := EffectChecked(chains, name, source, ignore, egressIface, answers);
    assert r == ApplyChecked(WithChain(chains, c), xs, answers);
    BuildRulesFor(name, source, ignore, egressIface);
    MasqueradeNotAccept(name, ignore, egressIface);
    var rs := RulesFor(xs, c);
    assert rs == [masq] + accepts;
    assert rs[0] == masq && rs[1..] == accepts;
    ApplyCheckedFreshChain(WithChain(chains, c), xs, answers, c);
  }

  lemma SuffixChars(s: string, name: string, i: nat)
    ensures i + |PostroutingChain(name)| <= |s| && s[i..i + |PostroutingChain(name)|] == PostroutingChain(name)
      ==> 0 <= i + |name| < |s| - 2 && s[i + |name|] == '-' && s[i + |name| + 2] == 'O'
  {
    var sub := PostroutingChain(name);
    if i + |sub| <= |s| && s[i..i + |sub|] == sub {
      assert s[i..i + |sub|][|name|] == sub[|name|];
      assert s[i..i + |sub|][|name| + 2] == sub[|name| + 2];
    }
  }

  /** A line in which no '-' is followed, one character on, by 'O' never names a per-name chain. */
  lemma {:induction false} NoChainName(s: string, name: string)
    requires forall j :: 0 <= j < |s| - 2 && s[j] == '-' ==> s[j + 2] != 'O'
    ensures !Contains(s, PostroutingChain(name))
  {
    var sub := PostroutingChain(name);
    if Contains(s, sub) {
      var i := ContainsWitness(s, sub);
      SuffixChars(s, name, i);
      assert false;
    }
  }

  /** A POSTROUTING rule whose listing line names the per-name chain: PurgeChain deletes these. */
  predicate Mentions(rule: seq<string>, name: string)
  {
    Contains(RuleLine("POSTROUTING", rule), PostroutingChain(name))
  }

  /** The rules that do not mention the per-name chain, in their order. */
  function Unmentioned(rules: seq<seq<string>>, name: string): (r: seq<seq<string>>)
    ensures forall t :: t in r <==> t in rules && !Mentions(t, name)
  {
    if |rules| == 0 then []
    else
      var front, last := rules[..|rules| - 1], rules[|rules| - 1];
      assert rules == front + [last];
      Unmentioned(front, name) + (if Mentions(last, name) then [] else [last])
  }

  /** Rules that Split reads back from their listing lines: each has a token and no token holds a space. */
  predicate Tokenized(rules: seq<seq<string>>)
  {
    && (forall i :: 0 <= i < |rules| ==> |rules[i]| > 0)
    && (forall i, k :: 0 <= i < |rules| && 0 <= k < |rules[i]| ==> ' ' !in rules[i][k])
  }

  /** The tokens PurgeChain takes from a listed rule, after "-A POSTROUTING", are the rule's own. */
  lemma ListedTokens(rule: seq<string>)
    requires |rule| > 0 && forall k :: 0 <= k < |rule| ==> ' ' !in rule[k]
    ensures var pieces := Split(RuleLine("POSTROUTING", rule), ' ');
      |pieces| >= 2 && pieces[2..] == rule
  {
    var parts := ["-A", "POSTROUTING"] + rule;
    ListedJoin(rule);
    forall i | 0 <= i < |parts| ensures ' ' !in parts[i] {
      if i >= 2 {
        assert parts[i] == rule[i - 2];
      }
    }
    SplitJoin(parts, ' ');
    assert parts[2..] == rule;
  }

  /** A rule line of the listing is the rule's tokens behind "-A" and "POSTROUTING", joined by spaces. */
  lemma ListedJoin(rule: seq<string>)
    requires |rule| > 0
    ensures Join(["-A", "POSTROUTING"] + rule, " ") == RuleLine("POSTROUTING", rule)
  {
    JoinTwoFirst("-A", "POSTROUTING", rule, " ");
    assert "-A" + " " == "-A ";
  }

  /** The jump rule AddRule puts in POSTROUTING names the per-name chain. */
  lemma JumpMentions(name: string, source: string)
    ensures Mentions(RenderRule(JumpRule(name, source)), name)
  {
    var c := PostroutingChain(name);
    var rule := RenderRule(JumpRule(name, source));
    assert rule == Pair("-s", source) + ["-j", c];
    JoinEndsWith(rule, " ");
    var line := RuleLine("POSTROUTING", rule);
    assert line[|line| - |c|..] == c;
    ContainsAt(line, c, |line| - |c|);
  }

  /** What PurgeChain reads from a listing line: the rule's tokens, and whether the rule mentions the per-name chain. */
  predicate ListedAs(line: string, rule: seq<string>, name: string)
  {
    && |Split(line, ' ')| >= 2 && Split(line, ' ')[2..] == rule
    && (Contains(line, PostroutingChain(name)) <==> Mentions(rule, name))
  }

  /** The listing line of rule j reads back as rule j. */
  lemma ListedLine(rules: seq<seq<string>>, j: nat, name: string)
    requires j < |rules| && Tokenized(rules)
    ensures ListedAs(Listing("POSTROUTING", rules)[j + 1], rules[j], name)
  {
    ListingRule(rules, j);
    ListedTokens(rules[j]);
  }

  /** One rule line of the listing: a mentioning rule, the first such in POSTROUTING, is deleted; any other stays. */
  lemma PurgeRuleLine(m: map<string, seq<seq<string>>>, u: seq<seq<string>>, rule: seq<string>,
                      rest: seq<seq<string>>, line: string, name: string)
    requires "POSTROUTING" in m && m["POSTROUTING"] == u + ([rule] + rest)
    requires |Split(line, ' ')| >= 2 && Split(line, ' ')[2..] == rule
    requires Contains(line, PostroutingChain(name)) <==> Mentions(rule, name)
    requires forall t :: t in u ==> !Mentions(t, name)
    ensures var r := PurgeStep(m, line, name);
      "POSTROUTING" in r
      && r["POSTROUTING"] == (u + (if Contains(line, PostroutingChain(name)) then [] else [rule])) + rest
  {
    assert |PostroutingChain(name)| > |"POSTROUTING"|;
    if Contains(line, PostroutingChain(name)) {
      assert rule !in u;
      RemoveFirstAfter(u, [rule] + rest, rule);
      assert u + [] == u;
    } else {
      assert u + ([rule] + rest) == (u + [rule]) + rest;
    }
  }

  /** The policy line heads the listing and deletes nothing. */
  lemma PurgedHeader(chains: map<string, seq<seq<string>>>, name: string)
    requires "POSTROUTING" in chains
    ensures Purged(chains, Listing("POSTROUTING", chains["POSTROUTING"])[..1], name) == chains
  {
    var lines := Listing("POSTROUTING", chains["POSTROUTING"]);
    assert lines[..1][..0] == [] && lines[..1][0] == lines[0];
    ListingHeader(chains["POSTROUTING"]);
    HeaderNeverMatches(name);
  }

  /** One more rule line: the purge so far extends by that rule's line. */
  lemma PurgedNext(chains: map<string, seq<seq<string>>>, lines: seq<string>, rules: seq<seq<string>>, name: string, i: nat)
    requires 0 < i <= |rules| && |lines| == |rules| + 1
    requires var m := Purged(chains, lines[..i], name);
      "POSTROUTING" in m && m["POSTROUTING"] == Unmentioned(rules[..i - 1], name) + rules[i - 1..]
    requires ListedAs(lines[i], rules[i - 1], name)
    ensures var r := Purged(chains, lines[..i + 1], name);
      "POSTROUTING" in r && r["POSTROUTING"] == Unmentioned(rules[..i], name) + rules[i..]
  {
    var j := i - 1;
    var m := Purged(chains, lines[..i], name);
    assert lines[..i + 1][..i] == lines[..i] && lines[..i + 1][i] == lines[i];
    assert Purged(chains, lines[..i + 1], name) == PurgeStep(m, lines[i], name);
    assert rules[j..] == [rules[j]] + rules[i..];
    PurgeRuleLine(m, Unmentioned(rules[..j], name), rules[j], rules[i..], lines[i], name);
    UnmentionedSnoc(rules, j, name);
  }

  lemma UnmentionedSnoc(rules: seq<seq<string>>, j: nat, name: string)
    requires j < |rules|
    ensures Unmentioned(rules[..j + 1], name)
      == Unmentioned(rules[..j], name) + (if Mentions(rules[j], name) then [] else [rules[j]])
  {
    assert rules[..j + 1][..j] == rules[..j] && rules[..j + 1][j] == rules[j];
  }

  /** After the header and the first i rule lines, PurgeChain has deleted the mentioning rules among the first i. */
  lemma {:induction false} PurgedPrefix(chains: map<string, seq<seq<string>>>, lines: seq<string>, name: string, i: nat)
    requires "POSTROUTING" in chains
    requires |lines| == |chains["POSTROUTING"]| + 1 && i <= |chains["POSTROUTING"]|
    requires Purged(chains, lines[..1], name) == chains
    requires forall j :: 0 <= j < |chains["POSTROUTING"]| ==> ListedAs(lines[j + 1], chains["POSTROUTING"][j], name)
    ensures var rules := chains["POSTROUTING"];
      var r := Purged(chains, lines[..i + 1], name);
      "POSTROUTING" in r && r["POSTROUTING"] == Unmentioned(rules[..i], name) + rules[i..]
  {
    var rules := chains["POSTROUTING"];
    if i == 0 {
      assert rules[..0] == [] && rules[0..] == rules;
    } else {
      PurgedPrefix(chains, lines, name, i - 1);
      assert ListedAs(lines[i - 1 + 1], rules[i - 1], name);
      PurgedNext(chains, lines, rules, name, i);
    }
  }

  lemma {:induction false} PurgedOthers(chains: map<string, seq<seq<string>>>, lines: seq<string>, name: string, k: string)
    requires k in chains && k != "POSTROUTING" && k != PostroutingChain(name)
    ensures k in Purged(chains, lines, name) && Purged(chains, lines, name)[k] == chains[k]
  {
    if |lines| > 0 {
      PurgedOthers(chains, lines[..|lines| - 1], name, k);
    }
  }

  /**
   * When Split reads every POSTROUTING rule back from its listing line,
   * PurgeChain leaves in POSTROUTING exactly the rules that do not mention
   * the per-name chain, in order, and every other chain but the per-name one
   * as it was.
   */
  lemma PurgeLeavesUnmentioned(chains: map<string, seq<seq<string>>>, name: string)
    requires "POSTROUTING" in chains && Tokenized(chains["POSTROUTING"])
    ensures var r := Purged(chains, Listing("POSTROUTING", chains["POSTROUTING"]), name);
      && "POSTROUTING" in r && r["POSTROUTING"] == Unmentioned(chains["POSTROUTING"], name)
      && forall k :: k in chains && k != "POSTROUTING" && k != PostroutingChain(name) ==> k in r && r[k] == chains[k]
  {
    var rules := chains["POSTROUTING"];
    var lines := Listing("POSTROUTING", rules);
    PurgedHeader(chains, name);
    forall j | 0 <= j < |rules| ensures ListedAs(lines[j + 1], rules[j], name) {
      ListedLine(rules, j, name);
    }
    PurgedPrefix(chains, lines, name, |rules|);
    assert lines[..|rules| + 1] == lines;
    assert rules[..|rules|] == rules && rules[|rules|..] == [];
    assert Unmentioned(rules, name) + [] == Unmentioned(rules, name);
    forall k | k in chains && k != "POSTROUTING" && k != PostroutingChain(name)
      ensures k in Purged(chains, lines, name) && Purged(chains, lines, name)[k] == chains[k]
    {
      PurgedOthers(chains, lines, name, k);
    }
  }

  /** Deleting the masquerade removes the jump rule from POSTROUTING. */
  lemma PurgeRemovesJump(chains: map<string, seq<seq<string>>>, name: string, source: string)
    requires "POSTROUTING" in chains && Tokenized(chains["POSTROUTING"])
    ensures var r := Purged(chains, Listing("POSTROUTING", chains["POSTROUTING"]), name);
      "POSTROUTING" in r && RenderRule(JumpRule(name, source)) !in r["POSTROUTING"]
  {
    PurgeLeavesUnmentioned(chains, name);
    JumpMentions(name, source);
  }

  /** The policy line of the POSTROUTING listing never names a per-name chain. */
  lemma HeaderNeverMatches(name: string)
    ensures !Contains("-P POSTROUTING ACCEPT", PostroutingChain(name))
  {
    var header := "-P POSTROUTING ACCEPT";
    forall j | 0 <= j < |header| - 2 && header[j] == '-' ensures header[j + 2] != 'O' {
      assert j == 0;
    }
    NoChainName(header, name);
  }

  lemma {:induction false} PurgedUnmentioned(chains: map<string, seq<seq<string>>>, lines: seq<string>, name: string)
    requires forall k :: 0 <= k < |lines| ==> !Contains(lines[k], PostroutingChain(name))
    ensures Purged(chains, lines, name) == chains
  {
    if |lines| > 0 {
      PurgedUnmentioned(chains, lines[..|lines| - 1], name);
    }
  }

  lemma ListingLine(rules: seq<seq<string>>, name: string, k: nat)
    requires k < |rules| + 1
    requires forall r :: r in rules ==> !Mentions(r, name)
    ensures !Contains(Listing("POSTROUTING", rules)[k], PostroutingChain(name))
  {
    if k == 0 {
      ListingHeader(rules);
      HeaderNeverMatches(name);
    } else {
      assert rules[k - 1] in rules;
      UnmentionedLine(rules, k - 1, name);
    }
  }

  lemma UnmentionedLine(rules: seq<seq<string>>, i: nat, name: string)
    requires i < |rules| && !Mentions(rules[i], name)
    ensures !Contains(Listing("POSTROUTING", rules)[i + 1], PostroutingChain(name))
  {
    ListingRule(rules, i);
  }

  lemma ListingHeader(rules: seq<seq<string>>)
    ensures Listing("POSTROUTING", rules)[0] == "-P POSTROUTING ACCEPT"
  {
    assert ("-P " + "POSTROUTING" + " ACCEPT") == "-P POSTROUTING ACCEPT";
  }

  lemma ListingRule(rules: seq<seq<string>>, i: nat)
    requires i < |rules|
    ensures Listing("POSTROUTING", rules)[i + 1] == RuleLine("POSTROUTING", rules[i])
  {
    assert Listing("POSTROUTING", rules)[i + 1] == RuleLines("POSTROUTING", rules)[i];
  }

  /** PurgeChain changes nothing when no POSTROUTING rule mentions the per-name chain. */
  lemma PurgeNoMention(chains: map<string, seq<seq<string>>>, name: string)
    requires "POSTROUTING" in chains
    requires forall r :: r in chains["POSTROUTING"] ==> !Mentions(r, name)
    ensures Purged(chains, Listing("POSTROUTING", chains["POSTROUTING"]), name) == chains
  {
    var lines := Listing("POSTROUTING", chains["POSTROUTING"]);
    forall k | 0 <= k < |lines| ensures !Contains(lines[k], PostroutingChain(name)) {
      ListingLine(chains["POSTROUTING"], name, k);
    }
    PurgedUnmentioned(chains, lines, name);
  }

  /** Once a listing line mentions the per-name chain, that chain is gone. */
  lemma {:induction false} PurgeDropsChain(chains: map<string, seq<seq<string>>>, lines: seq<string>, name: string, k: nat)
    requires k < |lines| && Contains(lines[k], PostroutingChain(name)) && |Split(lines[k], ' ')| >= 2
    ensures PostroutingChain(name) !in Purged(chains, lines, name)
  {
    var p := lines[..|lines| - 1];
    if k < |lines| - 1 {
      assert p[k] == lines[k];
      PurgeDropsChain(chains, p, name, k);
    }
  }
}
