/** Choosing the mail rules that apply to a message. */
module MailRules {
  import opened Text
  import opened Ordering

  datatype MatchMode = All | Any

  datatype Condition =
    | Sender(address: string)
    | SenderDomain(domain: string)
    | Recipient(address: string)
    | SubjectContains(text: string)
    | BodyContains(text: string)
    | HasAttachments(flag: bool)
    | Unread(flag: bool)
    | Flagged(flag: bool)
    | MailboxRole(role: string)
    | Label(text: string)

  datatype Action =
    | AddLabel(tag: string)
    | RemoveLabel(tag: string)
    | MarkRead(on: bool)
    | Flag(on: bool)
    | Mute(on: bool)
    | Archive

  datatype Rule = Rule(
    id: string, createdAt: string, name: string, enabled: bool, priority: nat, accountIds: seq<string>,
    mode: MatchMode, conditions: seq<Condition>, actions: seq<Action>, stop: bool)

  /** A message with the account it belongs to; the fields the conditions look at stay behind `Env.holds`. */
  datatype Message = Message(id: string, accountId: string)

  /** Field comparison and address syntax. */
  datatype Env = Env(holds: (Condition, Message) -> bool, validAddress: string -> bool)

  // ---- Validation ----

  predicate Control(c: char) {
    c < ' ' || '\U{7F}' <= c <= '\U{9F}'
  }

  function Utf16Len(s: string): nat
    decreases |s|
  {
    if s == "" then 0 else (if s[0] < '\U{10000}' then 1 else 2) + Utf16Len(s[1..])
  }

  predicate ValidText(value: string, maximum: nat) {
    Trim(value) != "" && Utf16Len(value) <= maximum && forall i :: 0 <= i < |value| ==> !Control(value[i])
  }

  predicate ValidLabel(part: string) {
    && part != "" && Utf8Len(part) <= 63 && part[0] != '-' && part[|part| - 1] != '-'
    && forall i :: 0 <= i < |part| ==> AsciiAlnum(part[i]) || part[i] == '-'
  }

  /** Every part between dots is a valid host label. */
  predicate ValidLabels(domain: string)
    decreases |domain|
  {
    var i := Find(domain, '.');
    if i == |domain| then ValidLabel(domain) else ValidLabel(domain[..i]) && ValidLabels(domain[i + 1..])
  }

  predicate ValidCondition(env: Env, c: Condition) {
    match c
    case Sender(a) => env.validAddress(a)
    case Recipient(a) => env.validAddress(a)
    case SenderDomain(d) => ValidText(d, 253) && '.' in d && ValidLabels(d)
    case SubjectContains(t) => ValidText(t, 200)
    case BodyContains(t) => ValidText(t, 200)
    case Label(t) => ValidText(t, 80)
    case MailboxRole(r) => r in {"inbox", "sent", "archive", "drafts", "trash", "junk", "custom"}
    case _ => true
  }

  predicate ValidAction(rule: Rule, i: nat)
    requires i < |rule.actions|
  {
    match rule.actions[i]
    case AddLabel(l) => ValidText(l, 80)
    case RemoveLabel(l) => ValidText(l, 80)
    case Archive => i + 1 == |rule.actions|
    case _ => true
  }

  predicate Valid(env: Env, rule: Rule) {
    && ValidText(rule.name, 80) && rule.priority <= 10000
    && |rule.accountIds| <= 100 && (forall i :: 0 <= i < |rule.accountIds| ==> ValidText(rule.accountIds[i], 200))
    && 1 <= |rule.conditions| <= 20 && 1 <= |rule.actions| <= 20
    && (forall i :: 0 <= i < |rule.conditions| ==> ValidCondition(env, rule.conditions[i]))
    && (forall i :: 0 <= i < |rule.actions| ==> ValidAction(rule, i))
  }

  /** `MailRuleInput::validate`, condition by condition and action by action. */
  method Validate(env: Env, rule: Rule) returns (ok: bool)
    ensures ok <==> Valid(env, rule)
  {
    if !ValidText(rule.name, 80) || rule.priority > 10000 {
      return false;
    }
    if |rule.accountIds| > 100 || (exists i :: 0 <= i < |rule.accountIds| && !ValidText(rule.accountIds[i], 200))
       || !(1 <= |rule.conditions| <= 20) || !(1 <= |rule.actions| <= 20) {
      return false;
    }
    for i := 0 to |rule.conditions|
      invariant forall j :: 0 <= j < i ==> ValidCondition(env, rule.conditions[j])
    {
      if !ValidCondition(env, rule.conditions[i]) {
        return false;
      }
    }
    for i := 0 to |rule.actions|
      invariant forall j :: 0 <= j < i ==> ValidAction(rule, j)
    {
      if !ValidAction(rule, i) {
        return false;
      }
    }
    ok := true;
  }

  /** `MailRuleInput::matches`. */
  predicate Matches(env: Env, rule: Rule, m: Message) {
    && (rule.accountIds == [] || m.accountId in rule.accountIds)
    && Valid(env, rule)
    && match rule.mode
       case All => forall i :: 0 <= i < |rule.conditions| ==> env.holds(rule.conditions[i], m)
       case Any => exists i :: 0 <= i < |rule.conditions| && env.holds(rule.conditions[i], m)
  }

  // ---- The order of rules ----

  /** `a` runs before `b`: by priority, then creation, then id. */
  predicate Before(a: Rule, b: Rule) {
    || a.priority < b.priority
    || (a.priority == b.priority && (Less(a.createdAt, b.createdAt) || (a.createdAt == b.createdAt && Less(a.id, b.id))))
  }

  lemma BeforeTransitive(a: Rule, b: Rule, c: Rule)
    requires Before(a, b) && Before(b, c)
    ensures Before(a, c)
  {
    if a.priority == b.priority == c.priority {
      if Less(a.createdAt, b.createdAt) && Less(b.createdAt, c.createdAt) {
        LessTransitive(a.createdAt, b.createdAt, c.createdAt);
      } else if a.createdAt == b.createdAt == c.createdAt {
        LessTransitive(a.id, b.id, c.id);
      }
    }
  }

  /** Exactly one of two rules with different ids runs first. */
  lemma BeforeTotal(a: Rule, b: Rule)
    ensures Before(a, b) || Before(b, a) || a.id == b.id
    ensures !(Before(a, b) && Before(b, a))
    ensures !Before(a, b) && !Before(b, a) ==>
      a.priority == b.priority && a.createdAt == b.createdAt && a.id == b.id
  {
    LessTotal(a.createdAt, b.createdAt);
    LessTotal(a.id, b.id);
  }

  lemma BeforeIsWeakOrder()
    ensures WeakOrder(Before)
  {
    forall x, y
      ensures Before(x, y) ==> !Before(y, x)
    {
      BeforeTotal(x, y);
    }
    forall x, y, z | !Before(y, x) && !Before(z, y)
      ensures !Before(z, x)
    {
      NotAfterStep(x, y, z);
    }
  }

  lemma NotAfterStep(x: Rule, y: Rule, z: Rule)
    requires !Before(y, x) && !Before(z, y)
    ensures !Before(z, x)
  {
    BeforeTotal(x, y);
    BeforeTotal(y, z);
    if Before(z, x) {
      if Before(x, y) {
        BeforeTransitive(z, x, y);
      } else if Before(y, z) {
        BeforeTransitive(y, z, x);
      }
    }
  }

  // ---- matching_rules ----

  function EnabledOnly(rules: seq<Rule>): seq<Rule>
    decreases |rules|
  {
    if rules == [] then []
    else (if rules[0].enabled then [rules[0]] else []) + EnabledOnly(rules[1..])
  }

  /** The matching rules of an ordered list, up to and including the first that stops. */
  function Selected(env: Env, ordered: seq<Rule>, m: Message): seq<Rule>
    decreases |ordered|
  {
    if ordered == [] then []
    else if !Matches(env, ordered[0], m) then Selected(env, ordered[1..], m)
    else if ordered[0].stop then [ordered[0]]
    else [ordered[0]] + Selected(env, ordered[1..], m)
  }

  function Matching(env: Env, rules: seq<Rule>, m: Message): seq<Rule> {
    Selected(env, SortBy(NotAfter(Before), EnabledOnly(rules)), m)
  }

  method MatchingRules(env: Env, rules: seq<Rule>, m: Message) returns (matched: seq<Rule>)
    ensures matched == Matching(env, rules, m)
  {
    var ordered := SortBy(NotAfter(Before), EnabledOnly(rules));
    matched := [];
    for i := 0 to |ordered|
      invariant matched + Selected(env, ordered[i..], m) == Selected(env, ordered, m)
    {
      var rule := ordered[i];
      assert ordered[i..][0] == rule && ordered[i..][1..] == ordered[i + 1..];
      if Matches(env, rule, m) {
        matched := matched + [rule];
        if rule.stop {
          return;
        }
      }
    }
    assert matched + [] == matched;
  }

  // ---- What the selection is, said without sorting ----

  /** `rule` is chosen: enabled, matching, and no enabled matching rule before it stops. */
  ghost predicate Chosen(env: Env, rules: seq<Rule>, m: Message, rule: Rule) {
    && rule in rules && rule.enabled && Matches(env, rule, m)
    && forall s :: s in rules && s.enabled && s.stop && Matches(env, s, m) ==> !Before(s, rule)
  }

  ghost predicate DistinctIds(rules: seq<Rule>) {
    forall i, j :: 0 <= i < j < |rules| ==> rules[i].id != rules[j].id
  }

  lemma {:induction false} EnabledMembers(rules: seq<Rule>)
    ensures forall r :: r in EnabledOnly(rules) <==> r in rules && r.enabled
    decreases |rules|
  {
    if rules == [] {
    } else {
      EnabledMembers(rules[1..]);
    }
  }

  lemma {:induction false} EnabledDistinct(rules: seq<Rule>)
    requires DistinctIds(rules)
    ensures DistinctIds(EnabledOnly(rules))
    decreases |rules|
  {
    if rules == [] {
    } else {
      EnabledDistinct(rules[1..]);
      EnabledMembers(rules[1..]);
      var rest := EnabledOnly(rules[1..]);
      forall k | 0 <= k < |rest|
        ensures rest[k].id != rules[0].id
      {
        assert rest[k] in rest;
      }
    }
  }

  lemma RulesInOrder(rules: seq<Rule>)
    requires DistinctIds(rules)
    ensures var s := SortBy(NotAfter(Before), rules); InOrder(Before, s) && multiset(s) == multiset(rules)
  {
    BeforeIsWeakOrder();
    assert Distinct(rules);
    forall a, b | a in rules && b in rules && a != b
      ensures Before(a, b) || Before(b, a)
    {
      BeforeTotal(a, b);
    }
    SortInOrder(Before, rules);
  }

  lemma {:induction false} SelectedInOrder(env: Env, ordered: seq<Rule>, m: Message)
    requires InOrder(Before, ordered)
    ensures InOrder(Before, Selected(env, ordered, m))
    ensures forall r :: r in Selected(env, ordered, m) ==> r in ordered
    decreases |ordered|
  {
    if ordered == [] {
    } else {
      SelectedInOrder(env, ordered[1..], m);
      var rest := Selected(env, ordered[1..], m);
      forall k | 0 <= k < |rest|
        ensures Before(ordered[0], rest[k])
      {
        assert rest[k] in rest && rest[k] in ordered[1..];
      }
    }
  }

  /** In an ordered list, a rule is selected exactly when it matches and nothing that stops comes before it. */
  lemma {:induction false} SelectedMembers(env: Env, ordered: seq<Rule>, m: Message, rule: Rule)
    requires InOrder(Before, ordered)
    ensures rule in Selected(env, ordered, m) <==>
      && rule in ordered && Matches(env, rule, m)
      && forall s :: s in ordered && s.stop && Matches(env, s, m) ==> !Before(s, rule)
    decreases |ordered|
  {
    if ordered == [] {
    } else {
      var head, rest := ordered[0], ordered[1..];
      SelectedMembers(env, rest, m, rule);
      forall r | r in rest
        ensures Before(head, r) && !Before(r, head)
      {
        var k :| 0 <= k < |rest| && rest[k] == r;
        assert Before(ordered[0], ordered[k + 1]);
        BeforeTotal(head, r);
      }
      BeforeTotal(head, head);
    }
  }

  lemma MatchingMembers(env: Env, rules: seq<Rule>, m: Message)
    requires DistinctIds(rules)
    ensures InOrder(Before, Matching(env, rules, m))
    ensures forall r :: r in Matching(env, rules, m) <==> Chosen(env, rules, m, r)
  {
    var enabled := EnabledOnly(rules);
    var ordered := SortBy(NotAfter(Before), enabled);
    EnabledDistinct(rules);
    EnabledMembers(rules);
    RulesInOrder(enabled);
    SelectedInOrder(env, ordered, m);
    forall r
      ensures r in Matching(env, rules, m) <==> Chosen(env, rules, m, r)
    {
      SelectedMembers(env, ordered, m, r);
      SameMembers(ordered, enabled);
    }
  }

  /** The order in which the rules are stored does not matter. */
  lemma PermutationIrrelevant(env: Env, rules: seq<Rule>, rules': seq<Rule>, m: Message)
    requires DistinctIds(rules) && DistinctIds(rules') && multiset(rules) == multiset(rules')
    ensures Matching(env, rules, m) == Matching(env, rules', m)
  {
    SameMembers(rules, rules');
    MatchingMembers(env, rules, m);
    MatchingMembers(env, rules', m);
    BeforeIsWeakOrder();
    InOrderUnique(Before, Matching(env, rules, m), Matching(env, rules', m));
  }

  /** Nothing that runs after a matching rule that stops has any influence. */
  lemma AfterStopIrrelevant(env: Env, rules: seq<Rule>, rules': seq<Rule>, m: Message, last: Rule)
    requires DistinctIds(rules) && DistinctIds(rules')
    requires last in rules && last in rules' && last.enabled && last.stop && Matches(env, last, m)
    requires forall r :: !Before(last, r) ==> (r in rules <==> r in rules')
    ensures Matching(env, rules, m) == Matching(env, rules', m)
  {
    MatchingMembers(env, rules, m);
    MatchingMembers(env, rules', m);
    forall r
      ensures Chosen(env, rules, m, r) <==> Chosen(env, rules', m, r)
    {
      if !Before(last, r) {
        forall s | Before(s, r)
          ensures !Before(last, s)
        {
          if Before(last, s) {
            BeforeTransitive(last, s, r);
          }
        }
      }
    }
    BeforeIsWeakOrder();
    InOrderUnique(Before, Matching(env, rules, m), Matching(env, rules', m));
  }

  // ---- What one rule asks for ----

  predicate InScope(rule: Rule, m: Message) {
    rule.accountIds == [] || m.accountId in rule.accountIds
  }

  /** One more condition narrows a rule that wants all of them and widens a rule that wants any. */
  lemma OneMoreCondition(env: Env, rule: Rule, c: Condition, m: Message)
    requires Valid(env, rule) && Valid(env, rule.(conditions := rule.conditions + [c])) && InScope(rule, m)
    ensures var longer := rule.(conditions := rule.conditions + [c]);
      && (rule.mode.All? ==> (Matches(env, longer, m) <==> Matches(env, rule, m) && env.holds(c, m)))
      && (rule.mode.Any? ==> (Matches(env, longer, m) <==> Matches(env, rule, m) || env.holds(c, m)))
  {
    var longer := rule.conditions + [c];
    assert longer[|rule.conditions|] == c && forall i :: 0 <= i < |rule.conditions| ==> longer[i] == rule.conditions[i];
    if i :| 0 <= i < |longer| && env.holds(longer[i], m) {
      assert i < |rule.conditions| ==> env.holds(rule.conditions[i], m);
    }
  }

  lemma OneCondition(env: Env, rule: Rule, m: Message)
    requires Valid(env, rule) && InScope(rule, m) && |rule.conditions| == 1
    ensures Matches(env, rule, m) <==> env.holds(rule.conditions[0], m)
  {
  }

  /** A rule never matches outside its accounts; inside, which accounts it names makes no difference. */
  lemma ScopeExactly(env: Env, rule: Rule, m: Message, accounts: seq<string>)
    requires Valid(env, rule) && Valid(env, rule.(accountIds := accounts))
    ensures !InScope(rule, m) ==> !Matches(env, rule, m)
    ensures InScope(rule, m) && InScope(rule.(accountIds := accounts), m) ==>
      (Matches(env, rule, m) <==> Matches(env, rule.(accountIds := accounts), m))
  {
  }

  /** In the result a smaller priority number comes first, then the earlier creation, then the smaller id. */
  lemma ResultOrder(env: Env, rules: seq<Rule>, m: Message, i: nat, j: nat)
    requires DistinctIds(rules) && i < j < |Matching(env, rules, m)|
    ensures var a, b := Matching(env, rules, m)[i], Matching(env, rules, m)[j];
      && a.priority <= b.priority
      && (a.priority == b.priority ==> a.createdAt == b.createdAt || exists k :: Precedes(a.createdAt, b.createdAt, k))
      && (a.priority == b.priority && a.createdAt == b.createdAt ==> exists k :: Precedes(a.id, b.id, k))
  {
    var a, b := Matching(env, rules, m)[i], Matching(env, rules, m)[j];
    MatchingMembers(env, rules, m);
    assert Before(a, b);
    LessExactly(a.createdAt, b.createdAt);
    LessExactly(a.id, b.id);
    LessTotal(a.createdAt, a.createdAt);
  }
}
