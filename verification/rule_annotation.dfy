/** The pass the Apex target runs after grammar analysis: every rule's
    generated method must declare that it throws RecognitionException. */
module RuleAnnotation {
  import opened Wrappers

  const RecognitionException: string := "RecognitionException"

  /** A grammar rule with the exception types its generated method declares. */
  datatype Rule = Rule(name: string, throwsSpec: set<string>)

  /** The rules analysis produced: the grammar's own rules and, when the
      grammar imports others, the rules delegated to them (`None` is a null
      collection). */
  datatype Grammar = Grammar(rules: seq<Rule>, delegatedRules: Option<seq<Rule>>)

  /** The rule declares RecognitionException. */
  predicate Declares(rule: Rule) {
    RecognitionException in rule.throwsSpec
  }

  /** `after` is `before` with at most RecognitionException added to its
      throws set: same name, no declaration lost, nothing else added. */
  predicate Extends(before: Rule, after: Rule) {
    && after.name == before.name
    && before.throwsSpec <= after.throwsSpec
    && after.throwsSpec - before.throwsSpec <= {RecognitionException}
  }

  predicate AllDeclare(rules: seq<Rule>) {
    forall k :: 0 <= k < |rules| ==> Declares(rules[k])
  }

  predicate AllExtend(before: seq<Rule>, after: seq<Rule>) {
    |before| == |after| && forall k :: 0 <= k < |before| ==> Extends(before[k], after[k])
  }

  /** Every rule, delegated ones included, declares RecognitionException. */
  predicate Annotated(g: Grammar) {
    && AllDeclare(g.rules)
    && (g.delegatedRules.Some? ==> AllDeclare(g.delegatedRules.value))
  }

  /** `after` differs from `before` only by RecognitionException added to
      rules' throws sets; a null delegated collection stays null. */
  predicate GrammarExtends(before: Grammar, after: Grammar) {
    && AllExtend(before.rules, after.rules)
    && (before.delegatedRules.None? <==> after.delegatedRules.None?)
    && (before.delegatedRules.Some? && after.delegatedRules.Some? ==>
          AllExtend(before.delegatedRules.value, after.delegatedRules.value))
  }

  /** The body of the loop: add the exception to one rule's throws set. */
  function DeclareThrows(rule: Rule): Rule {
    rule.(throwsSpec := rule.throwsSpec + {RecognitionException})
  }

  /** One loop over a rule collection, rule by rule. Afterwards every rule
      declares the exception and no rule changed otherwise. */
  function AnnotateRules(rules: seq<Rule>): (r: seq<Rule>)
    ensures AllDeclare(r)
    ensures AllExtend(rules, r)
    decreases |rules|
  {
    if |rules| == 0 then []
    else [DeclareThrows(rules[0])] + AnnotateRules(rules[1..])
  }

  /** The annotation pass: the grammar's rules, then the delegated rules
      when that collection is not null. */
  function PerformGrammarAnalysis(g: Grammar): (r: Grammar)
    ensures Annotated(r)
    ensures GrammarExtends(g, r)
  {
    var delegated := match g.delegatedRules
      case None => None
      case Some(rules) => Some(AnnotateRules(rules));
    Grammar(AnnotateRules(g.rules), delegated)
  }

  /** A collection in which every rule already declares the exception is
      left exactly as it is; and only such a collection is. */
  lemma {:induction false} AnnotateRulesFixed(rules: seq<Rule>)
    ensures AnnotateRules(rules) == rules <==> AllDeclare(rules)
    decreases |rules|
  {
    if |rules| > 0 {
      AnnotateRulesFixed(rules[1..]);
      var head := rules[0];
      if AllDeclare(rules) {
        assert AllDeclare(rules[1..]) by {
          forall k | 0 <= k < |rules[1..]|
            ensures Declares(rules[1..][k])
          {
            assert rules[1..][k] == rules[k + 1];
          }
        }
        assert head.throwsSpec + {RecognitionException} == head.throwsSpec;
        assert DeclareThrows(head) == head;
        assert rules == [head] + rules[1..];
      }
    }
  }

  /** Running the pass twice gives what running it once gives. */
  lemma PerformGrammarAnalysisIdempotent(g: Grammar)
    ensures PerformGrammarAnalysis(PerformGrammarAnalysis(g)) == PerformGrammarAnalysis(g)
  {
    var once := PerformGrammarAnalysis(g);
    AnnotateRulesFixed(once.rules);
    if once.delegatedRules.Some? {
      AnnotateRulesFixed(once.delegatedRules.value);
    }
  }

  /** The pass changes a grammar exactly when some rule, own or delegated,
      does not yet declare the exception. */
  lemma PerformGrammarAnalysisFixedIffAnnotated(g: Grammar)
    ensures PerformGrammarAnalysis(g) == g <==> Annotated(g)
  {
    AnnotateRulesFixed(g.rules);
    if g.delegatedRules.Some? {
      AnnotateRulesFixed(g.delegatedRules.value);
    }
  }

  lemma ExtendsAndDeclaresIsDeclareThrows(before: Rule, after: Rule)
    requires Extends(before, after) && Declares(after)
    ensures after == DeclareThrows(before)
  {
    assert after.throwsSpec == before.throwsSpec + {RecognitionException};
  }

  /** The pass's contract pins its result down: the only grammar that
      differs from `g` by added RecognitionException declarations and in
      which every rule declares it is the pass's result. */
  lemma PerformGrammarAnalysisUnique(g: Grammar, h: Grammar)
    requires GrammarExtends(g, h) && Annotated(h)
    ensures h == PerformGrammarAnalysis(g)
  {
    AnnotateRulesUnique(g.rules, h.rules);
    if g.delegatedRules.Some? {
      AnnotateRulesUnique(g.delegatedRules.value, h.delegatedRules.value);
    }
  }

  lemma AnnotateRulesUnique(before: seq<Rule>, after: seq<Rule>)
    requires AllExtend(before, after) && AllDeclare(after)
    ensures after == AnnotateRules(before)
  {
    var r := AnnotateRules(before);
    forall k | 0 <= k < |after|
      ensures after[k] == r[k]
    {
      ExtendsAndDeclaresIsDeclareThrows(before[k], after[k]);
      ExtendsAndDeclaresIsDeclareThrows(before[k], r[k]);
    }
  }
}
