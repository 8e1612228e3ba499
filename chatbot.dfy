/**
 The rule-based farming-question responder. The question is lower-cased, then
 tested against an ordered list of rules; each rule has one or two trigger
 phrases and a canned reply, and the first rule with a trigger occurring in the
 question decides the reply. When no rule fires, a fixed fallback reply is given.
 */
module Chatbot {
  import opened Strings

  /** One `if`/`elif` arm: the phrases it tests for and the reply it gives. */
  datatype Rule = Rule(triggers: seq<string>, reply: string)

  const Fallback := "Sorry, I can only answer crop-related queries. Please ask about crops or soil."
  const HumidReply := "Rice and sugarcane are suitable for high rainfall and humid conditions."
  const DryReply := "Cotton, millet, and pulses grow well in dry or low rainfall areas."
  const AcidicReply := "Tea prefers acidic soil conditions."
  const NeutralReply := "Wheat, maize, and rice grow well in neutral soil."
  const HotReply := "Millet, cotton, and maize prefer hot climates."
  const GreetingReply := "Hello Sir, Tell Me Your Query."
  const IdentityReply := "GrowWise, It is an AI-powered Crop Advisiory System."
  const AuthorReply := "GrowWise is Developed By Vansh Nagpal in 2025."
  const UsefulReply := "Yes, It is."

  /** The rules in the order the responder tries them. */
  const Rules: seq<Rule> := [
    Rule(["high rainfall", "humid"], HumidReply),
    Rule(["dry", "low rainfall"], DryReply),
    Rule(["acidic soil", "ph < 6"], AcidicReply),
    Rule(["neutral soil", "ph 6-7"], NeutralReply),
    Rule(["high temperature", "hot"], HotReply),
    Rule(["hi", "hello"], GreetingReply),
    Rule(["what is this", "growwise"], IdentityReply),
    Rule(["who made you", "name the developer"], AuthorReply),
    Rule(["is it useful", "is it practical to use"], UsefulReply)
  ]

  /** Every reply the responder can give. */
  const Replies: set<string> := {
    Fallback, HumidReply, DryReply, AcidicReply, NeutralReply, HotReply,
    GreetingReply, IdentityReply, AuthorReply, UsefulReply
  }

  /** A rule fires on a query when one of its trigger phrases occurs in it. */
  predicate Fires(rule: Rule, query: string) {
    exists i :: 0 <= i < |rule.triggers| && Contains(query, rule.triggers[i])
  }

  /** For a rule with two triggers, firing is the `or` of the two tests. */
  lemma FiresPair(rule: Rule, query: string)
    requires |rule.triggers| == 2
    ensures Fires(rule, query) <==>
      Contains(query, rule.triggers[0]) || Contains(query, rule.triggers[1])
  {
  }

  /** The position of the first rule that fires, or `|rules|` when none does. */
  function FirstMatch(rules: seq<Rule>, query: string): (k: nat)
    ensures k <= |rules|
    ensures k < |rules| ==> Fires(rules[k], query)
    ensures forall j :: 0 <= j < k ==> !Fires(rules[j], query)
    decreases |rules|
  {
    if |rules| == 0 then 0
    else if Fires(rules[0], query) then 0
    else 1 + FirstMatch(rules[1..], query)
  }

  /** A decision list: the reply of the first rule that fires, else the fallback. */
  function Decide(rules: seq<Rule>, fallback: string, query: string): (r: string)
    ensures (forall j :: 0 <= j < |rules| ==> !Fires(rules[j], query)) ==> r == fallback
    ensures forall k ::
      (0 <= k < |rules| && Fires(rules[k], query) &&
       forall j :: 0 <= j < k ==> !Fires(rules[j], query)) ==> r == rules[k].reply
  {
    var k := FirstMatch(rules, query);
    if k < |rules| then rules[k].reply else fallback
  }

  /** The responder: lower-case the question, then run the decision list.
      Whatever the question, the reply is one of the ten fixed replies. */
  function Respond(text: string): (r: string)
    ensures r in Replies
  {
    var k := FirstMatch(Rules, Lower(text));
    assert k < |Rules| ==> Rules[k].reply in Replies by {
      if k < |Rules| {
        assert k in {0, 1, 2, 3, 4, 5, 6, 7, 8};
      }
    }
    Decide(Rules, Fallback, Lower(text))
  }

  /** The responder written as the literal `if`/`elif` chain over the
      lower-cased query, independently of the rule list. */
  function ChainReply(query: string): string {
    if Contains(query, "high rainfall") || Contains(query, "humid") then HumidReply
    else if Contains(query, "dry") || Contains(query, "low rainfall") then DryReply
    else if Contains(query, "acidic soil") || Contains(query, "ph < 6") then AcidicReply
    else if Contains(query, "neutral soil") || Contains(query, "ph 6-7") then NeutralReply
    else if Contains(query, "high temperature") || Contains(query, "hot") then HotReply
    else if Contains(query, "hi") || Contains(query, "hello") then GreetingReply
    else if Contains(query, "what is this") || Contains(query, "growwise") then IdentityReply
    else if Contains(query, "who made you") || Contains(query, "name the developer") then AuthorReply
    else if Contains(query, "is it useful") || Contains(query, "is it practical to use") then UsefulReply
    else Fallback
  }

  /** Every rule of the list has exactly two trigger phrases. */
  lemma RulesFirePairwise(query: string)
    ensures forall j :: 0 <= j < |Rules| ==>
      (Fires(Rules[j], query) <==>
       Contains(query, Rules[j].triggers[0]) || Contains(query, Rules[j].triggers[1]))
  {
  }

  /** The rule list with first-match evaluation gives the same reply as the
      `if`/`elif` chain, for every question. */
  lemma RespondIsChain(text: string)
    ensures Respond(text) == ChainReply(Lower(text))
  {
    var q := Lower(text);
    RulesFirePairwise(q);
    var k := FirstMatch(Rules, q);
    // Rule k is the first to fire; the chain skips exactly the arms before it.
    if k == 0 {
    } else if k == 1 {
      assert !Fires(Rules[0], q);
    } else if k == 2 {
      assert !Fires(Rules[0], q) && !Fires(Rules[1], q);
    } else if k == 3 {
      assert !Fires(Rules[0], q) && !Fires(Rules[1], q) && !Fires(Rules[2], q);
    } else if k == 4 {
      assert !Fires(Rules[0], q) && !Fires(Rules[1], q) && !Fires(Rules[2], q)
        && !Fires(Rules[3], q);
    } else if k == 5 {
      assert !Fires(Rules[0], q) && !Fires(Rules[1], q) && !Fires(Rules[2], q)
        && !Fires(Rules[3], q) && !Fires(Rules[4], q);
    } else if k == 6 {
      assert !Fires(Rules[0], q) && !Fires(Rules[1], q) && !Fires(Rules[2], q)
        && !Fires(Rules[3], q) && !Fires(Rules[4], q) && !Fires(Rules[5], q);
    } else if k == 7 {
      assert !Fires(Rules[0], q) && !Fires(Rules[1], q) && !Fires(Rules[2], q)
        && !Fires(Rules[3], q) && !Fires(Rules[4], q) && !Fires(Rules[5], q)
        && !Fires(Rules[6], q);
    } else if k == 8 {
      assert !Fires(Rules[0], q) && !Fires(Rules[1], q) && !Fires(Rules[2], q)
        && !Fires(Rules[3], q) && !Fires(Rules[4], q) && !Fires(Rules[5], q)
        && !Fires(Rules[6], q) && !Fires(Rules[7], q);
    } else {
      assert !Fires(Rules[0], q) && !Fires(Rules[1], q) && !Fires(Rules[2], q)
        && !Fires(Rules[3], q) && !Fires(Rules[4], q) && !Fires(Rules[5], q)
        && !Fires(Rules[6], q) && !Fires(Rules[7], q) && !Fires(Rules[8], q);
    }
  }

  /** The ten replies are pairwise different, so a reply tells which rule
      (or the fallback) produced it, and there are exactly ten of them. */
  lemma RepliesDistinct()
    ensures forall i, j :: 0 <= i < j < |Rules| ==> Rules[i].reply != Rules[j].reply
    ensures forall j :: 0 <= j < |Rules| ==> Rules[j].reply != Fallback
    ensures |Replies| == 10
  {
  }

  /** The fallback is given exactly when no trigger phrase of any rule occurs
      in the lower-cased question. */
  lemma FallbackIffNoTrigger(text: string)
    ensures Respond(text) == Fallback <==>
      forall j, i :: 0 <= j < |Rules| && 0 <= i < |Rules[j].triggers| ==>
        !Contains(Lower(text), Rules[j].triggers[i])
  {
    var q := Lower(text);
    var k := FirstMatch(Rules, q);
    RepliesDistinct();
    if k < |Rules| {
      // Rule k fires, so some trigger occurs, and its reply is not the fallback.
      assert Respond(text) == Rules[k].reply != Fallback;
      var i :| 0 <= i < |Rules[k].triggers| && Contains(q, Rules[k].triggers[i]);
    }
  }

  /** First match wins: rule `k` gives the reply exactly when it fires and no
      earlier rule does. */
  lemma FirstFiringRuleReplies(text: string, k: nat)
    requires k < |Rules|
    ensures Respond(text) == Rules[k].reply <==>
      Fires(Rules[k], Lower(text)) && forall j :: 0 <= j < k ==> !Fires(Rules[j], Lower(text))
  {
    RepliesDistinct();
  }

  /** Changing the case of letters in a question never changes its reply. */
  lemma CaseInsensitive(a: string, b: string)
    requires SameIgnoringCase(a, b)
    ensures Respond(a) == Respond(b)
  {
    LowerEqualIff(a, b);
  }

  /** In particular, shouting the question in ASCII capitals gets the same reply. */
  lemma UpperCaseQuestion(text: string)
    ensures Respond(Upper(text)) == Respond(text)
  {
    UpperSameIgnoringCase(text);
    CaseInsensitive(Upper(text), text);
  }

  /** The first rule is tried first: a question mentioning humidity or high
      rainfall gets the rice/sugarcane reply whatever else it says. */
  lemma HumidAlwaysWins(text: string)
    requires Contains(Lower(text), "humid") || Contains(Lower(text), "high rainfall")
    ensures Respond(text) == HumidReply
  {
    RespondIsChain(text);
  }

  /** "humidity" contains "humid", so it triggers the first rule too. */
  lemma HumidityAlwaysWins(text: string)
    requires Contains(Lower(text), "humidity")
    ensures Respond(text) == HumidReply
  {
    assert Contains("humidity", "humid");
    ContainsTransitive(Lower(text), "humidity", "humid");
    HumidAlwaysWins(text);
  }

  /** A dry-weather question that also contains "hi" gets the dry reply, not
      the greeting, unless the first rule fires. */
  lemma DryBeatsGreeting(text: string)
    requires Contains(Lower(text), "dry") && Contains(Lower(text), "hi")
    requires !Contains(Lower(text), "humid") && !Contains(Lower(text), "high rainfall")
    ensures Respond(text) == DryReply
  {
    RespondIsChain(text);
  }

  /** The greeting trigger occurs inside the identity trigger. */
  lemma HiInsideWhatIsThis()
    ensures Contains("what is this", "hi")
  {
    ContainsAt("what is this", "hi", 9);
  }

  /** The identity trigger "what is this" contains the greeting trigger "hi",
      which is tried earlier: a question containing "what is this" is decided
      by one of the first six rules, and gets the greeting when none of the
      first five fires. */
  lemma WhatIsThisIsShadowed(text: string)
    requires Contains(Lower(text), "what is this")
    ensures FirstMatch(Rules, Lower(text)) <= 5
    ensures Respond(text) != IdentityReply
    ensures (forall j :: 0 <= j < 5 ==> !Fires(Rules[j], Lower(text))) ==>
      Respond(text) == GreetingReply
  {
    var q := Lower(text);
    HiInsideWhatIsThis();
    ContainsTransitive(q, "what is this", "hi");
    assert Fires(Rules[5], q) by {
      assert Rules[5].triggers[0] == "hi";
    }
    var k := FirstMatch(Rules, q);
    assert k <= 5;
    assert Respond(text) == Rules[k].reply;
    assert Rules[k].reply != IdentityReply by {
      assert k in {0, 1, 2, 3, 4, 5};
    }
  }

  /** So the identity reply is only ever selected through "growwise". */
  lemma IdentityOnlyViaGrowwise(text: string)
    requires Respond(text) == IdentityReply
    ensures Contains(Lower(text), "growwise")
    ensures !Contains(Lower(text), "what is this")
  {
    if Contains(Lower(text), "what is this") {
      WhatIsThisIsShadowed(text);
    }
    FirstFiringRuleReplies(text, 6);
    FiresPair(Rules[6], Lower(text));
  }

  /** Two rule lists that fire alike on a query up to some position `m`, where
      both fire (or which both end there), pick the same first match. */
  lemma FirstMatchAgree(r1: seq<Rule>, r2: seq<Rule>, query: string, m: nat)
    requires |r1| == |r2| && m <= |r1|
    requires forall j :: 0 <= j < m ==> Fires(r1[j], query) == Fires(r2[j], query)
    requires m < |r1| ==> Fires(r1[m], query) && Fires(r2[m], query)
    ensures FirstMatch(r1, query) == FirstMatch(r2, query)
  {
  }

  /** The rule list with the dead "what is this" trigger removed. */
  const PrunedRules: seq<Rule> := Rules[6 := Rule(["growwise"], IdentityReply)]

  /** Removing the "what is this" trigger changes no reply. */
  lemma DeadTriggerRemovable(text: string)
    ensures Decide(PrunedRules, Fallback, Lower(text)) == Respond(text)
  {
    var q := Lower(text);
    assert forall j :: 0 <= j < |Rules| && j != 6 ==> PrunedRules[j] == Rules[j];
    if Contains(q, "what is this") {
      // Then "hi" occurs too, and rule 5 fires in both lists.
      HiInsideWhatIsThis();
      ContainsTransitive(q, "what is this", "hi");
      FiresPair(Rules[5], q);
      FirstMatchAgree(Rules, PrunedRules, q, 5);
    } else {
      FiresPair(Rules[6], q);
      assert Fires(PrunedRules[6], q) == Contains(q, "growwise") by {
        assert PrunedRules[6].triggers == ["growwise"];
        if Contains(q, "growwise") {
          assert Contains(q, PrunedRules[6].triggers[0]);
        }
      }
      FirstMatchAgree(Rules, PrunedRules, q, 9);
    }
  }

  /** Sample questions and their replies. */
  lemma SampleHumid()
    ensures Respond("It is very humid here") == HumidReply
  {
    var q := Lower("It is very humid here");
    assert q[11..16] == "humid";
    ContainsAt(q, "humid", 11);
    HumidAlwaysWins("It is very humid here");
  }

  lemma SampleDryAndHi(text: string)
    requires text == "dry and hi"
    ensures Respond(text) == DryReply
  {
    assert Lower(text) == text;
    TooLong(text, "high rainfall");
    Lacks(text, "humid", 'u');
    assert IsPrefix("dry", text);
    ContainsAt(text, "hi", 8);
    DryBeatsGreeting(text);
  }

  lemma SampleHello(text: string)
    requires text == "hello"
    ensures Respond(text) == GreetingReply
  {
    assert Lower(text) == text;
    assert IsPrefix(text, text);
    RespondIsChain(text);
    TooLong(text, "high rainfall");
    Lacks(text, "humid", 'u');
    Lacks(text, "dry", 'd');
    TooLong(text, "low rainfall");
    TooLong(text, "acidic soil");
    TooLong(text, "ph < 6");
    TooLong(text, "neutral soil");
    TooLong(text, "ph 6-7");
    TooLong(text, "high temperature");
    Lacks(text, "hot", 't');
  }

  lemma SampleBanana()
    ensures Respond("banana") == Fallback
  {
    assert Lower("banana") == "banana";
    forall j, i | 0 <= j < |Rules| && 0 <= i < |Rules[j].triggers|
      ensures !Contains("banana", Rules[j].triggers[i])
    {
      var t := Rules[j].triggers[i];
      assert j in {0, 1, 2, 3, 4, 5, 6, 7, 8};
      if |t| > |"banana"| {
        TooLong("banana", t);
      } else {
        assert t in {"humid", "dry", "ph < 6", "ph 6-7", "hot", "hi", "hello"};
        Lacks("banana", t, t[0]);
      }
    }
    FallbackIffNoTrigger("banana");
  }

  // One sample question for each of the remaining replies. Each sample takes
  // its question as a parameter fixed by `requires`, rather than writing the
  // literal into `Respond(...)`, and leaves the trigger facts to a separate
  // lemma: with a string literal in the same proof as `Respond`, the verifier
  // evaluates every `Contains` on the literal, and the proof becomes far
  // costlier.

  /** Rule 2 is the first rule whose trigger occurs in "acidic soil". */
  lemma SampleAcidicTriggers(text: string)
    requires text == "acidic soil"
    ensures Fires(Rules[2], text)
    ensures forall j :: 0 <= j < 2 ==> !Fires(Rules[j], text)
  {
    forall j, i | 0 <= j < 2 && 0 <= i < |Rules[j].triggers|
      ensures !Contains(text, Rules[j].triggers[i])
    {
      var t := Rules[j].triggers[i];
      assert j in {0, 1};
      if |t| > |text| {
        TooLong(text, t);
      } else if t in {"dry"} {
        Lacks(text, t, 'r');
      } else {
        assert t in {"humid"};
        Lacks(text, t, t[0]);
      }
    }
    assert IsPrefix(Rules[2].triggers[0], text);
  }

  lemma SampleAcidic(text: string)
    requires text == "acidic soil"
    ensures Respond(text) == AcidicReply
  {
    assert Lower(text) == text;
    SampleAcidicTriggers(text);
    FirstFiringRuleReplies(text, 2);
  }

  /** Rule 3 is the first rule whose trigger occurs in "neutral soil". */
  lemma SampleNeutralTriggers(text: string)
    requires text == "neutral soil"
    ensures Fires(Rules[3], text)
    ensures forall j :: 0 <= j < 3 ==> !Fires(Rules[j], text)
  {
    forall j, i | 0 <= j < 3 && 0 <= i < |Rules[j].triggers|
      ensures !Contains(text, Rules[j].triggers[i])
    {
      var t := Rules[j].triggers[i];
      assert j in {0, 1, 2};
      if |t| > |text| {
        TooLong(text, t);
      } else if t in {"low rainfall"} {
        Lacks(text, t, 'w');
      } else if t in {"acidic soil"} {
        Lacks(text, t, 'c');
      } else {
        assert t in {"humid", "dry", "ph < 6"};
        Lacks(text, t, t[0]);
      }
    }
    assert IsPrefix(Rules[3].triggers[0], text);
  }

  lemma SampleNeutral(text: string)
    requires text == "neutral soil"
    ensures Respond(text) == NeutralReply
  {
    assert Lower(text) == text;
    SampleNeutralTriggers(text);
    FirstFiringRuleReplies(text, 3);
  }

  /** Rule 4 is the first rule whose trigger occurs in "hot". */
  lemma SampleHotTriggers(text: string)
    requires text == "hot"
    ensures Fires(Rules[4], text)
    ensures forall j :: 0 <= j < 4 ==> !Fires(Rules[j], text)
  {
    forall j, i | 0 <= j < 4 && 0 <= i < |Rules[j].triggers|
      ensures !Contains(text, Rules[j].triggers[i])
    {
      var t := Rules[j].triggers[i];
      assert j in {0, 1, 2, 3};
      if |t| > |text| {
        TooLong(text, t);
      } else {
        assert t in {"dry"};
        Lacks(text, t, t[0]);
      }
    }
    assert IsPrefix(Rules[4].triggers[1], text);
  }

  lemma SampleHot(text: string)
    requires text == "hot"
    ensures Respond(text) == HotReply
  {
    assert Lower(text) == text;
    SampleHotTriggers(text);
    FirstFiringRuleReplies(text, 4);
  }

  /** Rule 6 is the first rule whose trigger occurs in "growwise". */
  lemma SampleGrowwiseTriggers(text: string)
    requires text == "growwise"
    ensures Fires(Rules[6], text)
    ensures forall j :: 0 <= j < 6 ==> !Fires(Rules[j], text)
  {
    forall j, i | 0 <= j < 6 && 0 <= i < |Rules[j].triggers|
      ensures !Contains(text, Rules[j].triggers[i])
    {
      var t := Rules[j].triggers[i];
      assert j in {0, 1, 2, 3, 4, 5};
      if |t| > |text| {
        TooLong(text, t);
      } else {
        assert t in {"humid", "dry", "ph < 6", "ph 6-7", "hot", "hi", "hello"};
        Lacks(text, t, t[0]);
      }
    }
    assert IsPrefix(Rules[6].triggers[1], text);
  }

  lemma SampleGrowwise(text: string)
    requires text == "growwise"
    ensures Respond(text) == IdentityReply
  {
    assert Lower(text) == text;
    SampleGrowwiseTriggers(text);
    FirstFiringRuleReplies(text, 6);
  }

  /** Rule 7 is the first rule whose trigger occurs in "who made you". */
  lemma SampleWhoMadeYouTriggers(text: string)
    requires text == "who made you"
    ensures Fires(Rules[7], text)
    ensures forall j :: 0 <= j < 7 ==> !Fires(Rules[j], text)
  {
    forall j, i | 0 <= j < 7 && 0 <= i < |Rules[j].triggers|
      ensures !Contains(text, Rules[j].triggers[i])
    {
      var t := Rules[j].triggers[i];
      assert j in {0, 1, 2, 3, 4, 5, 6};
      if |t| > |text| {
        TooLong(text, t);
      } else if t in {"humid", "hi"} {
        Lacks(text, t, 'i');
      } else if t in {"dry"} {
        Lacks(text, t, 'r');
      } else if t in {"acidic soil"} {
        Lacks(text, t, 'c');
      } else if t in {"hot", "what is this"} {
        Lacks(text, t, 't');
      } else if t in {"hello"} {
        Lacks(text, t, 'l');
      } else {
        assert t in {"low rainfall", "ph < 6", "neutral soil", "ph 6-7", "growwise"};
        Lacks(text, t, t[0]);
      }
    }
    assert IsPrefix(Rules[7].triggers[0], text);
  }

  lemma SampleWhoMadeYou(text: string)
    requires text == "who made you"
    ensures Respond(text) == AuthorReply
  {
    assert Lower(text) == text;
    SampleWhoMadeYouTriggers(text);
    FirstFiringRuleReplies(text, 7);
  }

  /** Rule 8 is the first rule whose trigger occurs in "is it useful". */
  lemma SampleIsItUsefulTriggers(text: string)
    requires text == "is it useful"
    ensures Fires(Rules[8], text)
    ensures forall j :: 0 <= j < 8 ==> !Fires(Rules[j], text)
  {
    forall j, i | 0 <= j < 8 && 0 <= i < |Rules[j].triggers|
      ensures !Contains(text, Rules[j].triggers[i])
    {
      var t := Rules[j].triggers[i];
      assert j in {0, 1, 2, 3, 4, 5, 6, 7};
      if |t| > |text| {
        TooLong(text, t);
      } else if t in {"low rainfall"} {
        Lacks(text, t, 'o');
      } else {
        assert t in {"humid", "dry", "acidic soil", "ph < 6", "neutral soil", "ph 6-7", "hot", "hi", "hello", "what is this", "growwise", "who made you"};
        Lacks(text, t, t[0]);
      }
    }
    assert IsPrefix(Rules[8].triggers[0], text);
  }

  lemma SampleIsItUseful(text: string)
    requires text == "is it useful"
    ensures Respond(text) == UsefulReply
  {
    assert Lower(text) == text;
    SampleIsItUsefulTriggers(text);
    FirstFiringRuleReplies(text, 8);
  }

  /** The empty question contains no trigger, so it gets the fallback. */
  lemma EmptyQuestion(text: string)
    requires |text| == 0
    ensures Respond(text) == Fallback
  {
    forall j, i | 0 <= j < |Rules| && 0 <= i < |Rules[j].triggers|
      ensures !Contains(Lower(text), Rules[j].triggers[i])
    {
      assert j in {0, 1, 2, 3, 4, 5, 6, 7, 8};
      TooLong(Lower(text), Rules[j].triggers[i]);
    }
    FallbackIffNoTrigger(text);
  }
}
