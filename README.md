# GrowWise crop advisor: fertilizer lookup and rule-based responder

GrowWise is a single-page Streamlit app. It recommends a crop from four field
conditions, gives fertilizer advice for the recommended crop, and answers
free-text farming questions with canned replies. This project models the two
pieces of deterministic logic written inline in `app.py`, as pure Dafny
functions, and proves their behaviour.

- **Fertilizer advice** (`fertilizer.dfy`, module `Fertilizer`). A constant
  table maps ten crop labels to advice strings. `FertilizerFor` looks a label
  up by exact key and falls back to `"Balanced NPK recommended"`, as
  `dict.get` with a default does.
- **Query responder** (`chatbot.dfy`, module `Chatbot`). The question is
  lower-cased. It is then tested against nine rules, in order. Each rule has
  two trigger phrases and a reply. The first rule with a trigger occurring in
  the lower-cased question gives the reply. Otherwise the fallback reply is given. The
  rules are an explicit ordered `seq<Rule>` run by a first-match function.
  `RespondIsChain` proves this equal to the literal `if`/`elif` chain.
- **String operations** (`strings.dfy`, module `Strings`). Python's substring
  test `sub in s` (`Contains`, with a positional reference meaning
  `OccursAt`), and `str.lower()`/`str.upper()` over ASCII.

Facts proved about the responder, beyond its equivalence with the chain:

- the fallback is given exactly when no trigger occurs in the lower-cased
  question;
- the rule that replies is precisely the first one that fires;
- the ten replies are distinct, every reply is one of them, and each of the
  ten is given to some sample question;
- changing the case of ASCII letters in a question never changes the reply;
- anything mentioning "humid" (so also "humidity") gets the
  rice/sugarcane reply.

The trigger `"hi"` of the greeting rule occurs inside `"what is this"`, the
identity rule's first trigger. The greeting rule is tried first. So
`"what is this"` never selects the identity reply: that reply is only reached
through `"growwise"`, and removing the dead trigger changes no reply
(`DeadTriggerRemovable`).

The fertilizer lookup is exact: `app.py:107` passes the predicted label to
`dict.get` unchanged, so `"RICE"` gets the generic advice. The label is
upper-cased only for display, at `app.py:92`.

## Model

| member | source | states |
|---|---|---|
| `Fertilizer.Table` | app.py:95-106 | the ten crop labels and their advice, in the program's own words; `ListedAdvice` and `DefaultExactlyForUnlisted` state its entries |
| `Fertilizer.FertilizerFor` | app.py:95-107 | a listed label gets its own advice; the generic advice is given exactly when the label is not among the table's keys; the advice is always a table value or the generic advice |
| `Fertilizer.DefaultNotListed` | app.py:95-107 | the generic advice is not the advice of any listed crop, so a reply of generic advice means "label not found" |
| `Fertilizer.ListedAdvice` | app.py:95-106 | the advice for each of the ten listed crops, e.g. `"rice"` gets `"Urea (N), DAP (P), MOP (K)"` |
| `Fertilizer.DefaultExactlyForUnlisted` | app.py:107 | the generic advice is given if and only if the label is not one of the ten crop names |
| `Fertilizer.ListedLabelsLowerCase` | app.py:96-105 | every key of the table consists of small ASCII letters only |
| `Fertilizer.CapitalMeansDefault` | app.py:107 | the lookup is exact: a label with any capital letter gets the generic advice |
| `Fertilizer.DisplayedLabelNotListed` | app.py:92 | the upper-cased label is only displayed, never looked up; were it looked up, it would not be found, for every listed crop |
| `Fertilizer.UpperRiceGetsDefault` | app.py:107 | `"RICE"` and `"unknowncrop"` get the generic advice |
| `Strings.Contains` | app.py:120-137 | Python's `sub in s` on strings; `ContainsIffOccurs` gives it its meaning, occurrence at some position |
| `Strings.Lower` | app.py:116 | `str.lower()` over ASCII; `LowerIdempotent`, `LowerFixedIff` and `LowerEqualIff` give its meaning |
| `Strings.Upper` | app.py:92 | `str.upper()` over ASCII; `UpperSameIgnoringCase` says it leaves no small ASCII letter and only changes the case of letters |
| `Strings.ContainsIffOccurs` | app.py:120-137 | the substring test used by every rule holds exactly when the phrase starts at some position of the question |
| `Strings.ContainsTransitive` | app.py:130-132 | a question containing a phrase contains every phrase inside that phrase |
| `Strings.LowerIdempotent` | app.py:116 | lower-casing leaves no ASCII capital, so lower-casing twice changes nothing |
| `Strings.LowerFixedIff` | app.py:116 | a string is its own lower-case form exactly when it has no ASCII capital |
| `Strings.LowerEqualIff` | app.py:116 | two strings have the same lower-case form exactly when, position by position, their characters are equal or one is the ASCII capital of the other |
| `Strings.UpperSameIgnoringCase` | app.py:92 | upper-casing leaves no small ASCII letter and only changes the case of letters |
| `Chatbot.Rules` | app.py:120-137 | the nine `if`/`elif` arms in source order, each with its two trigger phrases and its reply; `RespondIsChain` ties them to the literal chain |
| `Chatbot.Fires` | app.py:120 | a rule fires when one of its triggers occurs in the question, the `a in q or b in q` of each arm; `FiresPair` states it for two triggers |
| `Chatbot.ChainReply` | app.py:120-137 | the literal `if`/`elif` chain, written independently of the rule list; `RespondIsChain` proves the two equal |
| `Chatbot.FiresPair` | app.py:120 | a two-trigger rule fires exactly when one of its two `in` tests holds, the `or` of each `if` condition |
| `Chatbot.RulesFirePairwise` | app.py:120-137 | every one of the nine rules fires exactly when one of its two triggers occurs |
| `Chatbot.FirstMatch` | app.py:120-137 | the position it returns is that of a rule that fires, and no earlier rule fires; the list's length when none fires |
| `Chatbot.Decide` | app.py:117-137 | a decision list gives the fallback when no rule fires and otherwise the reply of the first rule that fires |
| `Chatbot.Respond` | app.py:115-137 | the reply to any question is one of the ten fixed replies |
| `Chatbot.RespondIsChain` | app.py:116-137 | the rule list with first-match evaluation equals the literal `if`/`elif` chain on the lower-cased question, for every question |
| `Chatbot.RepliesDistinct` | app.py:117-137 | the nine rule replies and the fallback are pairwise different: ten distinct candidate replies, each given to some question by one of the sample lemmas |
| `Chatbot.FallbackIffNoTrigger` | app.py:117-137 | the fallback reply is given if and only if no trigger of any rule occurs in the lower-cased question |
| `Chatbot.FirstFiringRuleReplies` | app.py:120-137 | rule `k` gives the reply if and only if it fires and no earlier rule fires |
| `Chatbot.CaseInsensitive` | app.py:116 | two questions that differ only in letter case get the same reply |
| `Chatbot.UpperCaseQuestion` | app.py:116 | an ASCII-upper-cased question gets the same reply as the original |
| `Chatbot.HumidAlwaysWins` | app.py:120-121 | a question containing "humid" or "high rainfall" gets the rice/sugarcane reply, whatever else it contains |
| `Chatbot.HumidityAlwaysWins` | app.py:120-121 | a question containing "humidity" gets the rice/sugarcane reply |
| `Chatbot.DryBeatsGreeting` | app.py:120-131 | a question containing both "dry" and "hi" gets the dry-area reply, not the greeting, unless the first rule fires |
| `Chatbot.HiInsideWhatIsThis` | app.py:130-132 | the greeting trigger "hi" occurs inside the identity trigger "what is this" |
| `Chatbot.WhatIsThisIsShadowed` | app.py:130-133 | a question containing "what is this" is decided by one of the first six rules, never gets the identity reply, and gets the greeting when none of the first five rules fires |
| `Chatbot.IdentityOnlyViaGrowwise` | app.py:130-133 | whenever the identity reply is given, the question contains "growwise" and does not contain "what is this" |
| `Chatbot.FirstMatchAgree` | app.py:120-137 | two rule lists that fire alike up to a position where both fire pick the same first rule |
| `Chatbot.DeadTriggerRemovable` | app.py:130-133 | dropping the "what is this" trigger from the identity rule changes the reply to no question |
| `Chatbot.SampleHumid` | app.py:120-121 | "It is very humid here" gets the rice/sugarcane reply |
| `Chatbot.SampleDryAndHi` | app.py:120-131 | "dry and hi" gets the dry-area reply, not the greeting |
| `Chatbot.SampleHello` | app.py:120-131 | "hello" gets the greeting |
| `Chatbot.SampleBanana` | app.py:117-137 | "banana" gets the fallback reply |
| `Chatbot.SampleAcidicTriggers` | app.py:120-125 | in "acidic soil" the acidic-soil rule fires and the two earlier rules do not |
| `Chatbot.SampleAcidic` | app.py:120-125 | "acidic soil" gets the tea reply |
| `Chatbot.SampleNeutralTriggers` | app.py:120-127 | in "neutral soil" the neutral-soil rule fires and the three earlier rules do not |
| `Chatbot.SampleNeutral` | app.py:120-127 | "neutral soil" gets the wheat/maize/rice reply |
| `Chatbot.SampleHotTriggers` | app.py:120-129 | in "hot" the heat rule fires and the four earlier rules do not |
| `Chatbot.SampleHot` | app.py:120-129 | "hot" gets the hot-climate reply |
| `Chatbot.SampleGrowwiseTriggers` | app.py:120-133 | in "growwise" the identity rule fires and the six earlier rules do not |
| `Chatbot.SampleGrowwise` | app.py:120-133 | "growwise" gets the identity reply, so that reply is reachable |
| `Chatbot.SampleWhoMadeYouTriggers` | app.py:120-135 | in "who made you" the developer rule fires and the seven earlier rules do not |
| `Chatbot.SampleWhoMadeYou` | app.py:120-135 | "who made you" gets the author reply |
| `Chatbot.SampleIsItUsefulTriggers` | app.py:120-137 | in "is it useful" the last rule fires and the eight earlier rules do not |
| `Chatbot.SampleIsItUseful` | app.py:120-137 | "is it useful" gets the usefulness reply |
| `Chatbot.EmptyQuestion` | app.py:117-137 | the empty question gets the fallback reply |

## Left out

- Page setup, CSS, headers, sliders, the button, the text box and the footer (`app.py:20-90`, `112-113`, `139`, `162-167`): presentation only.
- Loading `crop_data.csv` (`app.py:9-12`): file I/O through a library not part of this model.
- Training and querying the decision-tree classifier (`app.py:14-15`, `91`): a foreign library doing floating-point induction. The predicted label is modelled as an arbitrary string passed to `FertilizerFor`.
- The bar and scatter charts and the `value_counts` aggregation (`app.py:147-157`): rendering and dataframe library calls.
- `Strings.Lower`: models `str.lower()` on ASCII only; other characters are kept as they are. Python's Unicode lower-casing also maps non-ASCII letters, some of them to ASCII (the Kelvin sign becomes `k`, and `İ` becomes `i` followed by a combining dot), so a question using such characters can match a trigger in the program and not in the model.
- `Strings.Upper`: likewise ASCII only. It states what the displayed label would look up (`Fertilizer.DisplayedLabelNotListed`), and what shouting a question does (`Chatbot.UpperCaseQuestion`).
- `Chatbot.UpperCaseQuestion`: holds for ASCII upper-casing only. Python's `str.upper()` also maps some non-ASCII letters to ASCII, so there upper-casing can change the reply: `"hı"` (dotless i, U+0131) gets the fallback, but `"hı".upper()` is `"HI"`, whose lower-cased form contains `"hi"` and gets the greeting.
- `Chatbot.Respond`: that each of the ten replies is given to some question is stated by ten separate sample lemmas, one per reply, not by one lemma quantifying over the replies.
- The script answers only a non-empty question (`if user_query:`, `app.py:115`); `Respond` is total and gives the fallback for the empty string (`EmptyQuestion`).
