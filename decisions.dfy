/**
 * The tutoring engine's decision rules: which teaching strategy to use, and how a learner
 * message is read (its coarse intent, its message intent and the learner-confidence nudge).
 * Phrases are matched as substrings of the ASCII lower-cased message.
 */
module Decisions {
  import opened Wrappers
  import opened JsStrings
  import Misconceptions

  datatype CoarseIntent = Debugging | Explanation | Unknown

  datatype Strategy = Diagnostic | Narrowing | ConceptualContrast | Reflective

  /**
   * `chooseStrategy`: a confident top misconception (above 0.75) overrides the intent; otherwise
   * debugging narrows only a confident learner (above 0.55), explanation reflects, and the rest diagnoses.
   */
  function ChooseStrategy(intent: CoarseIntent, learnerConfidence: real, topConfidence: Option<real>): (s: Strategy)
    ensures s == ConceptualContrast <==> topConfidence.Some? && topConfidence.value > 0.75
    ensures s == Narrowing <==> !(topConfidence.Some? && topConfidence.value > 0.75) && intent == Debugging && learnerConfidence > 0.55
    ensures s == Reflective <==> !(topConfidence.Some? && topConfidence.value > 0.75) && intent == Explanation
    ensures s == Diagnostic <==>
      !(topConfidence.Some? && topConfidence.value > 0.75) && (intent.Unknown? || (intent.Debugging? && learnerConfidence <= 0.55))
  {
    // A confidence of 0 is falsy in the source, but it is not above 0.75 either.
    if topConfidence.Some? && topConfidence.value > 0.75 then ConceptualContrast
    else if intent == Debugging then (if learnerConfidence > 0.55 then Narrowing else Diagnostic)
    else if intent == Explanation then Reflective
    else Diagnostic
  }

  /** With no confident top misconception the intent alone decides, and a diagnostic strategy needs no confidence at all. */
  lemma StrategyWithoutTop(intent: CoarseIntent, learnerConfidence: real)
    ensures ChooseStrategy(intent, learnerConfidence, None) != ConceptualContrast
    ensures intent != Debugging ==> ChooseStrategy(intent, learnerConfidence, None) == ChooseStrategy(intent, 0.0, None)
  {
  }

  /** Raising the learner's confidence can only move a debugging turn from diagnostic to narrowing. */
  lemma StrategyMonotoneInLearnerConfidence(intent: CoarseIntent, c1: real, c2: real, top: Option<real>)
    requires c1 <= c2
    ensures ChooseStrategy(intent, c1, top) == Narrowing ==> ChooseStrategy(intent, c2, top) == Narrowing
    ensures ChooseStrategy(intent, c2, top) == Diagnostic && intent == Debugging ==> ChooseStrategy(intent, c1, top) == Diagnostic
  {
  }

  // ---------------------------------------------------------------- message intent

  datatype MessageIntent = SolutionRequest | DebuggingHelp | Conceptual | Clarification

  /** Whether `s` contains one of `phrases` (a regular-expression alternation of plain words). */
  predicate ContainsAny(s: string, phrases: seq<string>) {
    exists i :: 0 <= i < |phrases| && Contains(s, phrases[i])
  }

  const SolutionPhrases: seq<string> :=
    ["give me", "just tell", "what is the answer", "full solution", "complete solution", "show me the code", "show the code"]

  /** `fails?` matches wherever `fail` does. */
  const DebuggingPhrases: seq<string> :=
    ["error", "exception", "stack trace", "bug", "fail", "fix", "debug", "crash"]

  /** `clarif(y|ication)` is the two words `clarify` and `clarification`. */
  const ClarificationPhrases: seq<string> :=
    ["meaning", "clarify", "clarification", "what do you mean", "which one"]

  predicate AsksForSolution(message: string) {
    ContainsAny(Lower(message), SolutionPhrases)
  }

  /** A debugging phrase in the lower-cased text, or a `?` anywhere in the raw message. */
  predicate SignalsDebugging(message: string) {
    ContainsAny(Lower(message), DebuggingPhrases) || '?' in message
  }

  predicate AsksForClarification(message: string) {
    ContainsAny(Lower(message), ClarificationPhrases)
  }

  /** `classifyMessageIntent`: the first of solution request, debugging and clarification that applies, else conceptual. */
  function ClassifyMessageIntent(message: string): (r: MessageIntent)
    ensures r == SolutionRequest <==> AsksForSolution(message)
    ensures r == DebuggingHelp <==> !AsksForSolution(message) && SignalsDebugging(message)
    ensures r == Clarification <==> !AsksForSolution(message) && !SignalsDebugging(message) && AsksForClarification(message)
    ensures r == Conceptual <==> !AsksForSolution(message) && !SignalsDebugging(message) && !AsksForClarification(message)
  {
    if AsksForSolution(message) then SolutionRequest
    else if SignalsDebugging(message) then DebuggingHelp
    else if AsksForClarification(message) then Clarification
    else Conceptual
  }

  /** A message with a question mark that does not ask for the solution is always a debugging request. */
  lemma QuestionMarkMeansDebugging(message: string)
    requires '?' in message && !AsksForSolution(message)
    ensures ClassifyMessageIntent(message) == DebuggingHelp
  {
  }

  /** The classification ignores letter case: lower-casing the message first changes nothing. */
  lemma ClassifyIgnoresCase(message: string)
    ensures ClassifyMessageIntent(Lower(message)) == ClassifyMessageIntent(message)
  {
    LowerIdempotent(message);
    LowerKeepsNonLetters(message, '?');
  }

  // ---------------------------------------------------------------- intent and learner confidence

  const DoubtPhrases: seq<string> := ["i'm not sure", "confused", "stuck"]
  const HedgePhrases: seq<string> := ["i think", "maybe"]

  /** The coarse intent: `explain` or `why` wins over a `?`, which wins over nothing. */
  function CoarseIntentOf(message: string): (intent: CoarseIntent)
    ensures intent == Explanation <==> Contains(Lower(message), "explain") || Contains(Lower(message), "why")
    ensures intent == Debugging <==> !(Contains(Lower(message), "explain") || Contains(Lower(message), "why")) && '?' in message
  {
    var lower := Lower(message);
    var intent := if '?' in message then Debugging else Unknown;
    if Contains(lower, "explain") || Contains(lower, "why") then Explanation else intent
  }

  /** The learner confidence after reading the message: 0.08 less for doubt, 0.04 more for a hedge, clamped. */
  function AdjustedConfidence(message: string, prior: real): (confidence: real)
    ensures 0.0 <= confidence <= 1.0
  {
    var lower := Lower(message);
    var afterDoubt := if ContainsAny(lower, DoubtPhrases) then prior - 0.08 else prior;
    var afterHedge := if ContainsAny(lower, HedgePhrases) then afterDoubt + 0.04 else afterDoubt;
    Misconceptions.Clamp(afterHedge)
  }

  datatype IntentReading = IntentReading(intent: CoarseIntent, confidence: real, messageIntent: MessageIntent)

  /** `inferIntentAndConfidence`. */
  function InferIntentAndConfidence(message: string, priorConfidence: real): (r: IntentReading)
    ensures r.intent == CoarseIntentOf(message)
    ensures 0.0 <= r.confidence <= 1.0
    ensures r.confidence == AdjustedConfidence(message, priorConfidence)
    ensures r.messageIntent == ClassifyMessageIntent(message)
  {
    IntentReading(CoarseIntentOf(message), AdjustedConfidence(message, priorConfidence), ClassifyMessageIntent(message))
  }

  /** The exact effect of each phrase kind on a prior well inside [0, 1]. */
  lemma ConfidenceNudges(message: string, prior: real)
    requires 0.08 <= prior <= 0.96
    ensures var doubt, hedge := ContainsAny(Lower(message), DoubtPhrases), ContainsAny(Lower(message), HedgePhrases);
      var c := AdjustedConfidence(message, prior);
      && (doubt && !hedge ==> c == prior - 0.08)
      && (!doubt && hedge ==> c == prior + 0.04)
      && (doubt && hedge ==> c == prior - 0.04)
      && (!doubt && !hedge ==> c == prior)
  {
  }

  /** A higher prior never gives a lower confidence for the same message. */
  lemma ConfidenceMonotone(message: string, p1: real, p2: real)
    requires p1 <= p2
    ensures AdjustedConfidence(message, p1) <= AdjustedConfidence(message, p2)
  {
  }

  /** Doubt alone never raises a confidence in [0, 1]; a hedge alone never lowers it. */
  lemma ConfidenceDirection(message: string, prior: real)
    requires 0.0 <= prior <= 1.0
    ensures var doubt, hedge := ContainsAny(Lower(message), DoubtPhrases), ContainsAny(Lower(message), HedgePhrases);
      && (doubt && !hedge ==> AdjustedConfidence(message, prior) <= prior)
      && (!doubt && hedge ==> AdjustedConfidence(message, prior) >= prior)
  {
  }
}
