/**
 * The text rules around tutor questions: cleaning the learner's input, the hard shape check a
 * generated question must pass, and the fixed fallback question for each misconception.
 */
module Questions {
  import opened Wrappers
  import opened JsStrings
  import opened Misconceptions

  // ---------------------------------------------------------------- sanitizeUserInput

  predicate NoControl(s: string) {
    forall i :: 0 <= i < |s| ==> !IsControl(s[i])
  }

  /** `replace(/[\u0000-\u001F\u007F]/g, '')`. */
  function RemoveControl(s: string): (r: string)
    ensures NoControl(r)
    ensures NoControl(s) ==> r == s
  {
    if s == [] then []
    else if IsControl(s[0]) then RemoveControl(s[1..])
    else [s[0]] + RemoveControl(s[1..])
  }

  /**
   * Removing control characters works character by character: the result for a concatenation
   * is the results for its parts, one after the other, and a single character is dropped
   * exactly when it is a control character. So every other character is kept, in order.
   */
  lemma {:induction false} RemoveControlAppend(a: string, b: string)
    ensures RemoveControl(a + b) == RemoveControl(a) + RemoveControl(b)
  {
    if a != [] {
      RemoveControlConsAppend(a, b);
      RemoveControlAppend(a[1..], b);
      RemoveControlCons(a);
      ConcatAssoc(if IsControl(a[0]) then [] else [a[0]], RemoveControl(a[1..]), RemoveControl(b), RemoveControl(a + b), RemoveControl(a));
    } else {
      assert a + b == b;
    }
  }

  /** A single character is dropped exactly when it is a control character. */
  lemma RemoveControlOne(a: string)
    requires |a| == 1
    ensures RemoveControl(a) == if IsControl(a[0]) then [] else a
  {
    assert a[1..] == [];
  }

  lemma RemoveControlConsAppend(a: string, b: string)
    requires a != []
    ensures RemoveControl(a + b) == (if IsControl(a[0]) then [] else [a[0]]) + RemoveControl(a[1..] + b)
  {
    RemoveControlCons(a + b);
    assert (a + b)[0] == a[0] && (a + b)[1..] == a[1..] + b;
  }

  /** Every character of the result comes from the input. */
  lemma {:induction false} RemoveControlAddsNothing(s: string)
    ensures CharsFrom(RemoveControl(s), s)
  {
    if s != [] {
      RemoveControlAddsNothing(s[1..]);
      RemoveControlCons(s);
      var r, t := RemoveControl(s), RemoveControl(s[1..]);
      forall i | 0 <= i < |r| ensures r[i] in s {
        var j := if IsControl(s[0]) then i else i - 1;
        if j >= 0 {
          assert r[i] == t[j];
          var k :| 0 <= k < |s[1..]| && s[1..][k] == t[j];
          assert s[k + 1] == r[i];
        }
      }
    }
  }

  lemma RemoveControlCons(s: string)
    requires s != []
    ensures RemoveControl(s) == (if IsControl(s[0]) then [] else [s[0]]) + RemoveControl(s[1..])
  {
  }

  /**
   * `sanitizeUserInput`: drop control characters, turn each whitespace run into one space, trim.
   * The words of the result are the words of the input once its control characters are gone,
   * in the same order, now separated by single spaces.
   */
  function SanitizeUserInput(input: string): (r: string)
    ensures NoControl(r) && OnlyPlainSpaces(r) && NoDoubleWhitespace(r) && Trimmed(r)
    ensures WordsOf(r) == WordsOf(RemoveControl(input))
  {
    var visible := RemoveControl(input);
    SanitizedSpacing(visible);
    SanitizedNoControl(visible);
    CollapseTrimKeepsWords(visible);
    Trim(CollapseWhitespace(visible))
  }

  /** Sanitising adds no character except whitespace. */
  lemma SanitizeAddsNothing(input: string)
    ensures var r := SanitizeUserInput(input); forall i :: 0 <= i < |r| && !IsWhitespace(r[i]) ==> r[i] in input
  {
    var visible := RemoveControl(input);
    var kept := c => IsWhitespace(c) || c in input;
    assert forall i :: 0 <= i < |visible| ==> kept(visible[i]) by {
      RemoveControlAddsNothing(input);
    }
    CollapseKeeps(visible, kept);
    TrimKeeps(CollapseWhitespace(visible), kept);
  }

  lemma SanitizedSpacing(s: string)
    ensures var r := Trim(CollapseWhitespace(s)); OnlyPlainSpaces(r) && NoDoubleWhitespace(r)
  {
    CollapseSpacing(s);
    TrimKeepsSpacing(CollapseWhitespace(s));
  }

  lemma SanitizedNoControl(s: string)
    requires NoControl(s)
    ensures NoControl(Trim(CollapseWhitespace(s)))
  {
    CollapseKeeps(s, c => !IsControl(c));
    TrimKeeps(CollapseWhitespace(s), c => !IsControl(c));
  }

  /** Sanitising is idempotent: its output is already in the shape it produces. */
  lemma SanitizeIdempotent(input: string)
    ensures SanitizeUserInput(SanitizeUserInput(input)) == SanitizeUserInput(input)
  {
    var s := SanitizeUserInput(input);
    assert RemoveControl(s) == s;
    CollapseWhitespaceFixes(s);
    TrimOfTrimmed(s);
  }

  // ---------------------------------------------------------------- hardValidateQuestion

  /** `\bw\b` at position `i` of `s`: `w` with no word character on either side. */
  predicate WordAt(s: string, w: string, i: int) {
    && 0 <= i && i + |w| <= |s| && s[i..i + |w|] == w
    && (i == 0 || !IsWordChar(s[i - 1]))
    && (i + |w| == |s| || !IsWordChar(s[i + |w|]))
  }

  predicate HasWord(s: string, w: string) {
    exists i :: 0 <= i <= |s| && WordAt(s, w, i)
  }

  /** `<[^>]+>` at position `i`: a `<`, at least one character that is not `>`, then a `>`. */
  predicate TagAt(s: string, i: int) {
    0 <= i && i + 2 < |s| && s[i] == '<' && s[i + 1] != '>' && '>' in s[i + 2..]
  }

  /** `step\s+\d` at position `i`. */
  predicate StepAt(s: string, i: int) {
    && 0 <= i && i + 4 < |s| && s[i..i + 4] == "step" && IsWhitespace(s[i + 4])
    && var rest := TrimStart(s[i + 4..]); rest != [] && IsDigit(rest[0])
  }

  /** More than one `?`. */
  predicate MultipleQuestions(q: string) {
    multiset(q)['?'] > 1
  }

  /** Code: a fence, the words `code` or `class` in any case, or something tag-shaped. */
  predicate HasCode(q: string) {
    var lower := Lower(q);
    Contains(lower, "```") || HasWord(lower, "code") || HasWord(lower, "class") || exists i :: 0 <= i < |q| && TagAt(q, i)
  }

  predicate HasSteps(q: string) {
    var lower := Lower(q);
    (exists i :: 0 <= i < |lower| && StepAt(lower, i)) || Contains(lower, "first,") || Contains(lower, "second,") || Contains(lower, "third,")
  }

  predicate TooLong(q: string) {
    |q| > 160
  }

  predicate HasExplanation(q: string) {
    var lower := Lower(q);
    Contains(lower, "because") || Contains(lower, "for example") || Contains(lower, "you should")
  }

  /** The five shape rules. */
  predicate BreaksShapeRules(q: string) {
    MultipleQuestions(q) || HasCode(q) || HasSteps(q) || TooLong(q) || HasExplanation(q)
  }

  predicate IsAlnumLower(c: char) {
    ('a' <= c <= 'z') || ('0' <= c <= '9')
  }

  /** `replace(/[^a-z0-9\s]/g, '')`. */
  function KeepAlnumOrSpace(s: string): (r: string)
    ensures forall i :: 0 <= i < |r| ==> IsAlnumLower(r[i]) || IsWhitespace(r[i])
    ensures |r| <= |s|
  {
    if s == [] then []
    else if IsAlnumLower(s[0]) || IsWhitespace(s[0]) then [s[0]] + KeepAlnumOrSpace(s[1..])
    else KeepAlnumOrSpace(s[1..])
  }

  /** Lower-case, keep only `[a-z0-9\s]`, trim: what is left is lower-case letters, digits and inner whitespace. */
  function Normalize(s: string): (r: string)
    ensures Trimmed(r)
    ensures forall i :: 0 <= i < |r| ==> IsAlnumLower(r[i]) || IsWhitespace(r[i])
  {
    var kept := KeepAlnumOrSpace(Lower(s));
    TrimKeeps(kept, c => IsAlnumLower(c) || IsWhitespace(c));
    Trim(kept)
  }

  /** Normalising ignores letter case. */
  lemma NormalizeIgnoresCase(s: string)
    ensures Normalize(Lower(s)) == Normalize(s)
  {
    LowerIdempotent(s);
  }

  /**
   * Normalising ignores punctuation: a character that is neither a letter, a digit nor
   * whitespace makes no difference wherever it stands.
   */
  lemma NormalizeIgnoresPunctuation(a: string, c: char, b: string)
    requires !('A' <= c <= 'Z') && !IsAlnumLower(c) && !IsWhitespace(c)
    ensures Normalize(a + [c] + b) == Normalize(a + b)
  {
    var la, lb := Lower(a), Lower(b);
    assert Lower(a + [c] + b) == la + [c] + lb by {
      LowerAppend(a + [c], b);
      LowerAppend(a, [c]);
      assert Lower([c]) == [c];
    }
    assert Lower(a + b) == la + lb by {
      LowerAppend(a, b);
    }
    assert KeepAlnumOrSpace(la + [c] + lb) == KeepAlnumOrSpace(la + lb) by {
      KeepAlnumOrSpaceAppend(la + [c], lb);
      KeepAlnumOrSpaceAppend(la, [c]);
      KeepAlnumOrSpaceOne([c]);
      assert KeepAlnumOrSpace(la) + [] == KeepAlnumOrSpace(la);
      KeepAlnumOrSpaceAppend(la, lb);
    }
  }

  /** The filter works character by character: a concatenation maps to the concatenation of the results. */
  lemma {:induction false} KeepAlnumOrSpaceAppend(a: string, b: string)
    ensures KeepAlnumOrSpace(a + b) == KeepAlnumOrSpace(a) + KeepAlnumOrSpace(b)
  {
    if a != [] {
      KeepAlnumOrSpaceAppend(a[1..], b);
      KeepAlnumOrSpaceCons(a + b);
      KeepAlnumOrSpaceCons(a);
      assert (a + b)[0] == a[0] && (a + b)[1..] == a[1..] + b;
      var h := if IsAlnumLower(a[0]) || IsWhitespace(a[0]) then [a[0]] else [];
      ConcatAssoc(h, KeepAlnumOrSpace(a[1..]), KeepAlnumOrSpace(b), KeepAlnumOrSpace(a + b), KeepAlnumOrSpace(a));
    } else {
      assert a + b == b;
    }
  }

  /** A single character is kept exactly when it is a lower-case letter, a digit or whitespace. */
  lemma KeepAlnumOrSpaceOne(a: string)
    requires |a| == 1
    ensures KeepAlnumOrSpace(a) == if IsAlnumLower(a[0]) || IsWhitespace(a[0]) then a else []
  {
    assert a[1..] == [];
  }

  lemma KeepAlnumOrSpaceCons(s: string)
    requires s != []
    ensures KeepAlnumOrSpace(s) == (if IsAlnumLower(s[0]) || IsWhitespace(s[0]) then [s[0]] else []) + KeepAlnumOrSpace(s[1..])
  {
  }

  function WordSet(s: string): (ws: set<string>)
    ensures |ws| >= 1
  {
    var words := SplitWhitespace(s);
    var ws := set w | w in words;
    SubsetCard({words[0]}, ws);
    ws
  }

  /** The share of words two normalised questions have in common; the denominator is never 0. */
  function Similarity(current: string, previous: string): (r: real)
    ensures 0.0 <= r <= 1.0
  {
    var cw, pw := WordSet(current), WordSet(previous);
    var denominator := if |cw| >= |pw| then |cw| else |pw|;
    SubsetCard(cw * pw, cw);
    RatioBounds(|cw * pw|, denominator);
    (|cw * pw| as real) / (denominator as real)
  }

  lemma RatioBounds(a: nat, d: nat)
    requires 0 < d && a <= d
    ensures 0.0 <= (a as real) / (d as real) <= 1.0
  {
  }

  /** The similarity check: only against a non-empty previous question, then equal normal forms or more than 80% shared words. */
  predicate TooSimilar(question: string, previous: Option<string>) {
    && previous.Some? && previous.value != ""
    && var current, prior := Normalize(question), Normalize(previous.value);
      current == prior || Similarity(current, prior) > 0.8
  }

  const TooSimilarReason: string := "Question too similar to previous"
  const ShapeReason: string := "Question validation failed (multiple questions / code / steps / explanation / too long)"

  datatype Validation = Validation(valid: bool, reason: Option<string>)

  /**
   * `hardValidateQuestion`: valid exactly when no shape rule fires and the question is not too similar
   * to the previous one; the reason is absent exactly when valid, and similarity is reported first.
   */
  function HardValidateQuestion(question: string, previous: Option<string>): (r: Validation)
    ensures r.valid <==> !BreaksShapeRules(question) && !TooSimilar(question, previous)
    ensures r.valid <==> r.reason.None?
    ensures TooSimilar(question, previous) ==> r.reason == Some(TooSimilarReason)
    ensures !r.valid && !TooSimilar(question, previous) ==> r.reason == Some(ShapeReason)
  {
    var same := TooSimilar(question, previous);
    var valid := !MultipleQuestions(question) && !HasCode(question) && !HasSteps(question)
      && !TooLong(question) && !HasExplanation(question) && !same;
    var reason := if valid then None else if same then Some(TooSimilarReason) else Some(ShapeReason);
    Validation(valid, reason)
  }

  /** Two question marks, or more than 160 characters, always fail. */
  lemma ShapeRejections(question: string, previous: Option<string>)
    ensures multiset(question)['?'] > 1 ==> !HardValidateQuestion(question, previous).valid
    ensures |question| > 160 ==> !HardValidateQuestion(question, previous).valid
  {
  }

  /** Repeating the previous question, up to case and punctuation, is rejected as too similar. */
  lemma RepeatIsTooSimilar(question: string, previous: string)
    requires previous != "" && Normalize(question) == Normalize(previous)
    ensures HardValidateQuestion(question, Some(previous)) == Validation(false, Some(TooSimilarReason))
  {
  }

  /** Without a previous question (or with an empty one) only the shape rules count. */
  lemma NoPreviousOnlyShape(question: string, previous: Option<string>)
    requires previous.None? || previous == Some("")
    ensures HardValidateQuestion(question, previous).valid <==> !BreaksShapeRules(question)
  {
  }

  /** The similarity check does not depend on which of the two questions came first. */
  lemma {:induction false} SimilaritySymmetric(a: string, b: string)
    requires a != "" && b != ""
    ensures TooSimilar(a, Some(b)) <==> TooSimilar(b, Some(a))
  {
    var na, nb := Normalize(a), Normalize(b);
    assert WordSet(na) * WordSet(nb) == WordSet(nb) * WordSet(na);
  }

  lemma SubsetCard<T>(a: set<T>, b: set<T>)
    requires a <= b
    ensures |a| <= |b|
  {
    assert b == a + (b - a);
  }

  /** The words `code` and `class` are recognised in any letter case. */
  lemma CodeWordAnyCase(q: string, i: nat)
    requires i + 4 <= |q| && Lower(q[i..i + 4]) == "code"
    requires i == 0 || !IsWordChar(q[i - 1])
    requires i + 4 == |q| || !IsWordChar(q[i + 4])
    ensures HasCode(q)
  {
    var lower := Lower(q);
    assert lower[i..i + 4] == Lower(q[i..i + 4]);
    assert i > 0 ==> !IsWordChar(lower[i - 1]);
    assert i + 4 < |q| ==> !IsWordChar(lower[i + 4]);
    assert WordAt(lower, "code", i);
  }

  /** The ordinal `first,` counts as a list of steps in any letter case. */
  lemma OrdinalStepsAnyCase(q: string, i: nat)
    requires i + 6 <= |q| && Lower(q[i..i + 6]) == "first,"
    ensures HasSteps(q)
  {
    var lower := Lower(q);
    assert lower[i..i + 6] == Lower(q[i..i + 6]);
    assert lower[i..][..6] == lower[i..i + 6];
    ContainsAt(lower, "first,", i);
  }

  // ---------------------------------------------------------------- fallbackQuestion

  const FallbackGeneric: string := "What specific case still seems unclear?"
  const FallbackOffByOne: string := "What happens at the first and last index of the loop?"
  const FallbackMutation: string := "How does the data change after this line compared to before it?"
  const FallbackReturn: string := "Where does the value go after this function runs?"
  const FallbackAsync: string := "Which parts actually wait for others to finish here?"
  const FallbackNull: string := "What if the value is null before this access?"
  const FallbackScope: string := "Which variable name is actually read at this point?"
  const FallbackState: string := "When is the state reset between runs?"
  const FallbackSideEffects: string := "What else changes when this code executes in this order?"

  /** A fallback ends in `?` and stays within the 160-character limit of the shape rules. */
  predicate EndsAsked(q: string) {
    q != [] && q[|q| - 1] == '?' && !TooLong(q)
  }

  /**
   * `fallbackQuestion`: a fixed question per misconception, and a generic one when none is
   * targeted. Every one of them ends in `?` and is at most 160 characters long.
   */
  function FallbackQuestion(targeted: Option<MisconceptionId>): (q: string)
    ensures EndsAsked(q)
  {
    // One literal per lemma keeps each proof small.
    match targeted
    case None => GenericEndsAsked(); FallbackGeneric
    case Some(OffByOne) => OffByOneEndsAsked(); FallbackOffByOne
    case Some(MutationVsReassignment) => MutationEndsAsked(); FallbackMutation
    case Some(ReturnVsPrint) => ReturnEndsAsked(); FallbackReturn
    case Some(AsyncVsParallel) => AsyncEndsAsked(); FallbackAsync
    case Some(NullChecks) => NullEndsAsked(); FallbackNull
    case Some(ScopeShadowing) => ScopeEndsAsked(); FallbackScope
    case Some(Statefulness) => StateEndsAsked(); FallbackState
    case Some(SideEffects) => SideEffectsEndsAsked(); FallbackSideEffects
  }

  lemma GenericEndsAsked() ensures EndsAsked(FallbackGeneric) {}
  lemma OffByOneEndsAsked() ensures EndsAsked(FallbackOffByOne) {}
  lemma MutationEndsAsked() ensures EndsAsked(FallbackMutation) {}
  lemma ReturnEndsAsked() ensures EndsAsked(FallbackReturn) {}
  lemma AsyncEndsAsked() ensures EndsAsked(FallbackAsync) {}
  lemma NullEndsAsked() ensures EndsAsked(FallbackNull) {}
  lemma ScopeEndsAsked() ensures EndsAsked(FallbackScope) {}
  lemma StateEndsAsked() ensures EndsAsked(FallbackState) {}
  lemma SideEffectsEndsAsked() ensures EndsAsked(FallbackSideEffects) {}
}
