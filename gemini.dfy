/**
 * The model-facing side of the tutoring engine: cutting the model's reply down to one short
 * question, mapping the chat history onto the vendor's roles, and the retry policy around
 * the vendor call, which is an oracle here.
 */
module Gemini {
  import opened Wrappers
  import opened JsStrings

  // ---------------------------------------------------------------- sanitizeToSingleQuestion

  /** What the engine asks when the reply holds no question. */
  const DefaultQuestion: string := "What happens when the list is empty?"

  const MaxWords: nat := 20

  predicate IsMarkup(c: char) {
    c == '`' || c == '*'
  }

  predicate NoMarkup(s: string) {
    forall i :: 0 <= i < |s| ==> !IsMarkup(s[i])
  }

  /** `replace(/[`*]/g, '')`. */
  function StripMarkup(s: string): (r: string)
    ensures NoMarkup(r)
    ensures NoMarkup(s) ==> r == s
  {
    if s == [] then []
    else if IsMarkup(s[0]) then StripMarkup(s[1..])
    else [s[0]] + StripMarkup(s[1..])
  }

  /** No markup, single plain spaces between runs of text, none at the ends. */
  predicate Clean(s: string) {
    NoMarkup(s) && OnlyPlainSpaces(s) && NoDoubleWhitespace(s) && Trimmed(s)
  }

  /**
   * Stripping markup works character by character: the result for a concatenation is the
   * results for its parts, one after the other, and a single character is dropped exactly
   * when it is a backtick or an asterisk. So every other character is kept, in order.
   */
  lemma {:induction false} StripMarkupAppend(a: string, b: string)
    ensures StripMarkup(a + b) == StripMarkup(a) + StripMarkup(b)
  {
    if a != [] {
      StripMarkupConsAppend(a, b);
      StripMarkupAppend(a[1..], b);
      StripMarkupCons(a);
      ConcatAssoc(if IsMarkup(a[0]) then [] else [a[0]], StripMarkup(a[1..]), StripMarkup(b), StripMarkup(a + b), StripMarkup(a));
    } else {
      assert a + b == b;
    }
  }

  /** A single character is dropped exactly when it is a backtick or an asterisk. */
  lemma StripMarkupOne(a: string)
    requires |a| == 1
    ensures StripMarkup(a) == if IsMarkup(a[0]) then [] else a
  {
    assert a[1..] == [];
  }

  lemma StripMarkupConsAppend(a: string, b: string)
    requires a != []
    ensures StripMarkup(a + b) == (if IsMarkup(a[0]) then [] else [a[0]]) + StripMarkup(a[1..] + b)
  {
    StripMarkupCons(a + b);
    assert (a + b)[0] == a[0] && (a + b)[1..] == a[1..] + b;
  }

  /** Every character of the result comes from the input. */
  lemma {:induction false} StripMarkupAddsNothing(s: string)
    ensures CharsFrom(StripMarkup(s), s)
  {
    if s != [] {
      StripMarkupAddsNothing(s[1..]);
      StripMarkupCons(s);
      var r, t := StripMarkup(s), StripMarkup(s[1..]);
      forall i | 0 <= i < |r| ensures r[i] in s {
        var j := if IsMarkup(s[0]) then i else i - 1;
        if j >= 0 {
          assert r[i] == t[j];
          var k :| 0 <= k < |s[1..]| && s[1..][k] == t[j];
          assert s[k + 1] == r[i];
        }
      }
    }
  }

  lemma StripMarkupCons(s: string)
    requires s != []
    ensures StripMarkup(s) == (if IsMarkup(s[0]) then [] else [s[0]]) + StripMarkup(s[1..])
  {
  }

  /**
   * The reply with markup removed, whitespace runs collapsed to one space, and trimmed: the
   * words of the reply without its markup, in order, separated by single spaces.
   */
  function Cleaned(text: string): (c: string)
    ensures Clean(c)
    ensures WordsOf(c) == WordsOf(StripMarkup(text))
  {
    CleanedShape(text);
    CollapseTrimKeepsWords(StripMarkup(text));
    Trim(CollapseWhitespace(StripMarkup(text)))
  }

  lemma CleanedShape(text: string)
    ensures Clean(Trim(CollapseWhitespace(StripMarkup(text))))
  {
    var stripped := StripMarkup(text);
    var collapsed := CollapseWhitespace(stripped);
    CollapseSpacing(stripped);
    TrimKeepsSpacing(collapsed);
    CollapseKeeps(stripped, c => !IsMarkup(c));
    TrimKeeps(collapsed, c => !IsMarkup(c));
  }

  /** Cleaning adds no character except the space. */
  lemma CleanedFromText(text: string)
    ensures var c := Cleaned(text); forall i :: 0 <= i < |c| ==> c[i] == ' ' || c[i] in text
  {
    var stripped := StripMarkup(text);
    var collapsed := CollapseWhitespace(stripped);
    StripMarkupAddsNothing(text);
    CollapseKeeps(stripped, c => c == ' ' || c in text);
    TrimKeeps(collapsed, c => c == ' ' || c in text);
  }

  /** The cleaned text never holds a line break, so the `'\n'` sentence boundary is never found. */
  lemma NewlineBoundaryDead(text: string, j: nat)
    requires j <= |Cleaned(text)|
    ensures LastIndexOf(Cleaned(text)[..j], '\n') == -1
  {
    var c := Cleaned(text);
    SliceKeeps(c, 0, j);
    assert c[0..j] == c[..j];
    NoLineBreak(c[..j]);
  }

  /** Text whose only whitespace is the plain space holds no line break. */
  lemma NoLineBreak(s: string)
    requires OnlyPlainSpaces(s)
    ensures '\n' !in s
  {
    if '\n' in s {
      var i :| 0 <= i < |s| && s[i] == '\n';
      assert IsWhitespace(s[i]);
    }
  }

  predicate IsBoundary(c: char) {
    c == '.' || c == '!' || c == '\n'
  }

  /** `Math.max` of the last positions of `.`, `!` and a line break: the last boundary, or -1. */
  function Boundary(pre: string): (b: int)
    ensures -1 <= b < |pre|
    ensures b >= 0 ==> IsBoundary(pre[b])
    ensures forall i :: b < i < |pre| ==> !IsBoundary(pre[i])
  {
    var dot, bang, newline := LastIndexOf(pre, '.'), LastIndexOf(pre, '!'), LastIndexOf(pre, '\n');
    var b := if dot >= bang then dot else bang;
    if b >= newline then b else newline
  }

  /**
   * Where the clause ending at position `e` starts: just after the last sentence boundary at or
   * before `e`, or at 0 when there is none.
   */
  function ClauseStart(s: string, e: nat): (a: nat)
    requires e < |s|
    ensures a <= e + 1
    ensures forall i :: a <= i <= e ==> !IsBoundary(s[i])
    ensures a == 0 || IsBoundary(s[a - 1])
  {
    ClauseAfterBoundary(s, e);
    Boundary(s[..e + 1]) + 1
  }

  /** Nothing after the last boundary of a prefix, up to the prefix's end, is a boundary. */
  lemma ClauseAfterBoundary(s: string, e: nat)
    requires e < |s|
    ensures var b := Boundary(s[..e + 1]); -1 <= b <= e && forall i :: b < i <= e ==> !IsBoundary(s[i])
    ensures var b := Boundary(s[..e + 1]); b >= 0 ==> IsBoundary(s[b])
  {
    var pre := s[..e + 1];
    var b := Boundary(pre);
    if b >= 0 {
      assert pre[b] == s[b];
    }
    forall i | b < i <= e ensures !IsBoundary(s[i]) {
      assert pre[i] == s[i];
    }
  }

  /**
   * The clause that ends at the first `?`: from just after the last sentence boundary before it
   * up to and including that `?`. It is a slice of the text that holds no boundary and starts at
   * the beginning of the text or right after a boundary.
   */
  function LastClause(cleaned: string): (clause: string)
    requires '?' in cleaned
    ensures var e := IndexOf(cleaned, '?'); var a := e + 1 - |clause|;
      && 0 <= a <= e && clause == cleaned[a..e + 1]
      && (forall i :: a <= i <= e ==> !IsBoundary(cleaned[i]))
      && (a == 0 || IsBoundary(cleaned[a - 1]))
  {
    var e := IndexOf(cleaned, '?');
    ClauseSlice(cleaned, e);
    cleaned[ClauseStart(cleaned, e)..e + 1]
  }

  /** The clause ending at a position that is not a boundary is a non-empty slice with the clause's properties. */
  lemma ClauseSlice(s: string, e: nat)
    requires e < |s| && !IsBoundary(s[e])
    ensures var clause := s[ClauseStart(s, e)..e + 1]; var a := e + 1 - |clause|;
      && 0 <= a <= e && clause == s[a..e + 1]
      && (forall i :: a <= i <= e ==> !IsBoundary(s[i]))
      && (a == 0 || IsBoundary(s[a - 1]))
  {
    var a := ClauseStart(s, e);
    assert |s[a..e + 1]| == e + 1 - a;
  }

  predicate EndsWithMark(q: string) {
    q != [] && q[|q| - 1] == '?'
  }

  /** `split(' ').filter(Boolean)`: the words of a question. */
  function Words(q: string): seq<string> {
    NonEmptyWords(Split(q, ' '))
  }

  /** More than twenty words: the first twenty joined by spaces, with a `?` added unless already there. */
  function CapWords(q: string): string {
    var words := Words(q);
    if |words| > MaxWords then
      var head := Join(words[..MaxWords], " ");
      if EndsWithMark(head) then head else head + "?"
    else q
  }

  /**
   * The last step: a `?` added to a question without one, and the default question for nothing
   * at all. The result always ends in `?`, and a non-empty question is kept as its prefix.
   */
  function Finish(question: string): (r: string)
    ensures EndsWithMark(r)
    ensures question == "" ==> r == DefaultQuestion
    ensures question != "" ==> |question| <= |r| <= |question| + 1 && r[..|question|] == question
    ensures EndsWithMark(question) ==> r == question
  {
    var marked := if !EndsWithMark(question) && |question| > 0 then question + "?" else question;
    if marked == "" then DefaultMarks(); DefaultQuestion else marked
  }

  /** Everything after cleaning. */
  function QuestionOf(cleaned: string): string {
    if IndexOf(cleaned, '?') == -1 then DefaultQuestion
    else Finish(CapWords(Trim(LastClause(cleaned))))
  }

  /**
   * `sanitizeToSingleQuestion`: the clause ending at the first `?` of the cleaned reply, cut to
   * twenty words and ending in `?`; the default question when the reply has no `?`.
   */
  function SanitizeToSingleQuestion(text: string): (r: string)
    ensures '?' !in Cleaned(text) ==> r == DefaultQuestion
    ensures '?' in Cleaned(text) ==> WellFormedQuestion(r)
  {
    QuestionOfShape(Cleaned(text));
    QuestionOf(Cleaned(text))
  }

  /** One `?`, and it comes last. */
  predicate SingleQuestion(q: string) {
    EndsWithMark(q) && forall i :: 0 <= i < |q| - 1 ==> q[i] != '?'
  }

  predicate NoBoundary(q: string) {
    forall i :: 0 <= i < |q| ==> !IsBoundary(q[i])
  }

  /** What sanitising promises of its result. */
  predicate WellFormedQuestion(q: string) {
    Clean(q) && SingleQuestion(q) && NoBoundary(q) && |Words(q)| <= MaxWords
  }

  /** The trimmed last clause is clean, has no boundary, and ends in its only `?`. */
  lemma ClauseIsQuestion(cleaned: string)
    requires Clean(cleaned) && '?' in cleaned
    ensures var q := Trim(LastClause(cleaned)); Clean(q) && SingleQuestion(q) && NoBoundary(q)
  {
    ClauseShape(cleaned);
    TrimQuestion(LastClause(cleaned));
  }

  /** The untrimmed clause keeps the cleaned text's spacing, has no boundary, and ends in its only `?`. */
  lemma ClauseShape(cleaned: string)
    requires Clean(cleaned) && '?' in cleaned
    ensures var clause := LastClause(cleaned);
      NoMarkup(clause) && OnlyPlainSpaces(clause) && NoDoubleWhitespace(clause) && SingleQuestion(clause) && NoBoundary(clause)
  {
    var clause := LastClause(cleaned);
    var e := IndexOf(cleaned, '?');
    var a := e + 1 - |clause|;
    SliceIsSpaced(cleaned, a, e + 1);
    SliceIsQuestion(cleaned, a, e);
  }

  /** A slice of clean text keeps its markup-free, single-space spacing. */
  lemma SliceIsSpaced(s: string, a: nat, b: nat)
    requires a <= b <= |s| && Clean(s)
    ensures var t := s[a..b]; NoMarkup(t) && OnlyPlainSpaces(t) && NoDoubleWhitespace(t)
  {
    SliceKeeps(s, a, b);
    SliceKeepsAll(s, a, b, c => !IsMarkup(c));
  }

  /** A boundary-free slice that ends at the first `?` is a single question. */
  lemma SliceIsQuestion(s: string, a: nat, e: nat)
    requires a <= e < |s| && s[e] == '?'
    requires forall i :: 0 <= i < e ==> s[i] != '?'
    requires forall i :: a <= i <= e ==> !IsBoundary(s[i])
    ensures var t := s[a..e + 1]; SingleQuestion(t) && NoBoundary(t)
  {
    var t := s[a..e + 1];
    forall i | 0 <= i < |t| ensures t[i] == s[a + i] {
    }
  }

  /** Trimming a spaced text that ends in its only `?` gives a clean question. */
  lemma TrimQuestion(s: string)
    requires NoMarkup(s) && OnlyPlainSpaces(s) && NoDoubleWhitespace(s)
    requires SingleQuestion(s) && NoBoundary(s)
    ensures var q := Trim(s); Clean(q) && SingleQuestion(q) && NoBoundary(q)
  {
    TrimEndingInText(s);
    var k := |s| - |Trim(s)|;
    SuffixIsSpaced(s, k);
    SuffixIsQuestion(s, k);
  }

  lemma SuffixIsSpaced(s: string, k: nat)
    requires k <= |s| && NoMarkup(s) && OnlyPlainSpaces(s) && NoDoubleWhitespace(s)
    ensures var q := s[k..]; NoMarkup(q) && OnlyPlainSpaces(q) && NoDoubleWhitespace(q)
  {
    assert s[k..] == s[k..|s|];
    SliceKeeps(s, k, |s|);
  }

  lemma SuffixIsQuestion(s: string, k: nat)
    requires k < |s| && SingleQuestion(s) && NoBoundary(s)
    ensures var q := s[k..]; SingleQuestion(q) && NoBoundary(q)
  {
    var q := s[k..];
    forall i | 0 <= i < |q| ensures q[i] == s[k + i] {
    }
  }

  /** A non-empty clean text is words joined by single spaces. */
  lemma CleanIsSpaceSeparated(q: string)
    requires Clean(q) && q != []
    ensures SpaceSeparated(q)
  {
    assert IsWhitespace(' ');
  }

  /** The words of a clean text are exactly its space-separated pieces. */
  lemma WordsOfClean(q: string)
    requires Clean(q) && q != []
    ensures Words(q) == Split(q, ' ')
    ensures forall i :: 0 <= i < |Split(q, ' ')| ==> Split(q, ' ')[i] != ""
  {
    CleanIsSpaceSeparated(q);
    SplitSpaceSeparated(q);
  }

  /** The first twenty words of a longer clean text, rejoined, are a proper prefix followed by a space. */
  lemma CapHead(q: string)
    requires Clean(q) && q != [] && |Split(q, ' ')| > MaxWords
    ensures var head := Join(Split(q, ' ')[..MaxWords], " ");
      0 < |head| && |head| + 1 < |q| && head == q[..|head|]
  {
    var ws := Split(q, ' ');
    WordsOfClean(q);
    JoinSplit(q, ' ');
    JoinSplitAt(ws, MaxWords, " ");
    var head, tail := Join(ws[..MaxWords], " "), Join(ws[MaxWords..], " ");
    assert q == head + " " + tail;
    assert ws[..MaxWords][0] == ws[0] && ws[MaxWords..][0] == ws[MaxWords];
    assert |head| >= |ws[0]| > 0;
    assert |tail| >= |ws[MaxWords]| > 0;
  }

  /** Twenty space-free pieces joined by spaces, with a `?` appended, are twenty words. */
  lemma CappedWords(ws: seq<string>)
    requires |ws| >= MaxWords
    requires forall i :: 0 <= i < |ws| ==> ' ' !in ws[i]
    ensures |Words(Join(ws[..MaxWords], " ") + "?")| <= MaxWords
  {
    var first := ws[..MaxWords];
    JoinAppendLast(first, "?", " ");
    var pieces := first[..MaxWords - 1] + [first[MaxWords - 1] + "?"];
    forall i | 0 <= i < |pieces| ensures ' ' !in pieces[i] {
      if i < MaxWords - 1 {
        assert pieces[i] == ws[i];
      } else {
        assert pieces[i] == ws[MaxWords - 1] + "?";
      }
    }
    SplitJoin(pieces, ' ');
  }

  /** Appending a `?` to a spaced, question-free prefix that starts with text gives a well-formed question. */
  lemma AppendMark(head: string)
    requires head != [] && !IsWhitespace(head[0])
    requires NoMarkup(head) && OnlyPlainSpaces(head) && NoDoubleWhitespace(head) && NoBoundary(head)
    requires forall i :: 0 <= i < |head| ==> head[i] != '?'
    ensures var r := head + "?"; Clean(r) && SingleQuestion(r) && NoBoundary(r)
  {
    var r := head + "?";
    forall i | 0 <= i < |head| ensures r[i] == head[i] {
    }
  }

  /** The prefix before a question's last character keeps its shape and has no `?`. */
  lemma QuestionPrefix(q: string, n: nat)
    requires Clean(q) && SingleQuestion(q) && NoBoundary(q) && n < |q|
    ensures var p := q[..n]; NoMarkup(p) && OnlyPlainSpaces(p) && NoDoubleWhitespace(p) && NoBoundary(p)
    ensures forall i :: 0 <= i < n ==> q[..n][i] != '?'
  {
    SliceIsSpaced(q, 0, n);
    assert q[0..n] == q[..n];
    forall i | 0 <= i < n ensures q[..n][i] == q[i] {
    }
  }

  /** Capping the words of a clean question keeps it a well-formed question. */
  lemma CapWordsShape(q: string)
    requires Clean(q) && SingleQuestion(q) && NoBoundary(q)
    ensures WellFormedQuestion(CapWords(q))
  {
    var ws := Split(q, ' ');
    WordsOfClean(q);
    if |ws| > MaxWords {
      CapHead(q);
      var head := Join(ws[..MaxWords], " ");
      QuestionPrefix(q, |head|);
      assert head[|head| - 1] != '?';
      AppendMark(head);
      CappedWords(ws);
    }
  }

  lemma QuestionOfShape(cleaned: string)
    requires Clean(cleaned)
    ensures '?' !in cleaned ==> QuestionOf(cleaned) == DefaultQuestion
    ensures '?' in cleaned ==> WellFormedQuestion(QuestionOf(cleaned))
  {
    if '?' in cleaned {
      var q := Trim(LastClause(cleaned));
      ClauseIsQuestion(cleaned);
      CapWordsShape(q);
      FinishWellFormed(CapWords(q));
    }
  }

  /**
   * What the sanitised reply says: the clause of the cleaned reply that ends at its first `?`,
   * trimmed; when that clause has more than twenty words, its first twenty words joined by single
   * spaces and followed by `?`.
   */
  lemma SanitizeClause(text: string)
    ensures var cleaned := Cleaned(text);
      '?' in cleaned ==>
        var q, r := Trim(LastClause(cleaned)), SanitizeToSingleQuestion(text);
        && (|Words(q)| <= MaxWords ==> r == q)
        && (|Words(q)| > MaxWords ==> r == Join(Words(q)[..MaxWords], " ") + "?")
  {
    var cleaned := Cleaned(text);
    if '?' in cleaned {
      var q := Trim(LastClause(cleaned));
      ClauseIsQuestion(cleaned);
      CapWordsMarks(q);
      if |Words(q)| <= MaxWords {
        assert CapWords(q) == q;
      }
    }
  }

  /** Capping a clean question adds a `?` to its first twenty words, which never end in one. */
  lemma CapWordsMarks(q: string)
    requires Clean(q) && SingleQuestion(q) && NoBoundary(q)
    ensures |Words(q)| > MaxWords ==> Finish(CapWords(q)) == Join(Words(q)[..MaxWords], " ") + "?"
    ensures |Words(q)| <= MaxWords ==> Finish(CapWords(q)) == q
  {
    var ws := Split(q, ' ');
    WordsOfClean(q);
    if |ws| > MaxWords {
      CapHead(q);
      var head := Join(ws[..MaxWords], " ");
      QuestionPrefix(q, |head|);
      assert head[|head| - 1] != '?';
      assert CapWords(q) == head + "?";
    }
  }

  /** The last step leaves a well-formed question alone. */
  lemma FinishWellFormed(q: string)
    requires WellFormedQuestion(q)
    ensures Finish(q) == q
  {
  }

  /** A well-formed question passes through sanitising unchanged. */
  lemma SanitizeFixesWellFormed(q: string)
    requires WellFormedQuestion(q)
    ensures SanitizeToSingleQuestion(q) == q
  {
    CleanedOfClean(q);
    ClauseOfQuestion(q);
    TrimOfTrimmed(q);
    CapWordsOfWellFormed(q);
    FinishWellFormed(q);
  }

  /** The clause of a single question with no boundary is all of it. */
  lemma ClauseOfQuestion(q: string)
    requires SingleQuestion(q) && NoBoundary(q)
    ensures IndexOf(q, '?') == |q| - 1 && LastClause(q) == q
  {
    FirstMarkLast(q);
    assert q[..|q|] == q;
  }

  lemma FirstMarkLast(q: string)
    requires SingleQuestion(q)
    ensures IndexOf(q, '?') == |q| - 1
  {
  }

  /** A well-formed question has at most twenty words, so capping leaves it alone. */
  lemma CapWordsOfWellFormed(q: string)
    requires WellFormedQuestion(q)
    ensures CapWords(q) == q
  {
  }

  /** Cleaning leaves clean text alone. */
  lemma CleanedOfClean(q: string)
    requires Clean(q)
    ensures Cleaned(q) == q
  {
    CollapseWhitespaceFixes(q);
    TrimOfTrimmed(q);
  }

  /** The default question is itself well-formed. */
  lemma DefaultWellFormed()
    ensures WellFormedQuestion(DefaultQuestion)
  {
    DefaultSpacing();
    DefaultMarks();
    WordCountBound(DefaultQuestion, ' ');
  }

  lemma DefaultSpacing()
    ensures NoMarkup(DefaultQuestion) && OnlyPlainSpaces(DefaultQuestion) && NoDoubleWhitespace(DefaultQuestion)
  {
    DefaultNoMarkup();
    DefaultPlainSpaces();
    SingleSpaced(DefaultQuestion);
  }

  lemma DefaultNoMarkup()
    ensures NoMarkup(DefaultQuestion)
  {
  }

  lemma DefaultPlainSpaces()
    ensures OnlyPlainSpaces(DefaultQuestion)
  {
  }

  lemma DefaultMarks()
    ensures Trimmed(DefaultQuestion) && SingleQuestion(DefaultQuestion) && NoBoundary(DefaultQuestion)
  {
  }

  /** With plain spaces only, no two adjacent spaces means no two adjacent whitespace characters. */
  lemma SingleSpaced(s: string)
    requires OnlyPlainSpaces(s)
    requires forall i :: 0 <= i < |s| - 1 ==> !(s[i] == ' ' && s[i + 1] == ' ')
    ensures NoDoubleWhitespace(s)
  {
  }

  /** Sanitising its own output returns it unchanged, whatever the reply. */
  lemma SanitizeIdempotent(text: string)
    ensures SanitizeToSingleQuestion(SanitizeToSingleQuestion(text)) == SanitizeToSingleQuestion(text)
  {
    DefaultWellFormed();
    SanitizeFixesWellFormed(SanitizeToSingleQuestion(text));
  }

  /**
   * The default question does not only come from a reply without a `?`: a reply that is the default
   * question itself has one, and gives the default back.
   */
  lemma DefaultFromQuestion()
    ensures '?' in Cleaned(DefaultQuestion) && SanitizeToSingleQuestion(DefaultQuestion) == DefaultQuestion
  {
    DefaultWellFormed();
    CleanedOfClean(DefaultQuestion);
    SanitizeFixesWellFormed(DefaultQuestion);
    assert DefaultQuestion[|DefaultQuestion| - 1] == '?';
  }

  // ---------------------------------------------------------------- chat history

  /** One turn of the engine's own history; `parts` is the turn's text. */
  datatype HistoryEntry = HistoryEntry(role: string, parts: string)

  datatype Part = Part(text: string)

  /** One turn in the vendor's history format. */
  datatype Content = Content(role: string, parts: seq<Part>)

  /** The assistant's turns are the model's; every other role is sent as the user's. */
  function VendorRole(role: string): (r: string)
    ensures r == "model" || r == "user"
    ensures r == "model" <==> role == "assistant"
  {
    if role == "assistant" then "model" else "user"
  }

  /** The history handed to the vendor: one content per turn, in order, each with the turn's text as its single part. */
  function ToChatHistory(history: seq<HistoryEntry>): (chat: seq<Content>)
    ensures |chat| == |history|
    ensures forall i :: 0 <= i < |history| ==>
      && (chat[i].role == "model" <==> history[i].role == "assistant")
      && (chat[i].role == "model" || chat[i].role == "user")
      && chat[i].parts == [Part(history[i].parts)]
  {
    seq(|history|, i requires 0 <= i < |history| => Content(VendorRole(history[i].role), [Part(history[i].parts)]))
  }

  /** The mapping works turn by turn: mapping a concatenation concatenates the mappings. */
  lemma ToChatHistoryAppend(a: seq<HistoryEntry>, b: seq<HistoryEntry>)
    ensures ToChatHistory(a + b) == ToChatHistory(a) + ToChatHistory(b)
  {
    var l, r := ToChatHistory(a + b), ToChatHistory(a) + ToChatHistory(b);
    forall i | 0 <= i < |l| ensures l[i] == r[i] {
      if i < |a| {
        assert (a + b)[i] == a[i];
      } else {
        assert (a + b)[i] == b[i - |a|];
      }
    }
  }

  // ---------------------------------------------------------------- retries

  /** What one `sendMessage` call does: it answers with text, or fails with an error message (empty when it has none). */
  datatype AttemptOutcome = Replied(text: string) | Failed(message: string)

  /** What `chatWithGemini` does in the end: it returns a question, or throws an error with a message. */
  datatype ChatResult = Answer(question: string) | Thrown(message: string)

  const DefaultRetries: int := 3

  const OverloadedMessage: string :=
    "\U{1F6A6} Google's AI is currently overloaded. Please wait a moment and try again. (This usually resolves in 30-60 seconds)"

  const GenericFailure: string := "Failed to generate response from Gemini"

  const RetriesExhausted: string := "Failed after multiple retries"

  /** An error counts as an overload when its message mentions `503` or `overloaded`. */
  predicate IsOverload(message: string) {
    Contains(message, "503") || Contains(message, "overloaded")
  }

  /** An overload is an error whose message has `503` or `overloaded` somewhere in it. */
  lemma OverloadIff(message: string)
    ensures IsOverload(message) <==>
      (exists i :: 0 <= i <= |message| && "503" <= message[i..]) ||
      (exists i :: 0 <= i <= |message| && "overloaded" <= message[i..])
  {
    ContainsIff(message, "503");
    ContainsIff(message, "overloaded");
  }

  predicate OverloadFailure(outcome: AttemptOutcome) {
    outcome.Failed? && IsOverload(outcome.message)
  }

  function Pow2(n: nat): (p: nat)
    ensures p >= 1
  {
    if n == 0 then 1 else 2 * Pow2(n - 1)
  }

  /** The wait after an overload on attempt `attempt`: `2^(attempt-1)` seconds, in milliseconds. */
  function Backoff(attempt: nat): nat
    requires attempt >= 1
  {
    Pow2(attempt - 1) * 1000
  }

  /**
   * `chatWithGemini`'s retry loop, with the vendor call `send(attempt)` as an oracle. It tries at most
   * `retries` times; every attempt but the last one made was an overload, after each of which it waited
   * the doubling backoff; the last attempt made decides: a reply is sanitised and returned, an overload
   * on the final allowed attempt throws the fixed overload message, any other error is rethrown with its
   * own message (or a generic one). With no attempt allowed it throws at once.
   */
  method ChatWithGemini(send: nat -> AttemptOutcome, retries: int) returns (result: ChatResult, attempts: nat, waits: seq<nat>)
    ensures retries < 1 ==> attempts == 0 && waits == [] && result == Thrown(RetriesExhausted)
    ensures retries >= 1 ==> 1 <= attempts <= retries && |waits| == attempts - 1
    ensures forall k :: 0 <= k < |waits| ==> waits[k] == Backoff(k + 1)
    ensures forall k :: 1 <= k < attempts ==> OverloadFailure(send(k))
    ensures attempts >= 1 && send(attempts).Replied? ==>
      result == Answer(SanitizeToSingleQuestion(send(attempts).text))
    ensures attempts >= 1 && OverloadFailure(send(attempts)) ==>
      attempts == retries && result == Thrown(OverloadedMessage)
    ensures attempts >= 1 && send(attempts).Failed? && !IsOverload(send(attempts).message) ==>
      result == Thrown(if send(attempts).message == "" then GenericFailure else send(attempts).message)
  {
    attempts, waits := 0, [];
    var attempt := 1;
    while attempt <= retries
      invariant 1 <= attempt && (attempt > 1 ==> attempt <= retries)
      invariant attempts == attempt - 1 && |waits| == attempt - 1
      invariant forall k :: 0 <= k < |waits| ==> waits[k] == Backoff(k + 1)
      invariant forall k :: 1 <= k < attempt ==> OverloadFailure(send(k))
      decreases retries - attempt
    {
      attempts := attempt;
      match send(attempt)
      case Replied(text) =>
        return Answer(SanitizeToSingleQuestion(text)), attempts, waits;
      case Failed(message) =>
        var overloaded := IsOverload(message);
        var isLastAttempt := attempt == retries;
        if overloaded && !isLastAttempt {
          waits := waits + [Backoff(attempt)];
          attempt := attempt + 1;
          continue;
        }
        if overloaded {
          return Thrown(OverloadedMessage), attempts, waits;
        }
        return Thrown(if message == "" then GenericFailure else message), attempts, waits;
    }
    result := Thrown(RetriesExhausted);
  }

  /**
   * `chatWithGemini` called without its `retries` argument: at most three attempts, and an
   * overload on the third ends with the overload message.
   */
  method ChatWithGeminiDefault(send: nat -> AttemptOutcome) returns (result: ChatResult, attempts: nat, waits: seq<nat>)
    ensures 1 <= attempts <= 3 && |waits| == attempts - 1
    ensures forall k :: 0 <= k < |waits| ==> waits[k] == Backoff(k + 1)
    ensures forall k :: 1 <= k < attempts ==> OverloadFailure(send(k))
    ensures OverloadFailure(send(attempts)) ==> attempts == 3 && result == Thrown(OverloadedMessage)
    ensures send(attempts).Replied? ==> result == Answer(SanitizeToSingleQuestion(send(attempts).text))
    ensures send(attempts).Failed? && !IsOverload(send(attempts).message) ==>
      result == Thrown(if send(attempts).message == "" then GenericFailure else send(attempts).message)
  {
    result, attempts, waits := ChatWithGemini(send, DefaultRetries);
  }

  function TotalWait(waits: seq<nat>): nat {
    if waits == [] then 0 else TotalWait(waits[..|waits| - 1]) + waits[|waits| - 1]
  }

  /** The backoffs double, and `n` of them add up to `(2^n - 1)` seconds. */
  lemma {:induction false} BackoffTotal(n: nat)
    ensures Backoff(1) == 1000
    ensures n >= 1 ==> Backoff(n + 1) == 2 * Backoff(n)
    ensures TotalWait(seq(n, k requires 0 <= k => Backoff(k + 1))) == (Pow2(n) - 1) * 1000
  {
    var ws := seq(n, k requires 0 <= k => Backoff(k + 1));
    if n >= 1 {
      BackoffTotal(n - 1);
      assert ws[..n - 1] == seq(n - 1, k requires 0 <= k => Backoff(k + 1));
    }
  }
}
