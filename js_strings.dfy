/**
 * The JavaScript string built-ins the tutoring engine relies on, over `seq<char>`.
 * Lengths and indices count characters; case mapping is ASCII only.
 */
module JsStrings {

  /** The characters of the regular-expression class `\s`; `String.prototype.trim` strips the same set. */
  predicate IsWhitespace(c: char) {
    || c == ' ' || c == '\t' || c == '\n' || c == '\U{B}' || c == '\U{C}' || c == '\r'
    || c == '\U{A0}' || c == '\U{1680}' || ('\U{2000}' <= c <= '\U{200A}')
    || c == '\U{2028}' || c == '\U{2029}' || c == '\U{202F}' || c == '\U{205F}'
    || c == '\U{3000}' || c == '\U{FEFF}'
  }

  /** The class `[\u0000-\u001F\u007F]`. */
  predicate IsControl(c: char) {
    c <= '\U{1F}' || c == '\U{7F}'
  }

  /** The class `\w` that decides where `\b` sits. */
  predicate IsWordChar(c: char) {
    ('a' <= c <= 'z') || ('A' <= c <= 'Z') || ('0' <= c <= '9') || c == '_'
  }

  predicate IsDigit(c: char) {
    '0' <= c <= '9'
  }

  function ToLowerChar(c: char): (r: char)
    ensures !('A' <= r <= 'Z')
    ensures IsWhitespace(r) <==> IsWhitespace(c)
    ensures IsDigit(r) <==> IsDigit(c)
    ensures !('A' <= c <= 'Z') ==> r == c
    ensures 'A' <= c <= 'Z' ==> 'a' <= r <= 'z'
  {
    if 'A' <= c <= 'Z' then (c as int + 32) as char else c
  }

  /** `toLowerCase()`, restricted to ASCII letters. */
  function Lower(s: string): (r: string)
    ensures |r| == |s|
    ensures forall i :: 0 <= i < |s| ==> r[i] == ToLowerChar(s[i])
  {
    seq(|s|, i requires 0 <= i < |s| => ToLowerChar(s[i]))
  }

  lemma LowerIdempotent(s: string)
    ensures Lower(Lower(s)) == Lower(s)
  {
  }

  /** Lower-casing works character by character. */
  lemma LowerAppend(a: string, b: string)
    ensures Lower(a + b) == Lower(a) + Lower(b)
  {
  }

  /** Lower-casing keeps every character that is not an ASCII letter where it is, and makes no new one. */
  lemma LowerKeepsNonLetters(s: string, c: char)
    requires !('A' <= c <= 'Z') && !('a' <= c <= 'z')
    ensures c in Lower(s) <==> c in s
  {
    if c in s {
      var i :| 0 <= i < |s| && s[i] == c;
      assert Lower(s)[i] == c;
    }
    if c in Lower(s) {
      var i :| 0 <= i < |s| && Lower(s)[i] == c;
      assert s[i] == c;
    }
  }

  /** Every character of `r` occurs somewhere in `s`. */
  predicate CharsFrom(r: string, s: string) {
    forall i :: 0 <= i < |r| ==> r[i] in s
  }

  /** `s.includes(p)`. */
  predicate Contains(s: string, p: string)
    decreases |s|
  {
    p <= s || (s != [] && Contains(s[1..], p))
  }

  /** `p` occurring at position `i` is enough for `Contains`. */
  lemma {:induction false} ContainsAt(s: string, p: string, i: nat)
    requires i <= |s| && p <= s[i..]
    ensures Contains(s, p)
  {
    if i > 0 {
      assert s[1..][i - 1..] == s[i..];
      ContainsAt(s[1..], p, i - 1);
    }
  }

  /** `includes` holds exactly when `p` starts at some position of `s`. */
  lemma {:induction false} ContainsIff(s: string, p: string)
    ensures Contains(s, p) <==> exists i :: 0 <= i <= |s| && p <= s[i..]
    decreases |s|
  {
    if exists i :: 0 <= i <= |s| && p <= s[i..] {
      var i :| 0 <= i <= |s| && p <= s[i..];
      ContainsAt(s, p, i);
    }
    if Contains(s, p) {
      if p <= s {
        assert s[0..] == s;
      } else {
        ContainsIff(s[1..], p);
        var i :| 0 <= i <= |s[1..]| && p <= s[1..][i..];
        assert s[1..][i..] == s[i + 1..];
      }
    }
  }

  /** `indexOf(c)`: the first position of `c`, or -1. */
  function IndexOf(s: string, c: char): (r: int)
    ensures -1 <= r < |s|
    ensures r == -1 <==> c !in s
    ensures r >= 0 ==> s[r] == c && forall i :: 0 <= i < r ==> s[i] != c
  {
    if s == [] then -1
    else if s[0] == c then 0
    else
      var k := IndexOf(s[1..], c);
      if k == -1 then -1 else k + 1
  }

  /** `lastIndexOf(c)`: the last position of `c`, or -1. */
  function LastIndexOf(s: string, c: char): (r: int)
    ensures -1 <= r < |s|
    ensures r == -1 <==> c !in s
    ensures r >= 0 ==> s[r] == c && forall i :: r < i < |s| ==> s[i] != c
  {
    if s == [] then -1
    else if s[|s| - 1] == c then |s| - 1
    else
      var init := s[..|s| - 1];
      var k := LastIndexOf(init, c);
      assert forall i :: 0 <= i < |init| ==> init[i] == s[i];
      k
  }

  /** `trimStart()`: drops the longest whitespace prefix. */
  function TrimStart(s: string): (r: string)
    ensures |r| <= |s| && r == s[|s| - |r|..]
    ensures r == [] || !IsWhitespace(r[0])
    ensures forall i :: 0 <= i < |s| - |r| ==> IsWhitespace(s[i])
  {
    if s != [] && IsWhitespace(s[0]) then TrimStart(s[1..]) else s
  }

  /** `trimEnd()`: drops the longest whitespace suffix. */
  function TrimEnd(s: string): (r: string)
    ensures |r| <= |s| && r == s[..|r|]
    ensures r == [] || !IsWhitespace(r[|r| - 1])
    ensures forall i :: |r| <= i < |s| ==> IsWhitespace(s[i])
  {
    if s != [] && IsWhitespace(s[|s| - 1]) then TrimEnd(s[..|s| - 1]) else s
  }

  /** `trim()`: drops leading and trailing whitespace. */
  function Trim(s: string): (r: string)
    ensures |r| <= |s|
    ensures Trimmed(r)
  {
    TrimEnd(TrimStart(s))
  }

  /** What `trim()` keeps is one contiguous run of its input, starting after the leading whitespace. */
  lemma TrimIsSlice(s: string)
    ensures var a := |s| - |TrimStart(s)|;
      a + |Trim(s)| <= |s| && forall i :: 0 <= i < |Trim(s)| ==> Trim(s)[i] == s[a + i]
  {
    var t := TrimStart(s);
    var r := TrimEnd(t);
    var a := |s| - |t|;
    assert t == s[a..];
    assert r == t[..|r|];
    forall i | 0 <= i < |r| ensures r[i] == s[a + i] {
      assert r[i] == t[i];
    }
  }

  /**
   * `trim()` drops only whitespace: what it keeps is the run of its input that starts after the
   * leading whitespace, and every character before or after that run is whitespace.
   */
  lemma TrimDropsOnlyWhitespace(s: string)
    ensures var r, a := Trim(s), |s| - |TrimStart(s)|;
      && a + |r| <= |s| && (forall i :: 0 <= i < |r| ==> r[i] == s[a + i])
      && (forall i :: 0 <= i < a ==> IsWhitespace(s[i]))
      && (forall i :: a + |r| <= i < |s| ==> IsWhitespace(s[i]))
  {
    TrimIsSlice(s);
    TrimTail(s);
  }

  /** Everything after what `trim()` keeps is whitespace. */
  lemma TrimTail(s: string)
    ensures var a := |s| - |TrimStart(s)|;
      forall i :: a + |Trim(s)| <= i < |s| ==> IsWhitespace(s[i])
  {
    var t := TrimStart(s);
    var a := |s| - |t|;
    var n := |TrimEnd(t)|;
    forall i | a + n <= i < |s| ensures IsWhitespace(s[i]) {
      assert t == s[a..];
      assert s[i] == t[i - a];
    }
  }

  lemma ConcatAssoc<T>(h: seq<T>, x: seq<T>, y: seq<T>, all: seq<T>, left: seq<T>)
    requires all == h + (x + y) && left == h + x
    ensures all == left + y
  {
  }

  predicate AllWhitespace(s: string) {
    forall i :: 0 <= i < |s| ==> IsWhitespace(s[i])
  }

  /** A slice keeps the spacing properties below. */
  lemma SliceKeeps(s: string, a: nat, b: nat)
    requires a <= b <= |s|
    ensures OnlyPlainSpaces(s) ==> OnlyPlainSpaces(s[a..b])
    ensures NoDoubleWhitespace(s) ==> NoDoubleWhitespace(s[a..b])
  {
    var t := s[a..b];
    if NoDoubleWhitespace(s) {
      forall i | 0 <= i < |t| - 1 ensures !(IsWhitespace(t[i]) && IsWhitespace(t[i + 1])) {
        assert t[i] == s[a + i] && t[i + 1] == s[a + i + 1];
      }
    }
  }

  /** `trim()` keeps the spacing properties below. */
  lemma TrimKeepsSpacing(s: string)
    ensures OnlyPlainSpaces(s) ==> OnlyPlainSpaces(Trim(s))
    ensures NoDoubleWhitespace(s) ==> NoDoubleWhitespace(Trim(s))
  {
    var t := TrimStart(s);
    assert t == s[|s| - |t|..|s|];
    SliceKeeps(s, |s| - |t|, |s|);
    var r := TrimEnd(t);
    assert r == t[0..|r|];
    SliceKeeps(t, 0, |r|);
  }

  /** A property of every character of a string holds of every character `trim()` keeps. */
  lemma TrimKeeps(s: string, p: char -> bool)
    requires forall i :: 0 <= i < |s| ==> p(s[i])
    ensures forall i :: 0 <= i < |Trim(s)| ==> p(Trim(s)[i])
  {
    TrimIsSlice(s);
  }

  /** A property of every character of a string holds of every character of a slice of it. */
  lemma SliceKeepsAll(s: string, a: nat, b: nat, p: char -> bool)
    requires a <= b <= |s| && forall i :: 0 <= i < |s| ==> p(s[i])
    ensures forall i :: 0 <= i < b - a ==> p(s[a..b][i])
  {
  }

  /** A string ending in a non-whitespace character loses only its leading whitespace to `trim()`. */
  lemma TrimEndingInText(s: string)
    requires s != [] && !IsWhitespace(s[|s| - 1])
    ensures Trim(s) == TrimStart(s) && Trim(s) != []
    ensures Trim(s) == s[|s| - |Trim(s)|..]
  {
    var t := TrimStart(s);
    assert t != [] && t[|t| - 1] == s[|s| - 1];
  }

  /** `trim()` leaves a trimmed string alone. */
  lemma TrimOfTrimmed(s: string)
    requires Trimmed(s)
    ensures Trim(s) == s
  {
  }

  predicate Trimmed(s: string) {
    s == [] || (!IsWhitespace(s[0]) && !IsWhitespace(s[|s| - 1]))
  }

  /** Every whitespace character is a plain space. */
  predicate OnlyPlainSpaces(s: string) {
    forall i :: 0 <= i < |s| ==> IsWhitespace(s[i]) ==> s[i] == ' '
  }

  /** No two whitespace characters are adjacent. */
  predicate NoDoubleWhitespace(s: string) {
    forall i :: 0 <= i < |s| - 1 ==> !(IsWhitespace(s[i]) && IsWhitespace(s[i + 1]))
  }

  /** `replace(/\s+/g, ' ')`: each maximal run of whitespace becomes one space. */
  function CollapseWhitespace(s: string): (r: string)
    ensures s == [] <==> r == []
    ensures s != [] ==> (IsWhitespace(r[0]) <==> IsWhitespace(s[0]))
    decreases |s|
  {
    if s == [] then []
    else if IsWhitespace(s[0]) then [' '] + CollapseWhitespace(TrimStart(s[1..]))
    else [s[0]] + CollapseWhitespace(s[1..])
  }

  /** The input without its first character, and also without the whitespace after it when it is whitespace. */
  function CollapseRest(s: string): (t: string)
    requires s != []
    ensures |t| < |s| && t == s[|s| - |t|..]
    ensures IsWhitespace(s[0]) ==> t == [] || !IsWhitespace(t[0])
  {
    if IsWhitespace(s[0]) then TrimStart(s[1..]) else s[1..]
  }

  /** What a whitespace run at the front of the input, or its first character, becomes. */
  function CollapseHead(s: string): (c: char)
    requires s != []
    ensures c == ' ' || c == s[0]
    ensures IsWhitespace(c) <==> IsWhitespace(s[0])
  {
    if IsWhitespace(s[0]) then ' ' else s[0]
  }

  lemma CollapseUnfold(s: string)
    requires s != []
    ensures CollapseWhitespace(s) == [CollapseHead(s)] + CollapseWhitespace(CollapseRest(s))
  {
  }

  /** The collapsed string has only single plain spaces. */
  lemma {:induction false} CollapseSpacing(s: string)
    ensures OnlyPlainSpaces(CollapseWhitespace(s)) && NoDoubleWhitespace(CollapseWhitespace(s))
    decreases |s|
  {
    if s != [] {
      var t := CollapseRest(s);
      CollapseSpacing(t);
      CollapseUnfold(s);
      var c := CollapseWhitespace(t);
      var r := CollapseWhitespace(s);
      assert IsWhitespace(s[0]) ==> c == [] || !IsWhitespace(c[0]);
      forall i | 0 <= i < |r| ensures IsWhitespace(r[i]) ==> r[i] == ' ' {
        if i > 0 {
          assert r[i] == c[i - 1];
        }
      }
      forall i | 0 <= i < |r| - 1 ensures !(IsWhitespace(r[i]) && IsWhitespace(r[i + 1])) {
        assert r[i + 1] == c[i];
        if i > 0 {
          assert r[i] == c[i - 1];
        }
      }
    }
  }

  lemma SuffixKeeps(s: string, k: nat, p: char -> bool)
    requires k <= |s| && forall i :: 0 <= i < |s| ==> p(s[i])
    ensures forall i :: 0 <= i < |s| - k ==> p(s[k..][i])
  {
  }

  /** A property of every character of a string, and of the space, holds of every character of its collapsed form. */
  lemma {:induction false} CollapseKeeps(s: string, p: char -> bool)
    requires p(' ') && forall i :: 0 <= i < |s| ==> p(s[i])
    ensures forall i :: 0 <= i < |CollapseWhitespace(s)| ==> p(CollapseWhitespace(s)[i])
    decreases |s|
  {
    if s != [] {
      var t := CollapseRest(s);
      SuffixKeeps(s, |s| - |t|, p);
      CollapseKeeps(t, p);
      CollapseUnfold(s);
      var c := CollapseWhitespace(t);
      var r := CollapseWhitespace(s);
      assert p(CollapseHead(s));
      forall i | 0 <= i < |r| ensures p(r[i]) {
        if i > 0 {
          assert r[i] == c[i - 1];
        }
      }
    }
  }

  /** A string that already has the shape `CollapseWhitespace` produces is left alone. */
  lemma {:induction false} CollapseWhitespaceFixes(s: string)
    requires OnlyPlainSpaces(s) && NoDoubleWhitespace(s)
    ensures CollapseWhitespace(s) == s
    decreases |s|
  {
    if s != [] {
      assert OnlyPlainSpaces(s[1..]) && NoDoubleWhitespace(s[1..]);
      if IsWhitespace(s[0]) {
        assert s[1..] == [] || !IsWhitespace(s[1..][0]);
        assert TrimStart(s[1..]) == s[1..];
      }
      CollapseWhitespaceFixes(s[1..]);
    }
  }

  /** `split(sep)` for a one-character separator; like JavaScript it never yields an empty list. */
  function Split(s: string, sep: char): (r: seq<string>)
    ensures |r| >= 1
    ensures forall i :: 0 <= i < |r| ==> sep !in r[i]
  {
    if s == [] then [""]
    else
      var rest := Split(s[1..], sep);
      if s[0] == sep then [""] + rest
      else [[s[0]] + rest[0]] + rest[1..]
  }

  /** `join(sep)`. */
  function Join(ws: seq<string>, sep: string): string {
    if |ws| == 0 then ""
    else if |ws| == 1 then ws[0]
    else ws[0] + sep + Join(ws[1..], sep)
  }

  /** `filter(Boolean)` on a list of strings: drops the empty ones. */
  function NonEmptyWords(ws: seq<string>): (r: seq<string>)
    ensures |r| <= |ws|
    ensures forall i :: 0 <= i < |r| ==> r[i] != ""
    ensures (forall i :: 0 <= i < |ws| ==> ws[i] != "") ==> r == ws
  {
    if ws == [] then []
    else if ws[0] == "" then NonEmptyWords(ws[1..])
    else [ws[0]] + NonEmptyWords(ws[1..])
  }

  /** `split(/\s+/)`: cuts at every maximal run of whitespace; never yields an empty list. */
  function SplitWhitespace(s: string): (r: seq<string>)
    ensures |r| >= 1
    ensures forall i :: 0 <= i < |r| ==> forall j :: 0 <= j < |r[i]| ==> !IsWhitespace(r[i][j])
    decreases |s|
  {
    if s == [] then [""]
    else if IsWhitespace(s[0]) then [""] + SplitWhitespace(TrimStart(s[1..]))
    else
      var rest := SplitWhitespace(s[1..]);
      [[s[0]] + rest[0]] + rest[1..]
  }

  /**
   * The pieces of `split(/\s+/)`, joined by single spaces, give the input with every whitespace
   * run turned into one space. As no piece holds whitespace, this pins every piece.
   */
  lemma {:induction false} SplitWhitespaceJoin(s: string)
    ensures Join(SplitWhitespace(s), " ") == CollapseWhitespace(s)
    decreases |s|
  {
    if s != [] {
      if IsWhitespace(s[0]) {
        var t := TrimStart(s[1..]);
        SplitWhitespaceJoin(t);
        JoinAfterEmpty(SplitWhitespace(t), " ");
      } else {
        SplitWhitespaceJoin(s[1..]);
        JoinGrowHead(s[0], SplitWhitespace(s[1..]), " ");
      }
    }
  }

  lemma JoinAfterEmpty(ws: seq<string>, sep: string)
    requires |ws| >= 1
    ensures Join([""] + ws, sep) == sep + Join(ws, sep)
  {
    assert ([""] + ws)[1..] == ws;
  }

  lemma JoinGrowHead(c: char, ws: seq<string>, sep: string)
    requires |ws| >= 1
    ensures Join([[c] + ws[0]] + ws[1..], sep) == [c] + Join(ws, sep)
  {
    var grown := [[c] + ws[0]] + ws[1..];
    assert grown[1..] == ws[1..];
    if |ws| > 1 {
      assert [c] + ws[0] + sep + Join(ws[1..], sep) == [c] + (ws[0] + sep + Join(ws[1..], sep));
    }
  }

  // ---------------------------------------------------------------- what the whitespace rules keep

  /** The words of a string: `split(/\s+/).filter(Boolean)`. */
  function WordsOf(s: string): seq<string> {
    NonEmptyWords(SplitWhitespace(s))
  }

  /** A string that starts with a non-whitespace character, or is empty, has no leading whitespace to drop. */
  lemma TrimStartOfText(s: string)
    requires s == [] || !IsWhitespace(s[0])
    ensures TrimStart(s) == s
  {
  }

  /** Collapsing whitespace runs cuts the string into exactly the same pieces. */
  lemma {:induction false} CollapseKeepsPieces(s: string)
    ensures SplitWhitespace(CollapseWhitespace(s)) == SplitWhitespace(s)
    decreases |s|
  {
    if s != [] {
      var t := CollapseRest(s);
      CollapseKeepsPieces(t);
      CollapseUnfold(s);
      var x := CollapseWhitespace(s);
      assert x[1..] == CollapseWhitespace(t);
      if IsWhitespace(s[0]) {
        TrimStartOfText(CollapseWhitespace(t));
      }
    }
  }

  /** Dropping the empty pieces of a concatenation drops them from each part. */
  lemma {:induction false} NonEmptyWordsAppend(a: seq<string>, b: seq<string>)
    ensures NonEmptyWords(a + b) == NonEmptyWords(a) + NonEmptyWords(b)
  {
    if a != [] {
      NonEmptyWordsAppend(a[1..], b);
      NonEmptyWordsConsAppend(a, b);
      NonEmptyWordsCons(a);
      var h := if a[0] == "" then [] else [a[0]];
      ConcatAssoc(h, NonEmptyWords(a[1..]), NonEmptyWords(b), NonEmptyWords(a + b), NonEmptyWords(a));
    } else {
      assert a + b == b;
    }
  }

  /** Every string `filter(Boolean)` keeps comes from the list. */
  lemma {:induction false} NonEmptyWordsFromList(ws: seq<string>)
    ensures forall i :: 0 <= i < |NonEmptyWords(ws)| ==> NonEmptyWords(ws)[i] in ws
  {
    if ws != [] {
      NonEmptyWordsFromList(ws[1..]);
      NonEmptyWordsCons(ws);
      var r, t := NonEmptyWords(ws), NonEmptyWords(ws[1..]);
      forall i | 0 <= i < |r| ensures r[i] in ws {
        var j := if ws[0] == "" then i else i - 1;
        if j >= 0 {
          assert r[i] == t[j];
          var k :| 0 <= k < |ws[1..]| && ws[1..][k] == t[j];
          assert ws[k + 1] == r[i];
        }
      }
    }
  }

  lemma NonEmptyWordsConsAppend(a: seq<string>, b: seq<string>)
    requires a != []
    ensures NonEmptyWords(a + b) == (if a[0] == "" then [] else [a[0]]) + NonEmptyWords(a[1..] + b)
  {
    NonEmptyWordsCons(a + b);
    assert (a + b)[0] == a[0] && (a + b)[1..] == a[1..] + b;
  }

  lemma NonEmptyWordsCons(ws: seq<string>)
    requires ws != []
    ensures NonEmptyWords(ws) == (if ws[0] == "" then [] else [ws[0]]) + NonEmptyWords(ws[1..])
  {
  }

  /** Leading whitespace only adds an empty first piece. */
  lemma TrimStartKeepsWords(s: string)
    ensures WordsOf(TrimStart(s)) == WordsOf(s)
  {
    if s != [] && IsWhitespace(s[0]) {
      var rest := SplitWhitespace(TrimStart(s[1..]));
      assert ([""] + rest)[1..] == rest;
    }
  }

  /** Text ending in a non-whitespace character keeps its leading whitespace whatever follows it. */
  lemma {:induction false} TrimStartAppend(x: string, y: string)
    requires x != [] && !IsWhitespace(x[|x| - 1])
    ensures TrimStart(x + y) == TrimStart(x) + y
    decreases |x|
  {
    if IsWhitespace(x[0]) {
      assert (x + y)[1..] == x[1..] + y;
      TrimStartAppend(x[1..], y);
    }
  }

  /** Trailing whitespace after text only adds an empty last piece. */
  lemma {:induction false} SplitTrailingWhitespace(s: string, w: string)
    requires s == [] || !IsWhitespace(s[|s| - 1])
    requires w != [] && AllWhitespace(w)
    ensures SplitWhitespace(s + w) == SplitWhitespace(s) + [""]
    decreases |s|
  {
    if s == [] {
      SplitAllWhitespace(w);
      assert s + w == w;
    } else if IsWhitespace(s[0]) {
      var t := TrimStart(s[1..]);
      assert t != [] && t[|t| - 1] == s[|s| - 1];
      SplitTrailingWhitespace(t, w);
      SplitSpaceThenText(s, w);
    } else {
      SplitTrailingWhitespace(s[1..], w);
      SplitCharThenText(s, w);
    }
  }

  lemma SplitAllWhitespace(w: string)
    requires w != [] && AllWhitespace(w)
    ensures SplitWhitespace(w) == ["", ""]
  {
    assert TrimStart(w[1..]) == [];
  }

  lemma SplitSpaceThenText(s: string, w: string)
    requires s != [] && IsWhitespace(s[0]) && !IsWhitespace(s[|s| - 1])
    requires SplitWhitespace(TrimStart(s[1..]) + w) == SplitWhitespace(TrimStart(s[1..])) + [""]
    ensures SplitWhitespace(s + w) == SplitWhitespace(s) + [""]
  {
    SplitSpacePlus(s, w);
    SplitAtSpace(s);
    var t := TrimStart(s[1..]);
    AppendAfterHead(SplitWhitespace(s + w), SplitWhitespace(t + w), SplitWhitespace(t), SplitWhitespace(s));
  }

  lemma AppendAfterHead(all: seq<string>, tail: seq<string>, pieces: seq<string>, before: seq<string>)
    requires all == [""] + tail && tail == pieces + [""] && before == [""] + pieces
    ensures all == before + [""]
  {
  }

  lemma SplitSpacePlus(s: string, w: string)
    requires s != [] && IsWhitespace(s[0]) && !IsWhitespace(s[|s| - 1])
    ensures SplitWhitespace(s + w) == [""] + SplitWhitespace(TrimStart(s[1..]) + w)
  {
    SplitAtSpace(s + w);
    TrimStartOfTail(s, w);
  }

  lemma SplitAtSpace(x: string)
    requires x != [] && IsWhitespace(x[0])
    ensures SplitWhitespace(x) == [""] + SplitWhitespace(TrimStart(x[1..]))
  {
  }

  lemma TrimStartOfTail(s: string, w: string)
    requires s != [] && IsWhitespace(s[0]) && !IsWhitespace(s[|s| - 1])
    ensures TrimStart((s + w)[1..]) == TrimStart(s[1..]) + w
  {
    assert |s| >= 2 && s[1..][|s| - 2] == s[|s| - 1];
    assert (s + w)[1..] == s[1..] + w;
    TrimStartAppend(s[1..], w);
  }

  lemma SplitCharThenText(s: string, w: string)
    requires s != [] && !IsWhitespace(s[0])
    requires SplitWhitespace(s[1..] + w) == SplitWhitespace(s[1..]) + [""]
    ensures SplitWhitespace(s + w) == SplitWhitespace(s) + [""]
  {
    assert (s + w)[1..] == s[1..] + w;
    var rest := SplitWhitespace(s[1..]);
    assert (rest + [""])[1..] == rest[1..] + [""];
  }

  /** Trailing whitespace holds no word. */
  lemma TrimEndKeepsWords(s: string)
    ensures WordsOf(TrimEnd(s)) == WordsOf(s)
  {
    var r := TrimEnd(s);
    if |r| < |s| {
      var w := s[|r|..];
      assert s == r + w;
      SplitTrailingWhitespace(r, w);
      NonEmptyWordsAppend(SplitWhitespace(r), [""]);
    }
  }

  /** `trim()` keeps every word, in order. */
  lemma TrimKeepsWords(s: string)
    ensures WordsOf(Trim(s)) == WordsOf(s)
  {
    TrimStartKeepsWords(s);
    TrimEndKeepsWords(TrimStart(s));
  }

  /** Collapsing whitespace runs and trimming keeps every word, in order. */
  lemma CollapseTrimKeepsWords(s: string)
    ensures WordsOf(Trim(CollapseWhitespace(s))) == WordsOf(s)
  {
    TrimKeepsWords(CollapseWhitespace(s));
    CollapseKeepsPieces(s);
  }

  // ---------------------------------------------------------------- split / join

  lemma JoinConsFirst(x: char, w: string, tail: seq<string>, sep: string)
    ensures Join([[x] + w] + tail, sep) == [x] + Join([w] + tail, sep)
  {
    assert ([[x] + w] + tail)[1..] == tail;
    assert ([w] + tail)[1..] == tail;
  }

  /** Joining the pieces of a split with the separator restores the string. */
  lemma {:induction false} JoinSplit(s: string, sep: char)
    ensures Join(Split(s, sep), [sep]) == s
  {
    if s != [] {
      var rest := Split(s[1..], sep);
      JoinSplit(s[1..], sep);
      if s[0] == sep {
        assert ([""] + rest)[1..] == rest;
      } else {
        JoinConsFirst(s[0], rest[0], rest[1..], [sep]);
        assert [rest[0]] + rest[1..] == rest;
      }
    }
  }

  lemma {:induction false} SplitOfSeparatorFree(w: string, sep: char)
    requires sep !in w
    ensures Split(w, sep) == [w]
  {
    if w != [] {
      assert sep !in w[1..];
      SplitOfSeparatorFree(w[1..], sep);
      assert [w[0]] + w[1..] == w;
    }
  }

  lemma {:induction false} SplitAfterFirstPiece(a: string, b: string, sep: char)
    requires sep !in a
    ensures Split(a + [sep] + b, sep) == [a] + Split(b, sep)
  {
    if a == [] {
      assert a + [sep] + b == [sep] + b;
      assert ([sep] + b)[1..] == b;
    } else {
      assert (a + [sep] + b)[1..] == a[1..] + [sep] + b;
      assert sep !in a[1..];
      SplitAfterFirstPiece(a[1..], b, sep);
      assert [a[0]] + a[1..] == a;
    }
  }

  /** Splitting a join of separator-free pieces gives the pieces back. */
  lemma {:induction false} SplitJoin(ws: seq<string>, sep: char)
    requires |ws| >= 1
    requires forall i :: 0 <= i < |ws| ==> sep !in ws[i]
    ensures Split(Join(ws, [sep]), sep) == ws
  {
    if |ws| == 1 {
      SplitOfSeparatorFree(ws[0], sep);
    } else {
      SplitJoin(ws[1..], sep);
      SplitAfterFirstPiece(ws[0], Join(ws[1..], [sep]), sep);
      assert [ws[0]] + ws[1..] == ws;
    }
  }

  /** Joining a list is joining its first `k` pieces, the separator, then the rest. */
  lemma {:induction false} JoinSplitAt(ws: seq<string>, k: nat, sep: string)
    requires 0 < k < |ws|
    ensures Join(ws, sep) == Join(ws[..k], sep) + sep + Join(ws[k..], sep)
  {
    if k > 1 {
      JoinSplitAt(ws[1..], k - 1, sep);
      assert ws[1..][..k - 1] == ws[..k][1..];
      assert ws[1..][k - 1..] == ws[k..];
    }
  }

  /** Appending to a join is appending to its last piece. */
  lemma {:induction false} JoinAppendLast(ws: seq<string>, x: string, sep: string)
    requires |ws| >= 1
    ensures Join(ws, sep) + x == Join(ws[..|ws| - 1] + [ws[|ws| - 1] + x], sep)
  {
    if |ws| > 1 {
      JoinAppendLast(ws[1..], x, sep);
      var ws' := ws[..|ws| - 1] + [ws[|ws| - 1] + x];
      assert ws'[0] == ws[0] && |ws'| == |ws|;
      assert ws'[1..] == ws[1..][..|ws| - 2] + [ws[|ws| - 1] + x];
      assert Join(ws', sep) == ws[0] + sep + (Join(ws[1..], sep) + x);
    }
  }

  /** A non-empty string with single plain spaces between non-space runs and none at the ends. */
  predicate SpaceSeparated(s: string) {
    && s != []
    && s[0] != ' ' && s[|s| - 1] != ' '
    && forall i :: 0 <= i < |s| - 1 ==> !(s[i] == ' ' && s[i + 1] == ' ')
  }

  /** Splitting a space-separated string at spaces yields no empty piece. */
  lemma {:induction false} SplitSpaceSeparated(s: string)
    requires SpaceSeparated(s)
    ensures forall i :: 0 <= i < |Split(s, ' ')| ==> Split(s, ' ')[i] != ""
    decreases |s|
  {
    var rest := Split(s[1..], ' ');
    if |s| > 1 {
      if s[1] == ' ' {
        assert s[1..][1..] == s[2..];
        assert SpaceSeparated(s[2..]);
        SplitSpaceSeparated(s[2..]);
        assert rest == [""] + Split(s[2..], ' ');
      } else {
        assert SpaceSeparated(s[1..]);
        SplitSpaceSeparated(s[1..]);
      }
    }
    assert Split(s, ' ') == [[s[0]] + rest[0]] + rest[1..];
  }

  /** The number of characters in all pieces together. */
  function TotalLength(ws: seq<string>): nat {
    if ws == [] then 0 else |ws[0]| + TotalLength(ws[1..])
  }

  lemma TotalLengthCons(w: string, ws: seq<string>)
    ensures TotalLength([w] + ws) == |w| + TotalLength(ws)
  {
    assert ([w] + ws)[1..] == ws;
  }

  /** The pieces of a split and the separators between them make up the whole string. */
  lemma {:induction false} SplitLength(s: string, sep: char)
    ensures TotalLength(Split(s, sep)) + |Split(s, sep)| == |s| + 1
  {
    if s != [] {
      var rest := Split(s[1..], sep);
      SplitLength(s[1..], sep);
      if s[0] == sep {
        TotalLengthCons("", rest);
      } else {
        TotalLengthCons([s[0]] + rest[0], rest[1..]);
        assert TotalLength(rest) == |rest[0]| + TotalLength(rest[1..]);
      }
    }
  }

  /** Each non-empty piece has at least one character. */
  lemma {:induction false} NonEmptyWordsBound(ws: seq<string>)
    ensures |NonEmptyWords(ws)| <= TotalLength(ws)
  {
    if ws != [] {
      NonEmptyWordsBound(ws[1..]);
    }
  }

  /** `n` words need `n` characters and `n - 1` separators between them. */
  lemma WordCountBound(s: string, sep: char)
    ensures 2 * |NonEmptyWords(Split(s, sep))| <= |s| + 1
  {
    SplitLength(s, sep);
    NonEmptyWordsBound(Split(s, sep));
  }
}
