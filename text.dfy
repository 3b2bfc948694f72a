/**
  Stop-word removal (src/embedder.py:22): `text.split()`, a filter on the
  lowercase form of each token and `" ".join(...)`.

  `Split` follows Python's `str.split()` with no separator: runs of
  whitespace separate tokens, and leading or trailing whitespace yields no
  empty token. `Lower` is ASCII-only.
 */
module Text {

  /** The characters Python's `str.split()` treats as whitespace. */
  predicate IsSpace(c: char) {
    || '\t' <= c <= '\r'              // tab, line feed, vertical tab, form feed, carriage return
    || '\U{1C}' <= c <= '\U{1F}'      // file, group, record and unit separators
    || c == ' ' || c == '\U{85}' || c == '\U{A0}'
    || c == '\U{1680}' || '\U{2000}' <= c <= '\U{200A}'
    || c == '\U{2028}' || c == '\U{2029}' || c == '\U{202F}'
    || c == '\U{205F}' || c == '\U{3000}'
  }

  /** A token `str.split()` can produce: non-empty and free of whitespace. */
  predicate IsWord(w: string) {
    |w| > 0 && forall i :: 0 <= i < |w| ==> !IsSpace(w[i])
  }

  predicate AllWords(ws: seq<string>) {
    forall i :: 0 <= i < |ws| ==> IsWord(ws[i])
  }

  /** The length of the longest whitespace-free prefix of `s`. */
  function WordLength(s: string): (n: nat)
    ensures n <= |s|
    ensures forall i :: 0 <= i < n ==> !IsSpace(s[i])
    ensures n < |s| ==> IsSpace(s[n])
  {
    if s == [] || IsSpace(s[0]) then 0 else 1 + WordLength(s[1..])
  }

  /** Python's `s.split()`. */
  function Split(s: string): (ws: seq<string>)
    ensures AllWords(ws)
    decreases |s|
  {
    if s == [] then []
    else if IsSpace(s[0]) then Split(s[1..])
    else
      var n := WordLength(s);
      [s[..n]] + Split(s[n..])
  }

  /** Python's `" ".join(ws)`. */
  function Join(ws: seq<string>): (r: string)
    ensures ws != [] ==> ws[0] <= r
    ensures AllWords(ws) ==> (r == "" <==> ws == [])
  {
    if ws == [] then ""
    else if |ws| == 1 then ws[0]
    else ws[0] + " " + Join(ws[1..])
  }

  /** A word followed by a space-led rest is measured up to that space. */
  lemma {:induction false} WordLengthOfWord(w: string, rest: string)
    requires IsWord(w)
    requires rest == [] || IsSpace(rest[0])
    ensures WordLength(w + rest) == |w|
  {
    if |w| > 1 {
      assert (w + rest)[1..] == w[1..] + rest;
      WordLengthOfWord(w[1..], rest);
    } else {
      assert (w + rest)[1..] == rest;
    }
  }

  /** The joined text of words starts with its first word. */
  lemma JoinStartsWithWord(ws: seq<string>)
    requires AllWords(ws) && ws != []
    ensures Join(ws) == ws[0] + Join(ws)[|ws[0]|..]
    ensures Join(ws)[|ws[0]|..] == [] || Join(ws)[|ws[0]|..][0] == ' '
  {
    if |ws| > 1 {
      assert Join(ws) == ws[0] + (" " + Join(ws[1..]));
    }
  }

  /** Splitting words joined by single spaces gives back the words. */
  lemma {:induction false} SplitJoin(ws: seq<string>)
    requires AllWords(ws)
    ensures Split(Join(ws)) == ws
  {
    if ws != [] {
      var w, s := ws[0], Join(ws);
      JoinStartsWithWord(ws);
      var rest := s[|w|..];
      WordLengthOfWord(w, rest);
      assert !IsSpace(s[0]);
      assert s[..|w|] == w;
      if |ws| == 1 {
        assert rest == [];
      } else {
        assert rest == " " + Join(ws[1..]);
        assert rest[1..] == Join(ws[1..]);
        assert AllWords(ws[1..]);
        SplitJoin(ws[1..]);
        assert Split(rest) == Split(rest[1..]);
      }
    }
  }

  /** A whitespace character ends the word that precedes it. */
  lemma {:induction false} WordLengthBeforeSpace(a: string, c: char, b: string)
    requires IsSpace(c)
    ensures WordLength(a + [c] + b) == WordLength(a)
  {
    if a == [] {
      assert (a + [c] + b)[0] == c;
    } else if !IsSpace(a[0]) {
      assert (a + [c] + b)[1..] == a[1..] + [c] + b;
      WordLengthBeforeSpace(a[1..], c, b);
    }
  }

  /** Splitting at a whitespace character splits each side on its own. */
  lemma {:induction false} SplitAtSpace(a: string, c: char, b: string)
    requires IsSpace(c)
    ensures Split(a + [c] + b) == Split(a) + Split(b)
    decreases |a|
  {
    var s := a + [c] + b;
    if a == [] {
      assert s[1..] == b;
    } else if IsSpace(a[0]) {
      assert s[1..] == a[1..] + [c] + b;
      SplitAtSpace(a[1..], c, b);
    } else {
      var n := WordLength(a);
      WordLengthBeforeSpace(a, c, b);
      assert s[..n] == a[..n];
      assert s[n..] == a[n..] + [c] + b;
      SplitAtSpace(a[n..], c, b);
    }
  }

  /** A single word splits into itself. */
  lemma SplitWord(w: string)
    requires IsWord(w)
    ensures Split(w) == [w]
  {
    WordLengthOfWord(w, []);
    assert w + [] == w;
    assert w[..|w|] == w;
  }

  /** ASCII `c.lower()`. */
  function LowerChar(c: char): char {
    if 'A' <= c <= 'Z' then (c as int + 32) as char else c
  }

  /** `token.lower()`, ASCII-only. */
  function Lower(s: string): (r: string)
    ensures |r| == |s|
    ensures forall i :: 0 <= i < |s| ==> r[i] == LowerChar(s[i])
  {
    if s == [] then [] else [LowerChar(s[0])] + Lower(s[1..])
  }

  predicate IsStopWord(token: string, stopWords: set<string>) {
    Lower(token) in stopWords
  }

  /** The tokens whose lowercase form is not a stop word, in order. */
  function KeepTokens(tokens: seq<string>, stopWords: set<string>): (kept: seq<string>)
    ensures |kept| <= |tokens|
    ensures forall i :: 0 <= i < |kept| ==> kept[i] in tokens && !IsStopWord(kept[i], stopWords)
  {
    if tokens == [] then []
    else if IsStopWord(tokens[0], stopWords) then KeepTokens(tokens[1..], stopWords)
    else [tokens[0]] + KeepTokens(tokens[1..], stopWords)
  }

  /** One token is kept exactly when it is not a stop word. */
  lemma KeepTokensOne(token: string, stopWords: set<string>)
    ensures KeepTokens([token], stopWords) == if IsStopWord(token, stopWords) then [] else [token]
  {
  }

  /** Filtering a concatenation filters each part: with `KeepTokensOne`, every non-stop token survives, in order. */
  lemma {:induction false} KeepTokensAppend(a: seq<string>, b: seq<string>, stopWords: set<string>)
    ensures KeepTokens(a + b, stopWords) == KeepTokens(a, stopWords) + KeepTokens(b, stopWords)
  {
    if a == [] {
      assert a + b == b;
    } else {
      assert (a + b)[1..] == a[1..] + b;
      KeepTokensAppend(a[1..], b, stopWords);
    }
  }

  /** The filtered text of src/embedder.py:22. */
  function RemoveStopWords(text: string, stopWords: set<string>): (r: string)
    ensures r == "" <==> KeepTokens(Split(text), stopWords) == []
  {
    KeptAreWords(Split(text), stopWords);
    Join(KeepTokens(Split(text), stopWords))
  }

  lemma KeptAreWords(tokens: seq<string>, stopWords: set<string>)
    requires AllWords(tokens)
    ensures AllWords(KeepTokens(tokens, stopWords))
  {
  }

  /**
    Re-splitting the filtered text (src/embedder.py:34) recovers exactly the
    kept tokens, in their original order, and none of them is a stop word.
   */
  lemma SplitFiltered(text: string, stopWords: set<string>)
    ensures Split(RemoveStopWords(text, stopWords)) == KeepTokens(Split(text), stopWords)
    ensures forall t :: t in Split(RemoveStopWords(text, stopWords)) ==> !IsStopWord(t, stopWords)
  {
    KeptAreWords(Split(text), stopWords);
    SplitJoin(KeepTokens(Split(text), stopWords));
  }

  /** Filtering tokens that contain no stop word changes nothing. */
  lemma {:induction false} KeepTokensOfKept(tokens: seq<string>, stopWords: set<string>)
    requires forall i :: 0 <= i < |tokens| ==> !IsStopWord(tokens[i], stopWords)
    ensures KeepTokens(tokens, stopWords) == tokens
  {
    if tokens != [] {
      KeepTokensOfKept(tokens[1..], stopWords);
    }
  }

  /** Removing stop words twice is the same as removing them once. */
  lemma RemoveStopWordsIdempotent(text: string, stopWords: set<string>)
    ensures RemoveStopWords(RemoveStopWords(text, stopWords), stopWords)
            == RemoveStopWords(text, stopWords)
  {
    var kept := KeepTokens(Split(text), stopWords);
    SplitFiltered(text, stopWords);
    KeepTokensOfKept(kept, stopWords);
  }

  /** The filtered text has no token exactly when every token of the input is a stop word. */
  lemma NothingKept(text: string, stopWords: set<string>)
    ensures KeepTokens(Split(text), stopWords) == [] <==>
            forall t :: t in Split(text) ==> IsStopWord(t, stopWords)
  {
    KeepTokensEmpty(Split(text), stopWords);
  }

  /** No word remains exactly when every token of the input is a stop word. */
  lemma {:induction false} KeepTokensEmpty(tokens: seq<string>, stopWords: set<string>)
    ensures KeepTokens(tokens, stopWords) == [] <==>
            forall i :: 0 <= i < |tokens| ==> IsStopWord(tokens[i], stopWords)
  {
    if tokens != [] {
      KeepTokensEmpty(tokens[1..], stopWords);
      assert forall i :: 1 <= i < |tokens| ==> tokens[i] == tokens[1..][i - 1];
    }
  }
}
