/**
 Rewriting an identifier in SQL text: every whole-word occurrence is replaced, as the
 pattern \b name \b finds them from left to right.
 */
module SqlText {

  predicate WordChar(c: char) {
    'a' <= c <= 'z' || 'A' <= c <= 'Z' || '0' <= c <= '9' || c == '_'
  }

  predicate WordAt(s: string, i: int) {
    0 <= i < |s| && WordChar(s[i])
  }

  /** A word boundary: a word character on exactly one side. */
  predicate Boundary(s: string, i: int) {
    WordAt(s, i - 1) != WordAt(s, i)
  }

  predicate MatchAt(s: string, i: nat, from: string) {
    && i + |from| <= |s| && s[i..i + |from|] == from
    && Boundary(s, i) && Boundary(s, i + |from|)
  }

  /** The text from position `i` on, with the occurrences replaced. */
  function RewriteFrom(s: string, i: nat, from: string, to: string): string
    requires from != ""
    decreases |s| - i
  {
    if i >= |s| then ""
    else if MatchAt(s, i, from) then to + RewriteFrom(s, i + |from|, from, to)
    else [s[i]] + RewriteFrom(s, i + 1, from, to)
  }

  function RewriteIdentifier(query: string, from: string, to: string): string
    requires from != ""
  {
    RewriteFrom(query, 0, from, to)
  }

  // ----- Text as words and the characters between them -----------------------------------

  datatype Token = Word(text: string) | Mark(c: char)

  predicate IsWord(s: string) {
    s != "" && forall c <- s :: WordChar(c)
  }

  predicate ValidToken(t: Token) {
    match t
    case Word(w) => IsWord(w)
    case Mark(c) => !WordChar(c)
  }

  /** Words are maximal: there is a mark between any two. */
  predicate Tokens(ts: seq<Token>) {
    && (forall t <- ts :: ValidToken(t))
    && forall i :: 0 < i < |ts| ==> ts[i - 1].Mark? || ts[i].Mark?
  }

  function Piece(t: Token): string {
    match t
    case Word(w) => w
    case Mark(c) => [c]
  }

  function Render(ts: seq<Token>): string {
    if ts == [] then "" else Piece(ts[0]) + Render(ts[1..])
  }

  function Renamed(t: Token, from: string, to: string): Token {
    if t == Word(from) then Word(to) else t
  }

  /** The tokens with one word replaced by another. */
  function Substituted(ts: seq<Token>, from: string, to: string): (r: seq<Token>)
    ensures |r| == |ts|
    ensures forall i :: 0 <= i < |ts| ==> r[i] == Renamed(ts[i], from, to)
  {
    if ts == [] then [] else [Renamed(ts[0], from, to)] + Substituted(ts[1..], from, to)
  }

  // ----- The text rewriting is the substitution of a word ---------------------------------

  /** Position `i` of `s` is where the tokens begin, and no word runs into them. */
  ghost predicate Begins(s: string, i: nat, ts: seq<Token>) {
    && i <= |s| && s[i..] == Render(ts) && Tokens(ts)
    && (ts != [] && ts[0].Word? ==> !WordAt(s, i - 1))
  }

  lemma TokensTail(ts: seq<Token>)
    requires ts != [] && Tokens(ts)
    ensures Tokens(ts[1..])
    ensures ts[0].Word? && |ts| > 1 ==> ts[1].Mark?
  {
    var r := ts[1..];
    assert forall i :: 0 < i < |r| ==> r[i - 1] == ts[i] && r[i] == ts[i + 1];
  }

  /** After a word comes the end of the text or a character that is not of a word. */
  lemma WordEnds(s: string, i: nat, ts: seq<Token>)
    requires Begins(s, i, ts) && ts != [] && ts[0].Word?
    ensures var n := |ts[0].text|;
            && i + n <= |s| && s[i..i + n] == ts[0].text && !WordAt(s, i + n)
            && (forall k :: i <= k < i + n ==> WordAt(s, k))
            && Begins(s, i + n, ts[1..])
  {
    var w, rest := ts[0].text, ts[1..];
    var n := |w|;
    assert ValidToken(ts[0]);
    TokensTail(ts);
    assert s[i..] == w + Render(rest);
    assert s[i..i + n] == s[i..][..n] == w;
    assert s[i + n..] == s[i..][n..] == Render(rest);
    forall k | i <= k < i + n ensures WordAt(s, k) {
      assert s[k] == s[i..i + n][k - i];
      assert s[k] in w;
    }
    if rest != [] {
      assert ValidToken(rest[0]) && rest[0] == ts[1];
      assert s[i + n] == s[i + n..][0] == rest[0].c;
    }
  }

  /** The pattern matches at the beginning of a word exactly when it is that word, and nowhere inside one. */
  lemma MatchWord(s: string, i: nat, ts: seq<Token>, from: string, k: nat)
    requires Begins(s, i, ts) && ts != [] && ts[0].Word? && IsWord(from)
    requires i <= k < i + |ts[0].text|
    ensures MatchAt(s, k, from) <==> k == i && ts[0].text == from
  {
    var w := ts[0].text;
    var n := |w|;
    WordEnds(s, i, ts);
    if k > i {
      assert !Boundary(s, k);
    } else if i + |from| <= |s| && s[i..i + |from|] == from {
      AllWord(s, i, from);
    }
  }

  lemma AllWord(s: string, i: nat, from: string)
    requires i + |from| <= |s| && s[i..i + |from|] == from && IsWord(from)
    ensures forall k :: i <= k < i + |from| ==> WordAt(s, k)
  {
    forall k | i <= k < i + |from| ensures WordAt(s, k) {
      assert s[k] == s[i..i + |from|][k - i];
      assert s[k] in from;
    }
  }

  lemma RewriteStep(s: string, i: nat, from: string, to: string)
    requires from != "" && i < |s|
    ensures RewriteFrom(s, i, from, to)
         == if MatchAt(s, i, from) then to + RewriteFrom(s, i + |from|, from, to)
            else [s[i]] + RewriteFrom(s, i + 1, from, to)
  {
  }

  /** Where the pattern matches nowhere, the text is copied. */
  lemma {:induction false} CopyText(s: string, k: nat, e: nat, from: string, to: string)
    requires k <= e <= |s| && from != "" && forall j: nat | k <= j < e :: !MatchAt(s, j, from)
    ensures RewriteFrom(s, k, from, to) == s[k..e] + RewriteFrom(s, e, from, to)
    decreases e - k
  {
    hide MatchAt, RewriteFrom;
    Prepend(s, k, e, RewriteFrom(s, e, from, to));
    if k == e {
    } else {
      RewriteStep(s, k, from, to);
      CopyText(s, k + 1, e, from, to);
    }
  }

  lemma Prepend(s: string, k: nat, e: nat, rest: string)
    requires k <= e <= |s|
    ensures k < e ==> [s[k]] + (s[k + 1..e] + rest) == s[k..e] + rest
    ensures s[e..e] + rest == rest
  {
  }

  lemma RewriteWord(s: string, i: nat, ts: seq<Token>, from: string, to: string)
    requires Begins(s, i, ts) && ts != [] && ts[0].Word? && IsWord(from)
    ensures i + |ts[0].text| <= |s|
    ensures RewriteFrom(s, i, from, to)
         == Piece(Renamed(ts[0], from, to)) + RewriteFrom(s, i + |ts[0].text|, from, to)
  {
    hide Begins, MatchAt, RewriteFrom, WordAt;
    WordEnds(s, i, ts);
    var e := i + |ts[0].text|;
    forall k: nat | i <= k < e ensures MatchAt(s, k, from) <==> k == i && ts[0].text == from {
      MatchWord(s, i, ts, from, k);
    }
    if ts[0].text == from {
      RewriteStep(s, i, from, to);
    } else {
      CopyText(s, i, e, from, to);
    }
  }

  lemma RenderFirst(ts: seq<Token>, from: string, to: string)
    requires ts != []
    ensures Render(Substituted(ts, from, to))
         == Piece(Renamed(ts[0], from, to)) + Render(Substituted(ts[1..], from, to))
  {
    assert Substituted(ts, from, to)[1..] == Substituted(ts[1..], from, to);
  }

  lemma {:induction false} RewriteTokens(s: string, i: nat, ts: seq<Token>, from: string, to: string)
    requires Begins(s, i, ts) && IsWord(from)
    ensures RewriteFrom(s, i, from, to) == Render(Substituted(ts, from, to))
    decreases |ts|
  {
    hide *;
    if ts == [] {
      WordNotEmpty(from);
      RewriteNone(s, i, ts, from, to);
    } else {
      RenderFirst(ts, from, to);
      BeginsNext(s, i, ts, from);
      if ts[0].Word? {
        RewriteWord(s, i, ts, from, to);
        RewriteTokens(s, i + |ts[0].text|, ts[1..], from, to);
      } else {
        RewriteMark(s, i, ts, from, to);
        RewriteTokens(s, i + 1, ts[1..], from, to);
      }
    }
  }

  lemma WordNotEmpty(s: string)
    requires IsWord(s)
    ensures s != ""
  {
  }

  lemma RewriteNone(s: string, i: nat, ts: seq<Token>, from: string, to: string)
    requires Begins(s, i, ts) && ts == [] && from != ""
    ensures RewriteFrom(s, i, from, to) == Render(Substituted(ts, from, to))
  {
    assert |s[i..]| == 0;
  }

  lemma BeginsNext(s: string, i: nat, ts: seq<Token>, from: string)
    requires Begins(s, i, ts) && ts != [] && IsWord(from)
    ensures Begins(s, i + |Piece(ts[0])|, ts[1..])
    ensures |Piece(ts[0])| == if ts[0].Word? then |ts[0].text| else 1
  {
    hide Begins;
    if ts[0].Word? {
      WordEnds(s, i, ts);
    } else {
      MarkFirst(s, i, ts, from);
    }
  }

  lemma RewriteMark(s: string, i: nat, ts: seq<Token>, from: string, to: string)
    requires Begins(s, i, ts) && ts != [] && ts[0].Mark? && IsWord(from)
    ensures i < |s| && RewriteFrom(s, i, from, to) == Piece(Renamed(ts[0], from, to)) + RewriteFrom(s, i + 1, from, to)
  {
    hide Begins, MatchAt, RewriteFrom;
    MarkFirst(s, i, ts, from);
    RewriteStep(s, i, from, to);
  }

  lemma MarkFirst(s: string, i: nat, ts: seq<Token>, from: string)
    requires Begins(s, i, ts) && ts != [] && ts[0].Mark? && IsWord(from)
    ensures i < |s| && s[i] == ts[0].c && !MatchAt(s, i, from) && Begins(s, i + 1, ts[1..])
  {
    var rest := ts[1..];
    TokensTail(ts);
    assert ValidToken(ts[0]);
    assert s[i..] == [ts[0].c] + Render(rest);
    assert s[i] == s[i..][0];
    assert s[i + 1..] == s[i..][1..];
    if i + |from| <= |s| && s[i..i + |from|] == from {
      AllWord(s, i, from);
    }
  }

  /**
   For names that are words, rewriting the text replaces exactly the words that are the
   name.  A dollar sign in the replacement would be expanded; no word has one.
   */
  lemma RewriteIsSubstitution(ts: seq<Token>, from: string, to: string)
    requires Tokens(ts) && IsWord(from) && IsWord(to)
    ensures RewriteIdentifier(Render(ts), from, to) == Render(Substituted(ts, from, to))
  {
    assert Render(ts)[0..] == Render(ts);
    RewriteTokens(Render(ts), 0, ts, from, to);
  }

  /** One more character in front: a mark, a word, or part of the word that follows. */
  function Joined(c: char, ts: seq<Token>): (r: seq<Token>)
    requires Tokens(ts)
    ensures Tokens(r) && Render(r) == [c] + Render(ts)
  {
    if !WordChar(c) then [Mark(c)] + ts
    else if ts != [] && ts[0].Word? then
      assert ValidToken(ts[0]);
      [Word([c] + ts[0].text)] + ts[1..]
    else [Word([c])] + ts
  }

  /** The words and marks of a text. */
  function Tokenized(s: string): (ts: seq<Token>)
    ensures Tokens(ts) && Render(ts) == s
  {
    if s == "" then [] else Joined(s[0], Tokenized(s[1..]))
  }

  /** The first character tells a word from a mark, and a mark which one it is. */
  lemma FirstKind(s: string, ts: seq<Token>)
    requires Begins(s, 0, ts) && ts != []
    ensures s != "" && (ts[0].Word? <==> WordChar(s[0])) && (ts[0].Mark? ==> ts[0] == Mark(s[0]))
  {
    assert ValidToken(ts[0]);
    assert s[0..] == s && s == Piece(ts[0]) + Render(ts[1..]);
    assert s[0] == Piece(ts[0])[0] && Piece(ts[0])[0] in Piece(ts[0]);
  }

  lemma FirstOne(s: string, a: seq<Token>, b: seq<Token>)
    requires Begins(s, 0, a) && Begins(s, 0, b) && a != [] && b != []
    ensures a[0] == b[0]
  {
    FirstKind(s, a);
    FirstKind(s, b);
    if a[0].Word? {
      hide Begins;
      WordEnds(s, 0, a);
      WordEnds(s, 0, b);
      assert |a[0].text| == |b[0].text|;
    }
  }

  lemma RenderSome(ts: seq<Token>)
    requires Tokens(ts) && ts != []
    ensures Render(ts) != ""
  {
    assert ValidToken(ts[0]);
  }

  /** A text has only one reading as words and marks. */
  lemma {:induction false} TokensOne(a: seq<Token>, b: seq<Token>)
    requires Tokens(a) && Tokens(b) && Render(a) == Render(b)
    ensures a == b
  {
    if a == [] {
      if b != [] {
        RenderSome(b);
      }
    } else if b == [] {
      RenderSome(a);
    } else {
      assert Render(a)[0..] == Render(a);
      FirstOne(Render(a), a, b);
      TokensTail(a);
      TokensTail(b);
      assert Render(a[1..]) == Render(a)[|Piece(a[0])|..];
      assert Render(b[1..]) == Render(b)[|Piece(b[0])|..];
      TokensOne(a[1..], b[1..]);
    }
  }

  /** In any text the pattern rewriting replaces exactly the words that are the name. */
  lemma RewriteAnyText(s: string, from: string, to: string)
    requires IsWord(from) && IsWord(to)
    ensures RewriteIdentifier(s, from, to) == Render(Substituted(Tokenized(s), from, to))
  {
    RewriteIsSubstitution(Tokenized(s), from, to);
  }

  const LETTERS := "abcdefghijklmnopqrstuvwxyz"
  const CAPITALS := "ABCDEFGHIJKLMNOPQRSTUVWXYZ"
  const DIGITS := "0123456789"

  lemma InAlphabet(c: char)
    ensures c in LETTERS <==> 'a' <= c <= 'z'
    ensures c in CAPITALS <==> 'A' <= c <= 'Z'
    ensures c in DIGITS <==> '0' <= c <= '9'
  {
  }

  /** The characters of a word are letters, digits and the underscore. */
  lemma WordCharExactly(c: char)
    ensures WordChar(c) <==> c in LETTERS + CAPITALS + DIGITS + "_"
  {
    InAlphabet(c);
    hide LETTERS, CAPITALS, DIGITS;
    assert c in LETTERS + CAPITALS + DIGITS + "_" <==> c in LETTERS || c in CAPITALS || c in DIGITS || c == '_';
  }

  predicate Name(s: string) {
    forall c <- s :: c in LETTERS + CAPITALS + DIGITS + "_"
  }

  /** A name that contains another is left alone. */
  lemma LongerNameKept(before: string, from: string, after: string, to: string)
    requires IsWord(from) && IsWord(to) && Name(before) && Name(after) && before + after != ""
    ensures RewriteIdentifier(before + from + after, from, to) == before + from + after
  {
    var s := before + from + after;
    assert IsWord(s) by {
      forall c <- s ensures WordChar(c) {
        assert c in before || c in from || c in after;
        WordCharExactly(c);
      }
    }
    RewriteIsSubstitution([Word(s)], from, to);
    assert |s| > |from|;
    SubstitutedOne(Word(s), from, to);
    OneToken(Word(s));
  }

  lemma OneToken(t: Token)
    ensures Render([t]) == Piece(t)
  {
    assert [t][1..] == [];
  }

  /** A substitution changes nothing if and only if the word does not occur. */
  lemma SubstitutedSame(ts: seq<Token>, from: string, to: string)
    requires from != to
    ensures Substituted(ts, from, to) == ts <==> Word(from) !in ts
  {
    var r := Substituted(ts, from, to);
    if Word(from) in ts {
      var i :| 0 <= i < |ts| && ts[i] == Word(from);
      assert r[i] == Word(to);
    }
  }

  lemma SubstitutedConcat(a: seq<Token>, b: seq<Token>, from: string, to: string)
    ensures Substituted(a + b, from, to) == Substituted(a, from, to) + Substituted(b, from, to)
  {
  }

  lemma SubstitutedOne(t: Token, from: string, to: string)
    ensures Substituted([t], from, to) == [Renamed(t, from, to)]
  {
  }

  /** Renaming to a new word and back restores the text. */
  lemma RenameBack(ts: seq<Token>, from: string, to: string)
    requires Word(to) !in ts
    ensures Substituted(Substituted(ts, from, to), to, from) == ts
  {
    var r := Substituted(Substituted(ts, from, to), to, from);
    forall i | 0 <= i < |ts| ensures r[i] == ts[i] {
      assert ts[i] in ts;
    }
  }
}
