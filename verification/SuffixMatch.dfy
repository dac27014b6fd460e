/**
 Compiling an anchored pattern such as \.(jpg|jpe?g)$ to a list of suffixes, and
 matching file names against the list byte by byte.
 */
module SuffixMatch {

  /** A parsed pattern, in the operations that the compilation distinguishes. */
  datatype Re =
    | Alternate(subs: seq<Re>)
    | EmptyMatch
    | Literal(runes: string, fold: bool)
    | Concat(subs: seq<Re>)
    | Quest(subs: seq<Re>)
    | Capture(subs: seq<Re>)
    | EndText
    | OtherOp

  /** Letters fold as ASCII letters; names are taken to be ASCII. */
  function LowerChar(c: char): char {
    if 'A' <= c <= 'Z' then (c as int + 32) as char else c
  }

  function Lower(s: string): (r: string)
    ensures |r| == |s| && forall i :: 0 <= i < |s| ==> r[i] == LowerChar(s[i])
  {
    seq(|s|, i requires 0 <= i < |s| => LowerChar(s[i]))
  }

  // ----- The compilation --------------------------------------------------------------------------

  function Prefixed(x: string, b: seq<string>): (r: seq<string>)
    ensures forall s :: s in r <==> exists y :: y in b && s == x + y
    ensures |r| == |b|
  {
    if b == [] then [] else [x + b[0]] + Prefixed(x, b[1..])
  }

  /** Every string of the first list followed by every string of the second. */
  function Cross(a: seq<string>, b: seq<string>): (r: seq<string>)
    ensures forall s :: s in r <==> exists x, y :: x in a && y in b && s == x + y
  {
    if a == [] then [] else Prefixed(a[0], b) + Cross(a[1..], b)
  }

  /** An empty list is neutral. */
  function ConcatVariants(a: seq<string>, b: seq<string>): seq<string> {
    if a == [] then b else if b == [] then a else Cross(a, b)
  }

  function NonEmpty(a: seq<string>): (r: seq<string>)
    ensures forall s :: s in r <==> s in a && s != ""
  {
    if a == [] then []
    else if a[|a| - 1] == "" then NonEmpty(a[..|a| - 1])
    else NonEmpty(a[..|a| - 1]) + [a[|a| - 1]]
  }

  function Width(re: Re): nat {
    if re.Alternate? || re.Concat? || re.Quest? || re.Capture? then |re.subs| else 0
  }

  /** The strings that the code lists for a pattern. */
  function Expand(re: Re): seq<string>
    decreases re, Width(re) + 1
  {
    match re
    case Alternate(subs) => ExpandAll(re, |subs|)
    case EmptyMatch => [""]
    case Literal(runes, fold) => [if fold then Lower(runes) else runes]
    case Concat(subs) => if subs == [] then [""] else ExpandConcat(re, |subs|)
    case Quest(subs) => if |subs| != 1 then [] else [""] + NonEmpty(Expand(subs[0]))
    case _ => []
  }

  /** The lists of the first `n` alternatives. */
  function ExpandAll(re: Re, n: nat): seq<string>
    requires re.Alternate? && n <= |re.subs|
    decreases re, n
  {
    if n == 0 then [] else ExpandAll(re, n - 1) + Expand(re.subs[n - 1])
  }

  /** The lists of the first `n` parts, combined from the left. */
  function ExpandConcat(re: Re, n: nat): seq<string>
    requires re.Concat? && 0 < n <= |re.subs|
    decreases re, n
  {
    if n == 1 then Expand(re.subs[0]) else ConcatVariants(ExpandConcat(re, n - 1), Expand(re.subs[n - 1]))
  }

  // ----- What a pattern denotes --------------------------------------------------------------------

  /**
   Whether a pattern denotes a string.  With `anyCase` letters under case folding match
   in either case; without, they are spelt in lower case.
   */
  ghost predicate Denotes(re: Re, s: string, anyCase: bool)
    decreases re, Width(re) + 1
  {
    match re
    case Alternate(subs) => SomeDenotes(re, |subs|, s, anyCase)
    case EmptyMatch => s == ""
    case Literal(runes, fold) =>
      if !fold then s == runes else if anyCase then Lower(s) == Lower(runes) else s == Lower(runes)
    case Concat(subs) => ChainDenotes(re, |subs|, s, anyCase)
    case Quest(subs) => s == "" || (|subs| == 1 && Denotes(subs[0], s, anyCase))
    case Capture(subs) => |subs| == 1 && Denotes(subs[0], s, anyCase)
    case _ => false
  }

  ghost predicate SomeDenotes(re: Re, n: nat, s: string, anyCase: bool)
    requires re.Alternate? && n <= |re.subs|
    decreases re, n
  {
    n > 0 && (SomeDenotes(re, n - 1, s, anyCase) || Denotes(re.subs[n - 1], s, anyCase))
  }

  ghost predicate ChainDenotes(re: Re, n: nat, s: string, anyCase: bool)
    requires re.Concat? && n <= |re.subs|
    decreases re, n
  {
    if n == 0 then s == ""
    else
      exists k: nat ::
        k <= |s| && ChainDenotes(re, n - 1, s[..k], anyCase) && Denotes(re.subs[n - 1], s[k..], anyCase)
  }

  /** Literals, alternations, concatenations, options and empty matches. */
  predicate Finite(re: Re)
    decreases re, Width(re) + 1
  {
    match re
    case Alternate(subs) => subs != [] && forall i :: 0 <= i < |subs| ==> Finite(subs[i])
    case EmptyMatch => true
    case Literal(_, _) => true
    case Concat(subs) => forall i :: 0 <= i < |subs| ==> Finite(subs[i])
    case Quest(subs) => |subs| == 1 && Finite(subs[0])
    case _ => false
  }

  // ----- The list is what the pattern denotes --------------------------------------------------------

  /** For every such tree the list is not empty, and holds exactly the strings that the tree denotes. */
  lemma {:induction false} ExpandExact(re: Re)
    requires Finite(re)
    ensures Expand(re) != [] && forall s :: s in Expand(re) <==> Denotes(re, s, false)
    decreases re, Width(re) + 1
  {
    match re
    case Alternate(subs) => AlternativesExact(re, |subs|);
    case EmptyMatch =>
    case Literal(_, _) =>
    case Concat(subs) => if subs != [] { PartsExact(re, |subs|); }
    case Quest(subs) => ExpandExact(subs[0]);
  }

  lemma {:induction false} AlternativesExact(re: Re, n: nat)
    requires re.Alternate? && n <= |re.subs| && Finite(re)
    ensures n > 0 ==> ExpandAll(re, n) != []
    ensures forall s :: s in ExpandAll(re, n) <==> SomeDenotes(re, n, s, false)
    decreases re, n
  {
    if n == 0 {
    } else {
      AlternativesExact(re, n - 1);
      ExpandExact(re.subs[n - 1]);
    }
  }

  lemma {:induction false} PartsExact(re: Re, n: nat)
    requires re.Concat? && 0 < n <= |re.subs| && Finite(re)
    ensures ExpandConcat(re, n) != []
    ensures forall s :: s in ExpandConcat(re, n) <==> ChainDenotes(re, n, s, false)
    decreases re, n
  {
    ExpandExact(re.subs[n - 1]);
    if n == 1 {
      forall s ensures ChainDenotes(re, 1, s, false) <==> Denotes(re.subs[0], s, false) {
        assert s[0..] == s && s[..0] == "";
        assert ChainDenotes(re, 0, s[..0], false);
      }
    } else {
      PartsExact(re, n - 1);
      forall s ensures s in ExpandConcat(re, n) <==> ChainDenotes(re, n, s, false) {
        PartExact(re, n - 1, s);
      }
      CrossSome(ExpandConcat(re, n - 1), Expand(re.subs[n - 1]));
    }
  }

  lemma CrossSome(a: seq<string>, b: seq<string>)
    requires a != [] && b != []
    ensures Cross(a, b) != []
  {
    assert a[0] in a && b[0] in b;
    assert a[0] + b[0] in Cross(a, b);
  }

  /** Part number `m` extends the strings of the parts before it. */
  lemma PartExact(re: Re, m: nat, s: string)
    requires re.Concat? && 0 < m < |re.subs|
    requires ExpandConcat(re, m) != [] && Expand(re.subs[m]) != []
    requires forall t :: t in ExpandConcat(re, m) <==> ChainDenotes(re, m, t, false)
    requires forall t :: t in Expand(re.subs[m]) <==> Denotes(re.subs[m], t, false)
    ensures s in ExpandConcat(re, m + 1) <==> ChainDenotes(re, m + 1, s, false)
  {
    var a, b := ExpandConcat(re, m), Expand(re.subs[m]);
    assert ExpandConcat(re, m + 1) == Cross(a, b);
    assert ChainDenotes(re, m + 1, s, false)
      <==> exists k: nat :: k <= |s| && ChainDenotes(re, m, s[..k], false) && Denotes(re.subs[m], s[k..], false);
    hide *;
    CrossSplit(a, b, s);
  }

  lemma CrossSplit(a: seq<string>, b: seq<string>, s: string)
    ensures s in Cross(a, b) <==> exists k: nat :: k <= |s| && s[..k] in a && s[k..] in b
  {
    if s in Cross(a, b) {
      var x, y :| x in a && y in b && s == x + y;
      assert s[..|x|] == x && s[|x|..] == y;
    }
    if k: nat :| k <= |s| && s[..k] in a && s[k..] in b {
      assert s == s[..k] + s[k..];
    }
  }

  // ----- Case folding ---------------------------------------------------------------------------------

  predicate AllFold(re: Re)
    decreases re, Width(re) + 1
  {
    match re
    case Literal(_, fold) => fold
    case Alternate(subs) => forall i :: 0 <= i < |subs| ==> AllFold(subs[i])
    case Concat(subs) => forall i :: 0 <= i < |subs| ==> AllFold(subs[i])
    case Quest(subs) => forall i :: 0 <= i < |subs| ==> AllFold(subs[i])
    case Capture(subs) => forall i :: 0 <= i < |subs| ==> AllFold(subs[i])
    case _ => true
  }

  lemma LowerParts(s: string, k: nat)
    requires k <= |s|
    ensures Lower(s)[..k] == Lower(s[..k]) && Lower(s)[k..] == Lower(s[k..])
    ensures Lower(Lower(s)) == Lower(s)
  {
  }

  /** Under case folding a string is denoted when its lower-case spelling is. */
  lemma {:induction false} FoldDenotes(re: Re, s: string)
    requires AllFold(re)
    ensures Denotes(re, s, true) <==> Denotes(re, Lower(s), false)
    decreases re, Width(re) + 1
  {
    match re
    case Alternate(subs) => FoldSome(re, |subs|, s);
    case EmptyMatch => assert Lower(s) == "" <==> s == "";
    case Literal(_, _) =>
    case Concat(subs) => FoldChain(re, |subs|, s);
    case Quest(subs) =>
      assert Lower(s) == "" <==> s == "";
      if |subs| == 1 {
        FoldDenotes(subs[0], s);
      }
    case Capture(subs) =>
      if |subs| == 1 {
        FoldDenotes(subs[0], s);
      }
    case _ =>
  }

  lemma {:induction false} FoldSome(re: Re, n: nat, s: string)
    requires re.Alternate? && n <= |re.subs| && AllFold(re)
    ensures SomeDenotes(re, n, s, true) <==> SomeDenotes(re, n, Lower(s), false)
    decreases re, n
  {
    if n == 0 {
    } else {
      FoldSome(re, n - 1, s);
      FoldDenotes(re.subs[n - 1], s);
    }
  }

  lemma {:induction false} FoldChain(re: Re, n: nat, s: string)
    requires re.Concat? && n <= |re.subs| && AllFold(re)
    ensures ChainDenotes(re, n, s, true) <==> ChainDenotes(re, n, Lower(s), false)
    decreases re, n
  {
    if n == 0 {
      assert Lower(s) == "" <==> s == "";
    } else {
      forall k: nat | k <= |s|
        ensures ChainDenotes(re, n - 1, s[..k], true) <==> ChainDenotes(re, n - 1, Lower(s)[..k], false)
        ensures Denotes(re.subs[n - 1], s[k..], true) <==> Denotes(re.subs[n - 1], Lower(s)[k..], false)
      {
        LowerParts(s, k);
        FoldChain(re, n - 1, s[..k]);
        FoldDenotes(re.subs[n - 1], s[k..]);
      }
      if ChainDenotes(re, n, s, true) {
        var k: nat :| k <= |s| && ChainDenotes(re, n - 1, s[..k], true) && Denotes(re.subs[n - 1], s[k..], true);
        assert ChainDenotes(re, n - 1, Lower(s)[..k], false);
      }
      if ChainDenotes(re, n, Lower(s), false) {
        var k: nat :| k <= |s| && ChainDenotes(re, n - 1, Lower(s)[..k], false)
            && Denotes(re.subs[n - 1], Lower(s)[k..], false);
        assert ChainDenotes(re, n - 1, s[..k], true);
      }
    }
  }

  // ----- The matcher ----------------------------------------------------------------------------------

  /** Whether a name ends with the suffix, its upper-case letters taken as lower case. */
  predicate EndsFolded(name: string, suffix: string) {
    suffix != "" && |suffix| <= |name| && Lower(name[|name| - |suffix|..]) == suffix
  }

  method HasASCIISuffixFold(name: string, suffix: string) returns (ok: bool)
    ensures ok <==> EndsFolded(name, suffix)
  {
    var ns, nl := |name|, |suffix|;
    if nl == 0 || ns < nl {
      return false;
    }
    var start := ns - nl;
    ghost var tail := Lower(name[start..]);
    for i := 0 to nl
      invariant forall j :: 0 <= j < i ==> tail[j] == suffix[j]
    {
      var a, b := name[start + i], suffix[i];
      if 'A' <= a <= 'Z' {
        a := (a as int + 32) as char;
      }
      assert tail[i] == a;
      if a != b {
        return false;
      }
    }
    return true;
  }

  method MatchBasenameWithSuffixes(name: string, suffixes: seq<string>) returns (ok: bool)
    ensures ok <==> exists suffix :: suffix in suffixes && EndsFolded(name, suffix)
  {
    for i := 0 to |suffixes|
      invariant forall j :: 0 <= j < i ==> !EndsFolded(name, suffixes[j])
    {
      var hit := HasASCIISuffixFold(name, suffixes[i]);
      if hit {
        return true;
      }
    }
    return false;
  }

  function Unwrapped(re: Re): Re
    decreases re
  {
    if (re.Capture? || re.Concat?) && |re.subs| == 1 then Unwrapped(re.subs[0]) else re
  }

  datatype Alternation = NotAnchored | Found(re: Re)

  /** What stands before the anchor at the end of the pattern. */
  function AlternationBeforeEndAnchor(pattern: Re): Alternation {
    var re := Unwrapped(pattern);
    if !re.Concat? || |re.subs| < 2 || re.subs[|re.subs| - 1] != EndText then NotAnchored
    else Found(Unwrapped(re.subs[|re.subs| - 2]))
  }

  datatype Compiled = BadPattern | Suffixes(list: seq<string>)

  /** The dotted lower-case suffixes of a pattern, each once. */
  method BasenameSuffixes(pattern: Re) returns (r: Compiled)
    ensures var found := AlternationBeforeEndAnchor(pattern);
            if found.NotAnchored? || Expand(found.re) == [] then r == BadPattern
            else
              && r.Suffixes?
              && (forall key :: key in r.list <==>
                    exists s :: s in Expand(found.re) && s != "" && key == "." + Lower(s))
              && (forall i, j :: 0 <= i < j < |r.list| ==> r.list[i] != r.list[j])
  {
    var found := AlternationBeforeEndAnchor(pattern);
    if found.NotAnchored? {
      return BadPattern;
    }
    var raw := Expand(found.re);
    if raw == [] {
      return BadPattern;
    }
    var seen: set<string> := {};
    var out: seq<string> := [];
    for i := 0 to |raw|
      invariant forall key :: key in out <==> key in seen
      invariant forall key :: key in out <==> exists j :: 0 <= j < i && raw[j] != "" && key == "." + Lower(raw[j])
      invariant forall j, k :: 0 <= j < k < |out| ==> out[j] != out[k]
    {
      if raw[i] != "" {
        var key := "." + Lower(raw[i]);
        if key !in seen {
          seen := seen + {key};
          out := out + [key];
        }
      }
    }
    return Suffixes(out);
  }

  // ----- The matcher accepts what the regular expression does --------------------------------------------

  /** An unanchored search for a pattern that ends with the end of the text. */
  ghost predicate RegexpMatches(pattern: Re, name: string) {
    && pattern.Concat? && pattern.subs != [] && pattern.subs[|pattern.subs| - 1] == EndText
    && exists i: nat :: i <= |name| && ChainDenotes(pattern, |pattern.subs| - 1, name[i..], true)
  }

  ghost predicate Accepts(list: seq<string>, name: string) {
    exists suffix :: suffix in list && EndsFolded(name, suffix)
  }

  /** The list that the compilation makes of `alternatives`. */
  ghost predicate Lists(list: seq<string>, alternatives: Re) {
    forall key :: key in list <==> exists s :: s in Expand(alternatives) && s != "" && key == "." + Lower(s)
  }

  function Dotted(fold: bool, group: Re): Re {
    Concat([Literal(".", fold), group, EndText])
  }

  lemma {:induction false} UnwrappedSame(re: Re, s: string, anyCase: bool)
    ensures Denotes(Unwrapped(re), s, anyCase) <==> Denotes(re, s, anyCase)
    decreases re
  {
    if (re.Capture? || re.Concat?) && |re.subs| == 1 {
      UnwrappedSame(re.subs[0], s, anyCase);
      if re.Concat? {
        SingleChain(re, s, anyCase);
      }
    }
  }

  lemma SingleChain(re: Re, s: string, anyCase: bool)
    requires re.Concat? && |re.subs| == 1
    ensures Denotes(re, s, anyCase) <==> Denotes(re.subs[0], s, anyCase)
  {
    assert s[0..] == s && s[..0] == "";
    assert ChainDenotes(re, 0, s[..0], anyCase);
    assert Denotes(re, s, anyCase) <==> ChainDenotes(re, 1, s, anyCase);
  }

  /** A string in its lower-case spelling is also denoted in any case. */
  lemma {:induction false} SpellingMatches(re: Re, s: string)
    requires AllFold(re) && Denotes(re, s, false)
    ensures Denotes(re, s, true)
    decreases re, Width(re) + 1
  {
    match re
    case Alternate(subs) => SpellingSome(re, |subs|, s);
    case Literal(runes, _) => LowerParts(runes, 0);
    case Concat(subs) => SpellingChain(re, |subs|, s);
    case Quest(subs) =>
      if s == "" {
      } else {
        SpellingMatches(subs[0], s);
      }
    case Capture(subs) => SpellingMatches(subs[0], s);
    case _ =>
  }

  lemma {:induction false} SpellingSome(re: Re, n: nat, s: string)
    requires re.Alternate? && n <= |re.subs| && AllFold(re) && SomeDenotes(re, n, s, false)
    ensures SomeDenotes(re, n, s, true)
    decreases re, n
  {
    if SomeDenotes(re, n - 1, s, false) {
      SpellingSome(re, n - 1, s);
    } else {
      SpellingMatches(re.subs[n - 1], s);
    }
  }

  lemma {:induction false} SpellingChain(re: Re, n: nat, s: string)
    requires re.Concat? && n <= |re.subs| && AllFold(re) && ChainDenotes(re, n, s, false)
    ensures ChainDenotes(re, n, s, true)
    decreases re, n
  {
    if n == 0 {
    } else {
      var k: nat :| k <= |s| && ChainDenotes(re, n - 1, s[..k], false) && Denotes(re.subs[n - 1], s[k..], false);
      SpellingChain(re, n - 1, s[..k]);
      SpellingMatches(re.subs[n - 1], s[k..]);
    }
  }

  /** After a dot at position `i` the rest of the name is denoted. */
  ghost predicate TailMatches(group: Re, name: string, i: nat) {
    i < |name| && name[i] == '.' && Denotes(group, name[i + 1..], true)
  }

  lemma DottedMatches(fold: bool, group: Re, name: string)
    ensures RegexpMatches(Dotted(fold, group), name) <==> exists i: nat :: TailMatches(group, name, i)
  {
    var pattern := Dotted(fold, group);
    forall i: nat | i <= |name|
      ensures ChainDenotes(pattern, 2, name[i..], true) <==> TailMatches(group, name, i)
    {
      DotFirst(fold, group, name[i..]);
      if i < |name| {
        assert name[i..][1..] == name[i + 1..];
      }
    }
    hide ChainDenotes, TailMatches;
    if RegexpMatches(pattern, name) {
      var i: nat :| i <= |name| && ChainDenotes(pattern, 2, name[i..], true);
      assert TailMatches(group, name, i);
    }
    if i: nat :| TailMatches(group, name, i) {
      TailInside(group, name, i);
      assert ChainDenotes(pattern, 2, name[i..], true);
    }
  }

  lemma TailInside(group: Re, name: string, i: nat)
    requires TailMatches(group, name, i)
    ensures i < |name|
  {
  }

  lemma DotFirst(fold: bool, group: Re, s: string)
    ensures ChainDenotes(Dotted(fold, group), 2, s, true) <==> s != "" && s[0] == '.' && Denotes(group, s[1..], true)
  {
    var pattern := Dotted(fold, group);
    assert pattern.subs[0] == Literal(".", fold) && pattern.subs[1] == group;
    forall k: nat | k <= |s| ensures ChainDenotes(pattern, 1, s[..k], true) <==> k == 1 && s[0] == '.' {
      DotOnly(fold, group, s[..k]);
    }
    if s != "" && s[0] == '.' && Denotes(group, s[1..], true) {
      assert ChainDenotes(pattern, 1, s[..1], true);
    }
  }

  lemma DotOnly(fold: bool, group: Re, t: string)
    ensures ChainDenotes(Dotted(fold, group), 1, t, true) <==> t == "."
  {
    var pattern := Dotted(fold, group);
    assert Lower(".") == ".";
    assert Denotes(pattern.subs[0], t, true) <==> t == "." by {
      if Lower(t) == "." {
        assert |t| == 1 && LowerChar(t[0]) == '.';
        assert t == ".";
      }
    }
    assert t[0..] == t && t[..0] == "";
    assert ChainDenotes(pattern, 0, t[..0], true);
    assert ChainDenotes(pattern, 1, t, true) <==> Denotes(pattern.subs[0], t, true);
  }

  /** A name is accepted for a dot followed by a non-empty match. */
  lemma AcceptsTail(list: seq<string>, alternatives: Re, name: string)
    requires Finite(alternatives) && AllFold(alternatives) && Lists(list, alternatives)
    ensures Accepts(list, name) <==> exists i: nat :: i + 1 < |name| && TailMatches(alternatives, name, i)
  {
    ExpandExact(alternatives);
    if Accepts(list, name) {
      var suffix :| suffix in list && EndsFolded(name, suffix);
      var s :| s in Expand(alternatives) && s != "" && suffix == "." + Lower(s);
      AcceptedTail(alternatives, name, s);
    }
    if i: nat :| i + 1 < |name| && TailMatches(alternatives, name, i) {
      TailAccepted(list, alternatives, name, i);
    }
  }

  lemma AcceptedTail(alternatives: Re, name: string, s: string)
    requires AllFold(alternatives) && Denotes(alternatives, s, false) && s != ""
    requires EndsFolded(name, "." + Lower(s))
    ensures var i := |name| - |s| - 1; i >= 0 && i + 1 < |name| && TailMatches(alternatives, name, i)
  {
    hide Denotes, AllFold;
    var i := |name| - |s| - 1;
    DotTail(name, i, s);
    SpellingMatches(alternatives, s);
    FoldDenotes(alternatives, s);
    FoldDenotes(alternatives, name[i + 1..]);
  }

  lemma TailAccepted(list: seq<string>, alternatives: Re, name: string, i: nat)
    requires AllFold(alternatives) && Lists(list, alternatives)
    requires forall s :: s in Expand(alternatives) <==> Denotes(alternatives, s, false)
    requires i + 1 < |name| && TailMatches(alternatives, name, i)
    ensures Accepts(list, name)
  {
    hide Denotes, AllFold, Expand;
    var tail := name[i + 1..];
    FoldDenotes(alternatives, tail);
    LowerParts(tail, 0);
    var s := Lower(tail);
    assert s in Expand(alternatives) && s != "";
    assert "." + Lower(s) in list;
    DotKey(name, i);
    assert EndsFolded(name, "." + Lower(s));
  }

  lemma DotTail(name: string, i: nat, s: string)
    requires s != "" && |name| == i + 1 + |s| && Lower(name[i..]) == "." + Lower(s)
    ensures name[i] == '.' && Lower(name[i + 1..]) == Lower(s)
  {
    var t := name[i..];
    assert Lower(t)[0] == LowerChar(t[0]) == '.';
    LowerParts(t, 1);
    assert t[1..] == name[i + 1..];
    assert Lower(t)[1..] == Lower(s);
  }

  lemma DotKey(name: string, i: nat)
    requires i + 1 < |name| && name[i] == '.'
    ensures Lower(name[i..]) == "." + Lower(Lower(name[i + 1..]))
  {
    var t := name[i..];
    LowerParts(t, 1);
    LowerParts(name[i + 1..], 0);
    assert t[1..] == name[i + 1..] && t[..1] == ".";
    assert Lower(t) == Lower(t)[..1] + Lower(t)[1..];
  }

  /**
   For a case-folded pattern \.(...)$ the byte matcher accepts exactly the names that the
   regular expression matches, if and only if no alternative matches the empty string.
   */
  lemma CompiledAgrees(fold: bool, group: Re, list: seq<string>)
    requires Finite(Unwrapped(group)) && AllFold(Unwrapped(group)) && Lists(list, Unwrapped(group))
    ensures (forall name :: Accepts(list, name) <==> RegexpMatches(Dotted(fold, group), name))
       <==> !Denotes(group, "", true)
  {
    var pattern, alternatives := Dotted(fold, group), Unwrapped(group);
    hide RegexpMatches, Accepts, Denotes, Expand, Finite, AllFold, Unwrapped, Lists, Dotted, TailMatches;
    if !Denotes(group, "", true) {
      forall name ensures Accepts(list, name) <==> RegexpMatches(pattern, name) {
        AcceptsTail(list, alternatives, name);
        DottedMatches(fold, group, name);
        forall i: nat ensures TailMatches(alternatives, name, i) <==> TailMatches(group, name, i) {
          TailUnwrapped(group, name, i);
        }
        forall i: nat | TailMatches(group, name, i) ensures i + 1 < |name| {
          TailNotEmpty(group, name, i);
        }
      }
    } else {
      AcceptsTail(list, alternatives, ".");
      DottedMatches(fold, group, ".");
      EmptyTail(group);
      assert !Accepts(list, ".") && RegexpMatches(pattern, ".");
    }
  }

  lemma TailUnwrapped(group: Re, name: string, i: nat)
    ensures TailMatches(Unwrapped(group), name, i) <==> TailMatches(group, name, i)
  {
    if i < |name| {
      UnwrappedSame(group, name[i + 1..], true);
    }
  }

  lemma TailNotEmpty(group: Re, name: string, i: nat)
    requires TailMatches(group, name, i) && !Denotes(group, "", true)
    ensures i + 1 < |name|
  {
    hide Denotes;
    assert name[|name|..] == "";
  }

  lemma EmptyTail(group: Re)
    requires Denotes(group, "", true)
    ensures TailMatches(group, ".", 0)
  {
    hide Denotes;
    assert "."[1..] == "";
  }

  /** The pattern of such a search, and what the compilation finds in it. */
  lemma DottedFound(fold: bool, group: Re)
    ensures AlternationBeforeEndAnchor(Dotted(fold, group)) == Found(Unwrapped(group))
  {
  }

  // ----- Nested groups ------------------------------------------------------------------------------------

  /** An alternative that is no group denotes the string. */
  ghost predicate PlainDenotes(re: Re, n: nat, s: string)
    requires re.Alternate? && n <= |re.subs|
  {
    exists i :: 0 <= i < n && !re.subs[i].Capture? && Denotes(re.subs[i], s, false)
  }

  /** A group inside an alternation lists nothing: the list holds what the other alternatives denote. */
  lemma {:induction false} GroupsDropped(re: Re, n: nat)
    requires re.Alternate? && n <= |re.subs|
    requires forall i :: 0 <= i < |re.subs| ==> re.subs[i].Capture? || Finite(re.subs[i])
    ensures forall s :: s in ExpandAll(re, n) <==> PlainDenotes(re, n, s)
  {
    if n == 0 {
    } else {
      GroupsDropped(re, n - 1);
      var last := re.subs[n - 1];
      if !last.Capture? {
        ExpandExact(last);
      }
      forall s
        ensures PlainDenotes(re, n, s) <==> PlainDenotes(re, n - 1, s) || (!last.Capture? && Denotes(last, s, false))
      {
      }
    }
  }

  lemma {:induction false} SomeAlternative(re: Re, n: nat, s: string)
    requires re.Alternate? && n <= |re.subs|
    ensures SomeDenotes(re, n, s, false) <==> exists i :: 0 <= i < n && Denotes(re.subs[i], s, false)
  {
    hide Denotes;
    if n == 0 {
    } else {
      SomeAlternative(re, n - 1, s);
    }
  }

  /**
   The list of an alternation with groups in it is what the alternation denotes if and
   only if each string of a group is also one of an alternative that is no group.
   */
  lemma GroupsExact(re: Re)
    requires re.Alternate? && forall i :: 0 <= i < |re.subs| ==> re.subs[i].Capture? || Finite(re.subs[i])
    ensures (forall s :: s in Expand(re) <==> Denotes(re, s, false))
       <==> (forall i, s :: 0 <= i < |re.subs| && re.subs[i].Capture? && Denotes(re.subs[i], s, false)
               ==> PlainDenotes(re, |re.subs|, s))
  {
    var n := |re.subs|;
    GroupsDropped(re, n);
    forall s ensures Denotes(re, s, false) <==> exists i :: 0 <= i < n && Denotes(re.subs[i], s, false) {
      SomeAlternative(re, n, s);
    }
    assert forall s :: s in Expand(re) <==> PlainDenotes(re, n, s);
    hide Denotes, Expand, Finite;
  }

  /** The pattern denotes the empty string and no other. */
  ghost predicate OnlyEmpty(re: Re) {
    forall s :: Denotes(re, s, false) <==> s == ""
  }

  predicate GroupOrFinite(re: Re) {
    if re.Capture? then |re.subs| == 1 && Finite(re.subs[0]) else Finite(re)
  }

  predicate GroupsOrFinite(subs: seq<Re>) {
    forall i :: 0 <= i < |subs| ==> GroupOrFinite(subs[i])
  }

  /** Every group among the first `n` parts denotes the empty string only. */
  ghost predicate GroupsEmpty(subs: seq<Re>, n: nat)
    requires n <= |subs|
  {
    forall i :: 0 <= i < n && subs[i].Capture? ==> OnlyEmpty(subs[i])
  }

  lemma GroupsEmptyNext(subs: seq<Re>, n: nat)
    requires n < |subs|
    ensures GroupsEmpty(subs, n + 1) <==> GroupsEmpty(subs, n) && (subs[n].Capture? ==> OnlyEmpty(subs[n]))
  {
    hide OnlyEmpty;
  }

  /** The parts of a concatenation that are no groups. */
  function PlainParts(subs: seq<Re>): seq<Re> {
    if subs == [] then []
    else
      var rest, last := PlainParts(subs[..|subs| - 1]), subs[|subs| - 1];
      if last.Capture? then rest else rest + [last]
  }

  lemma PlainNone(subs: seq<Re>)
    ensures PlainParts(subs[..0]) == []
  {
  }

  lemma PlainNext(subs: seq<Re>, n: nat)
    requires 0 < n <= |subs|
    ensures PlainParts(subs[..n])
         == if subs[n - 1].Capture? then PlainParts(subs[..n - 1]) else PlainParts(subs[..n - 1]) + [subs[n - 1]]
  {
    assert subs[..n][..n - 1] == subs[..n - 1];
  }

  /** The first parts are read without regard to the others. */
  lemma {:induction false} ChainPrefix(a: seq<Re>, b: seq<Re>, n: nat, s: string)
    requires n <= |a| && a <= b
    ensures ChainDenotes(Concat(a), n, s, false) <==> ChainDenotes(Concat(b), n, s, false)
    decreases n
  {
    if n == 0 {
    } else {
      assert a[n - 1] == b[n - 1];
      forall k: nat | k <= |s|
        ensures ChainDenotes(Concat(a), n - 1, s[..k], false) <==> ChainDenotes(Concat(b), n - 1, s[..k], false)
      {
        ChainPrefix(a, b, n - 1, s[..k]);
      }
    }
  }

  lemma {:induction false} ExpandPrefix(a: seq<Re>, b: seq<Re>, n: nat)
    requires 0 < n <= |a| && a <= b
    ensures ExpandConcat(Concat(a), n) == ExpandConcat(Concat(b), n)
    decreases n
  {
    assert a[n - 1] == b[n - 1];
    if n == 1 {
    } else {
      ExpandPrefix(a, b, n - 1);
    }
  }

  lemma SkipNext(re: Re, n: nat)
    requires re.Concat? && 0 < n < |re.subs| && GroupOrFinite(re.subs[n])
    requires var p := PlainParts(re.subs[..n]);
             ExpandConcat(re, n) == if p == [] then [] else ExpandConcat(Concat(p), |p|)
    ensures var p := PlainParts(re.subs[..n + 1]);
            ExpandConcat(re, n + 1) == if p == [] then [] else ExpandConcat(Concat(p), |p|)
  {
    hide PlainParts, Denotes, Finite;
    var last, p := re.subs[n], PlainParts(re.subs[..n]);
    PlainNext(re.subs, n + 1);
    if !last.Capture? {
      ExpandExact(last);
      if p != [] {
        ExpandPrefix(p, p + [last], |p|);
      }
    }
  }

  /** The list of the first parts is that of the parts that are no groups. */
  lemma {:induction false} SkipExpand(re: Re, n: nat)
    requires re.Concat? && 0 < n <= |re.subs| && GroupsOrFinite(re.subs)
    ensures var p := PlainParts(re.subs[..n]);
            ExpandConcat(re, n) == if p == [] then [] else ExpandConcat(Concat(p), |p|)
    decreases n
  {
    hide PlainParts, GroupOrFinite;
    if n == 1 {
      PlainNone(re.subs);
      PlainNext(re.subs, 1);
    } else {
      SkipExpand(re, n - 1);
      SkipNext(re, n - 1);
    }
  }

  // The longest string of a pattern.

  ghost predicate Longest(re: Re, m: nat) {
    (exists s :: Denotes(re, s, false) && |s| == m) && forall s :: Denotes(re, s, false) ==> |s| <= m
  }

  ghost predicate LongestChain(re: Re, n: nat, m: nat)
    requires re.Concat? && n <= |re.subs|
  {
    (exists s :: ChainDenotes(re, n, s, false) && |s| == m) && forall s :: ChainDenotes(re, n, s, false) ==> |s| <= m
  }

  lemma {:induction false} LongestListed(q: seq<string>) returns (w: string)
    requires q != []
    ensures w in q && forall s :: s in q ==> |s| <= |w|
  {
    if |q| == 1 {
      w := q[0];
    } else {
      var last, rest := q[|q| - 1], q[..|q| - 1];
      w := LongestListed(rest);
      assert forall s :: s in q ==> s in rest || s == last;
      if |w| < |last| {
        w := last;
      }
    }
  }

  lemma LongestExists(re: Re) returns (m: nat)
    requires GroupOrFinite(re)
    ensures Longest(re, m) && (m == 0 <==> OnlyEmpty(re))
  {
    var inner := if re.Capture? then re.subs[0] else re;
    ExpandExact(inner);
    var w := LongestListed(Expand(inner));
    m := |w|;
    assert Denotes(re, w, false);
    assert forall s :: Denotes(re, s, false) <==> s in Expand(inner);
    hide Denotes, Expand;
    if m == 0 {
      assert forall s :: Denotes(re, s, false) ==> s == "";
    }
  }

  lemma ChainStep(re: Re, n: nat, s: string)
    requires re.Concat? && n < |re.subs|
    ensures ChainDenotes(re, n + 1, s, false)
       <==> exists k: nat :: k <= |s| && ChainDenotes(re, n, s[..k], false) && Denotes(re.subs[n], s[k..], false)
  {
  }

  lemma LongestNext(re: Re, n: nat, a: nat, b: nat)
    requires re.Concat? && n < |re.subs| && LongestChain(re, n, a) && Longest(re.subs[n], b)
    ensures LongestChain(re, n + 1, a + b)
  {
    hide ChainDenotes, Denotes;
    var last := re.subs[n];
    forall s ensures ChainDenotes(re, n + 1, s, false)
      <==> exists k: nat :: k <= |s| && ChainDenotes(re, n, s[..k], false) && Denotes(last, s[k..], false)
    {
      ChainStep(re, n, s);
    }
    var x :| ChainDenotes(re, n, x, false) && |x| == a;
    var y :| Denotes(last, y, false) && |y| == b;
    var z := x + y;
    assert z[..a] == x && z[a..] == y;
    assert ChainDenotes(re, n + 1, z, false) && |z| == a + b;
  }

  lemma LongestNone(re: Re)
    requires re.Concat?
    ensures LongestChain(re, 0, 0)
  {
    assert ChainDenotes(re, 0, "", false);
  }

  lemma LongestPrefix(a: seq<Re>, b: seq<Re>, m: nat)
    requires a <= b && LongestChain(Concat(a), |a|, m)
    ensures LongestChain(Concat(b), |a|, m)
  {
    forall s ensures ChainDenotes(Concat(a), |a|, s, false) <==> ChainDenotes(Concat(b), |a|, s, false) {
      ChainPrefix(a, b, |a|, s);
    }
  }

  lemma LengthsNext(re: Re, n: nat, m: nat, extra: nat, b: nat)
    requires re.Concat? && n < |re.subs| && Longest(re.subs[n], b)
    requires var p := PlainParts(re.subs[..n]);
             LongestChain(re, n, m + extra) && LongestChain(Concat(p), |p|, m)
    ensures LongestChain(re, n + 1, m + extra + b)
    ensures var p := PlainParts(re.subs[..n + 1]);
            LongestChain(Concat(p), |p|, if re.subs[n].Capture? then m else m + b)
  {
    hide LongestChain, Longest, PlainParts;
    var last := re.subs[n];
    var p := PlainParts(re.subs[..n]);
    PlainNext(re.subs, n + 1);
    LongestNext(re, n, m + extra, b);
    if !last.Capture? {
      LongestPrefix(p, p + [last], m);
      LongestNext(Concat(p + [last]), |p|, m, b);
    }
  }

  /** The longest string of the parts that are no groups, and what the groups add to it. */
  lemma {:induction false} Lengths(re: Re, n: nat) returns (m: nat, extra: nat)
    requires re.Concat? && n <= |re.subs| && GroupsOrFinite(re.subs)
    ensures var p := PlainParts(re.subs[..n]); LongestChain(re, n, m + extra) && LongestChain(Concat(p), |p|, m)
    ensures extra == 0 <==> GroupsEmpty(re.subs, n)
    decreases n
  {
    hide LongestChain, Longest, PlainParts, GroupOrFinite, OnlyEmpty;
    if n == 0 {
      PlainNone(re.subs);
      LongestNone(re);
      LongestNone(Concat([]));
      return 0, 0;
    }
    hide GroupsEmpty;
    var last := re.subs[n - 1];
    var b := LongestExists(last);
    m, extra := Lengths(re, n - 1);
    LengthsNext(re, n - 1, m, extra, b);
    GroupsEmptyNext(re.subs, n - 1);
    if last.Capture? {
      extra := extra + b;
    } else {
      m := m + b;
    }
  }

  /** Groups that denote only the empty string change nothing. */
  lemma {:induction false} SkipDenotes(re: Re, n: nat, s: string)
    requires re.Concat? && n <= |re.subs|
    requires GroupsEmpty(re.subs, n)
    ensures var p := PlainParts(re.subs[..n]); ChainDenotes(re, n, s, false) <==> ChainDenotes(Concat(p), |p|, s, false)
    decreases n
  {
    var p := PlainParts(re.subs[..n]);
    if n == 0 {
    } else {
      var last := re.subs[n - 1];
      var p' := PlainParts(re.subs[..n - 1]);
      assert re.subs[..n][..n - 1] == re.subs[..n - 1];
      forall k: nat | k <= |s|
        ensures ChainDenotes(re, n - 1, s[..k], false) <==> ChainDenotes(Concat(p), |p'|, s[..k], false)
      {
        SkipDenotes(re, n - 1, s[..k]);
        ChainPrefix(p', p, |p'|, s[..k]);
      }
      assert s[..|s|] == s && s[|s|..] == "";
    }
  }

  lemma {:induction false} PlainFinite(subs: seq<Re>)
    requires GroupsOrFinite(subs)
    ensures forall i :: 0 <= i < |PlainParts(subs)| ==> Finite(PlainParts(subs)[i])
  {
    hide Finite;
    if subs == [] {
    } else {
      PlainFinite(subs[..|subs| - 1]);
    }
  }

  lemma ChainGroupsExact(re: Re)
    requires re.Concat? && GroupsOrFinite(re.subs)
    ensures var n, p := |re.subs|, PlainParts(re.subs);
            (forall s :: ChainDenotes(Concat(p), |p|, s, false) <==> ChainDenotes(re, n, s, false))
            <==> GroupsEmpty(re.subs, n)
  {
    hide ChainDenotes, Denotes, OnlyEmpty, GroupOrFinite, PlainParts;
    var n, p := |re.subs|, PlainParts(re.subs);
    assert re.subs[..n] == re.subs;
    var m, extra := Lengths(re, n);
    if extra == 0 {
      forall s ensures ChainDenotes(Concat(p), |p|, s, false) <==> ChainDenotes(re, n, s, false) {
        SkipDenotes(re, n, s);
      }
    } else {
      var s :| ChainDenotes(re, n, s, false) && |s| == m + extra;
      assert !ChainDenotes(Concat(p), |p|, s, false);
    }
  }

  lemma FiniteConcat(p: seq<Re>)
    requires forall i :: 0 <= i < |p| ==> Finite(p[i])
    ensures Finite(Concat(p))
  {
  }

  lemma ListedPlain(re: Re)
    requires re.Concat? && re.subs != [] && GroupsOrFinite(re.subs)
    ensures var p := PlainParts(re.subs);
            && (p == [] ==> Expand(re) == [])
            && (p != [] ==> forall s :: s in Expand(re) <==> ChainDenotes(Concat(p), |p|, s, false))
  {
    hide ChainDenotes, Denotes, PlainParts, GroupOrFinite, Finite;
    var p := PlainParts(re.subs);
    assert re.subs[..|re.subs|] == re.subs;
    SkipExpand(re, |re.subs|);
    if p != [] {
      PlainFinite(re.subs);
      FiniteConcat(p);
      PartsExact(Concat(p), |p|);
    }
  }

  lemma DenotesChain(re: Re, s: string)
    requires re.Concat?
    ensures Denotes(re, s, false) <==> ChainDenotes(re, |re.subs|, s, false)
  {
  }

  /**
   In a concatenation with groups and at least one other part the list is what the
   concatenation denotes if and only if every group denotes the empty string only; with
   nothing but groups nothing is listed.
   */
  lemma ConcatGroupsExact(re: Re)
    requires re.Concat? && re.subs != [] && GroupsOrFinite(re.subs)
    ensures PlainParts(re.subs) == [] ==> Expand(re) == []
    ensures PlainParts(re.subs) != [] ==>
              ((forall s :: s in Expand(re) <==> Denotes(re, s, false))
               <==> GroupsEmpty(re.subs, |re.subs|))
  {
    hide Expand, ChainDenotes, Denotes, OnlyEmpty, PlainParts, GroupOrFinite;
    var n, p := |re.subs|, PlainParts(re.subs);
    ListedPlain(re);
    ChainGroupsExact(re);
    forall s ensures Denotes(re, s, false) <==> ChainDenotes(re, n, s, false) {
      DenotesChain(re, s);
    }
    if p != [] && !GroupsEmpty(re.subs, n) {
      var s :| ChainDenotes(Concat(p), |p|, s, false) != ChainDenotes(re, n, s, false);
      assert (s in Expand(re)) != Denotes(re, s, false);
    } else if p != [] {
      forall s ensures s in Expand(re) <==> Denotes(re, s, false) {
        assert ChainDenotes(Concat(p), |p|, s, false) == ChainDenotes(re, n, s, false);
      }
    }
  }

  /** Two patterns of which the list leaves a group out. */
  lemma NestedGroups()
    ensures var re := Alternate([Capture([Literal("jpg", true)]), Literal("png", true)]);
            Expand(re) == ["png"] && Denotes(re, "jpg", true)
    ensures var re := Concat([Literal("jp", true), Capture([Literal("e", true)]), Literal("g", true)]);
            Expand(re) == ["jpg"] && !Denotes(re, "jpg", true)
  {
    GroupInAlternation();
    GroupInConcatenation();
  }

  lemma GroupInAlternation()
    ensures var re := Alternate([Capture([Literal("jpg", true)]), Literal("png", true)]);
            Expand(re) == ["png"] && Denotes(re, "jpg", true)
  {
    var re := Alternate([Capture([Literal("jpg", true)]), Literal("png", true)]);
    assert Lower("jpg") == "jpg" && Lower("png") == "png";
    assert Denotes(re.subs[0], "jpg", true);
    assert SomeDenotes(re, 1, "jpg", true);
    assert ExpandAll(re, 0) == [] && ExpandAll(re, 1) == [] && ExpandAll(re, 2) == ["png"];
  }

  lemma GroupInConcatenation()
    ensures var re := Concat([Literal("jp", true), Capture([Literal("e", true)]), Literal("g", true)]);
            Expand(re) == ["jpg"] && !Denotes(re, "jpg", true)
  {
    var re := Concat([Literal("jp", true), Capture([Literal("e", true)]), Literal("g", true)]);
    assert Lower("jp") == "jp" && Lower("e") == "e" && Lower("g") == "g";
    assert Expand(re.subs[0]) == ["jp"] && Expand(re.subs[1]) == [] && Expand(re.subs[2]) == ["g"];
    assert ExpandConcat(re, 1) == ["jp"];
    assert ExpandConcat(re, 2) == ["jp"];
    assert Cross(["jp"], ["g"]) == ["jpg"] by {
      assert ["jp"][1..] == [] && ["g"][1..] == [];
      assert Cross([], ["g"]) == [] && Prefixed("jp", []) == [];
      assert "jp" + "g" == "jpg";
      assert Prefixed("jp", ["g"]) == ["jpg"];
    }
    assert ExpandConcat(re, 3) == ["jpg"];
    if Denotes(re, "jpg", true) {
      FourLetters(re, "jpg");
    }
  }

  /** What that pattern denotes is four letters long. */
  lemma FourLetters(re: Re, s: string)
    requires re == Concat([Literal("jp", true), Capture([Literal("e", true)]), Literal("g", true)])
    requires Denotes(re, s, true)
    ensures |s| == 4
  {
    var k: nat :| k <= |s| && ChainDenotes(re, 2, s[..k], true) && Denotes(re.subs[2], s[k..], true);
    var s' := s[..k];
    var j: nat :| j <= |s'| && ChainDenotes(re, 1, s'[..j], true) && Denotes(re.subs[1], s'[j..], true);
    var s'' := s'[..j];
    var i: nat :| i <= |s''| && ChainDenotes(re, 0, s''[..i], true) && Denotes(re.subs[0], s''[i..], true);
  }

  // ----- Any pattern --------------------------------------------------------------------------------------

  /** The names that the walker tries each listed suffix on. */
  function Probe(key: string): string {
    "file" + key
  }

  lemma DotFolds(c: char)
    ensures LowerChar(c) == '.' <==> c == '.'
  {
  }

  /** A name that ends like a probe matches as the probe does. */
  lemma ProbeTail(group: Re, name: string, key: string, j: nat)
    requires AllFold(group) && EndsFolded(name, key) && TailMatches(group, key, j) && Lower(key) == key
    ensures TailMatches(group, name, |name| - |key| + j)
  {
    hide Denotes, AllFold;
    var i := |name| - |key| + j;
    var end := name[|name| - |key|..];
    assert Lower(end)[j] == key[j] && end[j] == name[i];
    DotFolds(name[i]);
    LowerParts(end, j + 1);
    LowerParts(key, j + 1);
    assert end[j + 1..] == name[i + 1..];
    FoldDenotes(group, key[j + 1..]);
    FoldDenotes(group, name[i + 1..]);
  }

  lemma KeyLower(list: seq<string>, alternatives: Re, key: string)
    requires Lists(list, alternatives) && key in list
    ensures Lower(key) == key && |key| > 1
  {
    hide Expand;
    var s :| s in Expand(alternatives) && s != "" && key == "." + Lower(s);
    LowerParts(s, 0);
    LowerParts(key, 1);
    assert key[1..] == Lower(s) && Lower(key) == Lower(key)[..1] + Lower(key)[1..];
  }

  /** A match of a probe lies in the suffix. */
  lemma ProbeMatches(fold: bool, group: Re, key: string)
    requires RegexpMatches(Dotted(fold, group), Probe(key))
    ensures exists j: nat :: TailMatches(group, key, j)
  {
    hide RegexpMatches, Denotes, Dotted;
    var name := Probe(key);
    DottedMatches(fold, group, name);
    var i: nat :| TailMatches(group, name, i);
    assert "file"[0] != '.' && "file"[1] != '.' && "file"[2] != '.' && "file"[3] != '.';
    assert i >= 4 && name[i] == key[i - 4];
    assert name[i + 1..] == key[i - 3..];
    assert TailMatches(group, key, i - 4);
  }

  /** The byte matcher accepts nothing more than the regular expression if and only if every probe matches it. */
  lemma ProbesExact(fold: bool, group: Re, list: seq<string>)
    requires AllFold(group) && Lists(list, Unwrapped(group))
    ensures (forall name :: Accepts(list, name) ==> RegexpMatches(Dotted(fold, group), name))
       <==> (forall key :: key in list ==> RegexpMatches(Dotted(fold, group), Probe(key)))
  {
    hide RegexpMatches, Denotes, Dotted, Lists, TailMatches, AllFold;
    if forall key :: key in list ==> RegexpMatches(Dotted(fold, group), Probe(key)) {
      forall name | Accepts(list, name) ensures RegexpMatches(Dotted(fold, group), name) {
        var key :| key in list && EndsFolded(name, key);
        KeyLower(list, Unwrapped(group), key);
        ProbeMatches(fold, group, key);
        var j: nat :| TailMatches(group, key, j);
        ProbeTail(group, name, key, j);
        DottedMatches(fold, group, name);
      }
    } else {
      var key :| key in list && !RegexpMatches(Dotted(fold, group), Probe(key));
      KeyLower(list, Unwrapped(group), key);
      assert EndsFolded(Probe(key), key) by {
        assert Probe(key)[|Probe(key)| - |key|..] == key;
      }
      assert Accepts(list, Probe(key));
    }
  }

  /** The suffixes that a folded name ends with are those of its end. */
  lemma EndsAlike(name: string, i: nat, key: string)
    requires i <= |name| && EndsFolded(Lower(name[i..]), key)
    ensures EndsFolded(name, key)
  {
    var t := name[i..];
    var k := |t| - |key|;
    LowerParts(t, k);
    LowerParts(t[k..], 0);
    assert t[k..] == name[|name| - |key|..];
    assert Lower(Lower(t)[k..]) == Lower(Lower(t[k..]));
  }

  /** It misses nothing if and only if it accepts each string that the pattern denotes, after a dot. */
  lemma NothingMissed(fold: bool, group: Re, list: seq<string>)
    requires AllFold(group)
    ensures (forall name :: RegexpMatches(Dotted(fold, group), name) ==> Accepts(list, name))
       <==> (forall s :: Denotes(group, s, false) ==> Accepts(list, "." + s))
  {
    hide RegexpMatches, Denotes, Dotted, AllFold;
    if forall s :: Denotes(group, s, false) ==> Accepts(list, "." + s) {
      forall name | RegexpMatches(Dotted(fold, group), name) ensures Accepts(list, name) {
        DottedMatches(fold, group, name);
        var i: nat :| TailMatches(group, name, i);
        FoldDenotes(group, name[i + 1..]);
        var key :| key in list && EndsFolded("." + Lower(name[i + 1..]), key);
        TailLower(name, i);
        EndsAlike(name, i, key);
      }
    } else {
      var s :| Denotes(group, s, false) && !Accepts(list, "." + s);
      SpellingMatches(group, s);
      DottedMatches(fold, group, "." + s);
      assert ("." + s)[1..] == s;
      assert TailMatches(group, "." + s, 0);
    }
  }

  lemma TailLower(name: string, i: nat)
    requires i < |name| && name[i] == '.'
    ensures Lower(name[i..]) == "." + Lower(name[i + 1..])
  {
    var t := name[i..];
    LowerParts(t, 1);
    assert t[1..] == name[i + 1..] && t[..1] == ".";
    assert Lower(t) == Lower(t)[..1] + Lower(t)[1..];
  }

  // ----- A pattern without a dot ------------------------------------------------------------------------------

  /** Inside its groups the pattern is `front`, one more part and the anchor; the part is a group of `alternatives`. */
  ghost predicate EndsInAnchor(pattern: Re, front: seq<Re>, group: Re, alternatives: Re) {
    Unwrapped(pattern) == Concat(front + [group, EndText]) && alternatives == Unwrapped(group)
  }

  lemma AnchorFound(pattern: Re, front: seq<Re>, group: Re, alternatives: Re)
    requires EndsInAnchor(pattern, front, group, alternatives)
    ensures AlternationBeforeEndAnchor(pattern) == Found(alternatives)
  {
    var re := Unwrapped(pattern);
    assert |re.subs| == |front| + 2;
    assert re.subs[|front|] == group && re.subs[|front| + 1] == EndText;
  }

  lemma AnchorSplits(pattern: Re, alternatives: Re) returns (front: seq<Re>, group: Re)
    requires AlternationBeforeEndAnchor(pattern) == Found(alternatives)
    ensures EndsInAnchor(pattern, front, group, alternatives)
  {
    var re := Unwrapped(pattern);
    var n := |re.subs|;
    front, group := re.subs[..n - 2], re.subs[n - 2];
    assert re.subs == front + [group, EndText];
  }

  /** The part that the compilation finds is the last before the anchor, whatever comes before it. */
  lemma AnchoredExactly(pattern: Re, alternatives: Re)
    ensures AlternationBeforeEndAnchor(pattern) == Found(alternatives)
       <==> exists front, group :: EndsInAnchor(pattern, front, group, alternatives)
  {
    hide *;
    if AlternationBeforeEndAnchor(pattern) == Found(alternatives) {
      var front, group := AnchorSplits(pattern, alternatives);
    }
    if front, group :| EndsInAnchor(pattern, front, group, alternatives) {
      AnchorFound(pattern, front, group, alternatives);
    }
  }

  /** The form of the pattern for images. */
  function Undotted(group: Re): Re {
    Concat([group, EndText])
  }

  ghost predicate EndMatches(group: Re, name: string, i: nat) {
    i <= |name| && Denotes(group, name[i..], true)
  }

  lemma UndottedMatches(group: Re, name: string)
    ensures RegexpMatches(Undotted(group), name) <==> exists i: nat :: EndMatches(group, name, i)
  {
    var pattern := Undotted(group);
    assert pattern.subs[0] == group && pattern.subs[1] == EndText;
    forall i: nat | i <= |name| ensures ChainDenotes(pattern, 1, name[i..], true) <==> EndMatches(group, name, i) {
      var t := name[i..];
      assert t[0..] == t && t[..0] == "";
      assert ChainDenotes(pattern, 0, t[..0], true);
    }
    hide ChainDenotes, Denotes;
    if i: nat :| EndMatches(group, name, i) {
      assert ChainDenotes(pattern, 1, name[i..], true);
    }
  }

  lemma {:induction false} ShortestListed(q: seq<string>) returns (w: string)
    ensures w == "" ==> forall s :: s in q ==> s == ""
    ensures w != "" ==> w in q && forall s :: s in q && s != "" ==> |w| <= |s|
  {
    if q == [] {
      w := "";
    } else {
      var last, rest := q[|q| - 1], q[..|q| - 1];
      w := ShortestListed(rest);
      assert forall s :: s in q ==> s in rest || s == last;
      if last != "" && (w == "" || |last| < |w|) {
        w := last;
      }
    }
  }

  /**
   For a case-folded pattern (...)$ the byte matcher accepts exactly the names with a dot before a
   match that is not empty.  The regular expression asks for no dot, so that it matches all of these
   names but also others, whatever the alternatives.
   */
  lemma UndottedMisses(group: Re, list: seq<string>)
    requires Finite(Unwrapped(group)) && AllFold(Unwrapped(group)) && Lists(list, Unwrapped(group))
    ensures forall name :: Accepts(list, name) <==> exists i: nat :: i + 1 < |name| && TailMatches(group, name, i)
    ensures forall name :: Accepts(list, name) ==> RegexpMatches(Undotted(group), name)
    ensures exists name :: RegexpMatches(Undotted(group), name) && !Accepts(list, name)
  {
    hide Denotes, Expand, Finite, AllFold, Unwrapped, Lists, RegexpMatches, Accepts, TailMatches;
    forall name ensures Accepts(list, name) <==> exists i: nat :: i + 1 < |name| && TailMatches(group, name, i) {
      AcceptsTail(list, Unwrapped(group), name);
      forall i: nat ensures TailMatches(Unwrapped(group), name, i) <==> TailMatches(group, name, i) {
        TailUnwrapped(group, name, i);
      }
    }
    forall name | Accepts(list, name) ensures RegexpMatches(Undotted(group), name) {
      var i: nat :| i + 1 < |name| && TailMatches(group, name, i);
      TailEnds(group, name, i);
      UndottedMatches(group, name);
    }
    var w := MissedName(group);
    UndottedMatches(group, w);
  }

  lemma TailEnds(group: Re, name: string, i: nat)
    requires i + 1 < |name| && TailMatches(group, name, i)
    ensures EndMatches(group, name, i + 1)
  {
  }

  /** The shortest string that the pattern denotes, not counting the empty one, is a name without such a dot. */
  lemma MissedName(group: Re) returns (w: string)
    requires Finite(Unwrapped(group)) && AllFold(Unwrapped(group))
    ensures EndMatches(group, w, 0)
    ensures forall i: nat :: i + 1 < |w| ==> !TailMatches(group, w, i)
  {
    var alternatives := Unwrapped(group);
    ExpandExact(alternatives);
    w := ShortestListed(Expand(alternatives));
    assert w in Expand(alternatives) by {
      assert Expand(alternatives)[0] in Expand(alternatives);
    }
    hide Expand, Finite, Denotes;
    SpellingMatches(alternatives, w);
    UnwrappedSame(group, w, true);
    assert w[0..] == w;
    forall i: nat | i + 1 < |w| ensures !TailMatches(group, w, i) {
      UnwrappedSame(group, w[i + 1..], true);
      FoldDenotes(alternatives, w[i + 1..]);
    }
  }

  const JPEG := Concat([Literal("jp", true), Quest([Literal("e", true)]), Literal("g", true)])

  /** The tree of the pattern (?i)(?:jpe?g|gif|png)$, with which images are found. */
  const IMAGES := Alternate([JPEG, Literal("gif", true), Literal("png", true)])

  /** Its list, and a name that the pattern matches and the byte matcher does not accept. */
  lemma ImagePattern(list: seq<string>)
    requires Lists(list, IMAGES)
    ensures AlternationBeforeEndAnchor(Undotted(IMAGES)) == Found(IMAGES)
    ensures Expand(IMAGES) == ["jpg", "jpeg", "gif", "png"]
    ensures RegexpMatches(Undotted(IMAGES), "photojpg") && !Accepts(list, "photojpg")
  {
    ImageList();
    ImageMatch();
    NoDot(list, IMAGES, "photojpg");
  }

  lemma NoDot(list: seq<string>, alternatives: Re, name: string)
    requires Lists(list, alternatives) && '.' !in name
    ensures !Accepts(list, name)
  {
    hide Expand;
    if suffix :| suffix in list && EndsFolded(name, suffix) {
      var key :| key in Expand(alternatives) && key != "" && suffix == "." + Lower(key);
      DotFolds(name[|name| - |suffix|]);
    }
  }

  lemma ImageMatch()
    ensures RegexpMatches(Undotted(IMAGES), "photojpg")
  {
    ImageList();
    ImageFinite();
    ExpandExact(IMAGES);
    hide *;
    SpellingMatches(IMAGES, "jpg");
    EndsThere(IMAGES, "photojpg", 5, "jpg");
    UndottedMatches(IMAGES, "photojpg");
  }

  lemma EndsThere(group: Re, name: string, i: nat, s: string)
    requires i <= |name| && name[i..] == s && Denotes(group, s, true)
    ensures EndMatches(group, name, i)
  {
  }

  lemma ImageFinite()
    ensures Finite(IMAGES) && AllFold(IMAGES)
  {
    assert Finite(JPEG.subs[1]) && AllFold(JPEG.subs[1]);
    assert Finite(JPEG) && AllFold(JPEG);
  }

  lemma ImageList()
    ensures Expand(IMAGES) == ["jpg", "jpeg", "gif", "png"]
  {
    JpegList();
    assert Lower("gif") == "gif" && Lower("png") == "png";
    LiteralList("gif");
    LiteralList("png");
    AllNext(IMAGES, 0);
    AllNext(IMAGES, 1);
    AllNext(IMAGES, 2);
    AllOf(IMAGES);
    hide *;
  }

  lemma LiteralList(runes: string)
    ensures Expand(Literal(runes, true)) == [Lower(runes)]
  {
  }

  lemma AllNext(re: Re, n: nat)
    requires re.Alternate? && n < |re.subs|
    ensures ExpandAll(re, n + 1) == ExpandAll(re, n) + Expand(re.subs[n]) && ExpandAll(re, 0) == []
  {
  }

  lemma AllOf(re: Re)
    requires re.Alternate?
    ensures Expand(re) == ExpandAll(re, |re.subs|)
  {
  }

  lemma JpegList()
    ensures Expand(JPEG) == ["jpg", "jpeg"]
  {
    OptionalE();
    LiteralList("jp");
    LiteralList("g");
    assert Lower("jp") == "jp" && Lower("g") == "g";
    PartNext(JPEG, 1);
    PartNext(JPEG, 2);
    CrossJpeg();
    assert Expand(JPEG) == ExpandConcat(JPEG, 3) && ExpandConcat(JPEG, 1) == Expand(JPEG.subs[0]);
  }

  lemma PartNext(re: Re, n: nat)
    requires re.Concat? && 0 < n < |re.subs|
    ensures ExpandConcat(re, n + 1) == ConcatVariants(ExpandConcat(re, n), Expand(re.subs[n]))
  {
  }

  lemma OptionalE()
    ensures Expand(Quest([Literal("e", true)])) == ["", "e"]
  {
    LiteralList("e");
    assert Lower("e") == "e";
    assert ["e"][..0] == [];
    assert NonEmpty(["e"]) == ["e"];
  }

  lemma CrossJpeg()
    ensures Cross(["jp"], ["", "e"]) == ["jp", "jpe"]
    ensures Cross(["jp", "jpe"], ["g"]) == ["jpg", "jpeg"]
  {
    CrossOne("jp", ["", "e"]);
    PrefixedTwo("jp", "", "e");
    assert "jp" + "" == "jp" && "jp" + "e" == "jpe";
    assert ["jp", "jpe"][1..] == ["jpe"];
    CrossOne("jpe", ["g"]);
    PrefixedOne("jp", "g");
    PrefixedOne("jpe", "g");
    assert "jp" + "g" == "jpg" && "jpe" + "g" == "jpeg";
  }

  lemma CrossOne(x: string, b: seq<string>)
    ensures Cross([x], b) == Prefixed(x, b)
  {
    assert [x][1..] == [];
    assert Cross([], b) == [];
  }

  lemma PrefixedOne(x: string, y: string)
    ensures Prefixed(x, [y]) == [x + y]
  {
    assert [y][1..] == [];
    assert Prefixed(x, []) == [];
  }

  lemma PrefixedTwo(x: string, y: string, z: string)
    ensures Prefixed(x, [y, z]) == [x + y, x + z]
  {
    assert [y, z][1..] == [z];
    PrefixedOne(x, z);
  }
}
