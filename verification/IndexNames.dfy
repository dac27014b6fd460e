/**
 Fresh index names: the base of a name, or the base with the first free number.
 */
module IndexNames {

  // ----- Numbers in names -----------------------------------------------------------------

  function Digit(n: nat): (c: char)
    requires n < 10
    ensures '0' <= c <= '9'
  {
    ('0' as int + n) as char
  }

  function Itoa(n: nat): (s: string)
    ensures s != "" && forall c <- s :: '0' <= c <= '9'
  {
    if n < 10 then [Digit(n)] else Itoa(n / 10) + [Digit(n % 10)]
  }

  lemma {:induction false} ItoaInjective(m: nat, n: nat)
    requires Itoa(m) == Itoa(n)
    ensures m == n
    decreases m
  {
    var a, b := Itoa(m), Itoa(n);
    assert a[|a| - 1] == Digit(m % 10) && b[|b| - 1] == Digit(n % 10);
    assert m % 10 == n % 10;
    if m < 10 || n < 10 {
      assert |a| == 1 || |b| == 1;
    } else {
      assert a[..|a| - 1] == Itoa(m / 10) && b[..|b| - 1] == Itoa(n / 10);
      ItoaInjective(m / 10, n / 10);
    }
  }

  /** The number that a decimal text stands for. */
  function Value(s: string): int {
    if s == "" then 0 else 10 * Value(s[..|s| - 1]) + (s[|s| - 1] as int - '0' as int)
  }

  /** The text of a number is its decimal one, without leading zeros. */
  lemma {:induction false} ItoaDecimal(n: nat)
    ensures Value(Itoa(n)) == n
    ensures n > 0 ==> Itoa(n)[0] != '0'
  {
    if n < 10 {
      assert [Digit(n)][..0] == "";
    } else {
      ItoaDecimal(n / 10);
      var s := Itoa(n);
      assert s[..|s| - 1] == Itoa(n / 10) && s[0] == Itoa(n / 10)[0];
    }
  }

  predicate IsDigits(s: string) {
    s != "" && forall c <- s :: '0' <= c <= '9'
  }

  function LastUnderscore(s: string): (i: int)
    ensures -1 <= i < |s|
    ensures i >= 0 ==> s[i] == '_'
    ensures forall j :: i < j < |s| ==> s[j] != '_'
  {
    if s == "" then -1
    else if s[|s| - 1] == '_' then |s| - 1
    else LastUnderscore(s[..|s| - 1])
  }

  /** The name without a trailing underscore and digits. */
  function StripIndexSuffix(name: string): string {
    var i := LastUnderscore(name);
    if i >= 0 && IsDigits(name[i + 1..]) then name[..i] else name
  }

  function Numbered(base: string, i: nat): string {
    base + "_" + Itoa(i)
  }

  lemma StripNumbered(base: string, i: nat)
    ensures StripIndexSuffix(Numbered(base, i)) == base
  {
    hide LastUnderscore, Itoa;
    var name := Numbered(base, i);
    assert name[|base|] == '_' && name[|base| + 1..] == Itoa(i);
    forall j | |base| < j < |name| ensures name[j] != '_' {
      assert name[j] == Itoa(i)[j - |base| - 1];
      assert Itoa(i)[j - |base| - 1] in Itoa(i);
    }
    assert LastUnderscore(name) == |base|;
    assert name[..|base|] == base;
  }

  lemma NumberedInjective(base: string, i: nat, j: nat)
    requires Numbered(base, i) == Numbered(base, j)
    ensures i == j
  {
    assert Numbered(base, i)[|base| + 1..] == Itoa(i) && Numbered(base, j)[|base| + 1..] == Itoa(j);
    ItoaInjective(i, j);
  }

  // ----- The search ends --------------------------------------------------------------------

  /** The names with the numbers 1 to n. */
  function Candidates(base: string, n: nat): (s: set<string>)
    ensures forall x :: x in s <==> exists j: nat :: 1 <= j <= n && x == Numbered(base, j)
  {
    if n == 0 then {} else Candidates(base, n - 1) + {Numbered(base, n)}
  }

  lemma {:induction false} CandidatesSize(base: string, n: nat)
    ensures |Candidates(base, n)| == n
  {
    if n == 0 {
    } else {
      CandidatesSize(base, n - 1);
      if Numbered(base, n) in Candidates(base, n - 1) {
        var j: nat :| 1 <= j <= n - 1 && Numbered(base, n) == Numbered(base, j);
        NumberedInjective(base, n, j);
      }
    }
  }

  lemma SubsetSize(a: set<string>, b: set<string>)
    requires a <= b
    ensures |a| <= |b|
  {
    assert b == a + (b - a);
  }

  /** There are no more taken numbers than taken names. */
  lemma Pigeonhole(base: string, taken: set<string>, n: nat)
    requires forall j: nat | 1 <= j <= n :: Numbered(base, j) in taken
    ensures n <= |taken|
  {
    CandidatesSize(base, n);
    SubsetSize(Candidates(base, n), taken);
  }

  // ----- Allocation ---------------------------------------------------------------------------

  /** The base if it is free, and otherwise the base with the least free number. */
  ghost predicate Allocates(active: string, taken: set<string>, name: string) {
    var base := StripIndexSuffix(active);
    && name !in taken
    && (name == base || (base in taken && exists i: nat :: LeastFree(base, taken, i) && name == Numbered(base, i)))
  }

  ghost predicate LeastFree(base: string, taken: set<string>, i: nat) {
    i >= 1 && Numbered(base, i) !in taken && forall j: nat | 1 <= j < i :: Numbered(base, j) in taken
  }

  method AllocateIndexName(active: string, existing: seq<string>) returns (name: string)
    ensures Allocates(active, (set x | x in existing), name)
  {
    var base := StripIndexSuffix(active);
    var taken := set x | x in existing;
    if base !in taken {
      return base;
    }
    var i := 1;
    while true
      invariant i >= 1 && forall j: nat | 1 <= j < i :: Numbered(base, j) in taken
      invariant i - 1 <= |taken|
      decreases |taken| + 1 - i
    {
      name := Numbered(base, i);
      if name !in taken {
        assert LeastFree(base, taken, i);
        return;
      }
      Pigeonhole(base, taken, i);
      i := i + 1;
    }
  }

  /** There is always a name to allocate. */
  lemma AllocationExists(active: string, taken: set<string>) returns (name: string)
    ensures Allocates(active, taken, name)
  {
    var base := StripIndexSuffix(active);
    if base !in taken {
      return base;
    }
    var i := FirstFree(base, taken, 1);
    return Numbered(base, i);
  }

  lemma {:induction false} FirstFree(base: string, taken: set<string>, i: nat) returns (k: nat)
    requires i >= 1 && forall j: nat | 1 <= j < i :: Numbered(base, j) in taken
    ensures LeastFree(base, taken, k)
    decreases |taken| + 1 - i
  {
    Pigeonhole(base, taken, i - 1);
    if Numbered(base, i) !in taken {
      return i;
    }
    Pigeonhole(base, taken, i);
    k := FirstFree(base, taken, i + 1);
  }

  /** The allocated name is determined by the names that are taken. */
  lemma AllocatesOne(active: string, taken: set<string>, a: string, b: string)
    requires Allocates(active, taken, a) && Allocates(active, taken, b)
    ensures a == b
  {
    var base := StripIndexSuffix(active);
    if a != base && b != base {
      var i: nat :| LeastFree(base, taken, i) && a == Numbered(base, i);
      var j: nat :| LeastFree(base, taken, j) && b == Numbered(base, j);
      assert i == j;
    }
  }

  // ----- Names over many rotations ---------------------------------------------------------------

  /** The name without all its trailing numbers. */
  function Root(name: string): string
    decreases |name|
  {
    var base := StripIndexSuffix(name);
    if base == name then name else Root(base)
  }

  lemma RootNumbered(base: string, i: nat)
    ensures Root(Numbered(base, i)) == Root(base)
  {
    hide StripIndexSuffix, Itoa;
    StripNumbered(base, i);
    assert |Numbered(base, i)| > |base|;
  }

  lemma RootStripped(name: string)
    ensures Root(StripIndexSuffix(name)) == Root(name)
  {
    hide StripIndexSuffix;
  }

  /** A name that does not end in a digit is its own root. */
  lemma LetterEnds(name: string)
    requires name != "" && !('0' <= name[|name| - 1] <= '9')
    ensures StripIndexSuffix(name) == name && Root(name) == name
  {
    NoDigitsAfter(name);
    hide StripIndexSuffix;
  }

  lemma NoDigitsAfter(name: string)
    requires name != "" && !('0' <= name[|name| - 1] <= '9')
    ensures StripIndexSuffix(name) == name
  {
    hide LastUnderscore;
    var i := LastUnderscore(name);
    if i >= 0 && i + 1 < |name| {
      assert name[i + 1..][|name| - i - 2] == name[|name| - 1];
      assert name[|name| - 1] in name[i + 1..];
    }
  }

  /** Allocation keeps the root of a name. */
  lemma AllocatesRoot(active: string, taken: set<string>, name: string)
    requires Allocates(active, taken, name)
    ensures Root(name) == Root(active)
  {
    hide Root, StripIndexSuffix, Numbered;
    var base := StripIndexSuffix(active);
    RootStripped(active);
    if name != base {
      var i: nat :| LeastFree(base, taken, i) && name == Numbered(base, i);
      RootNumbered(base, i);
    }
  }

  /** The other of the two names that an index goes through. */
  function Other(base: string, name: string): string {
    if name == base then Numbered(base, 1) else base
  }

  /** A base that does not end in a number, or that base with number 1. */
  predicate OfPair(base: string, name: string) {
    StripIndexSuffix(base) == base && (name == base || name == Numbered(base, 1))
  }

  lemma NotItsNumber(base: string)
    ensures Numbered(base, 1) != base
  {
    assert |Numbered(base, 1)| > |base|;
  }

  lemma PairStrips(base: string, name: string)
    requires OfPair(base, name)
    ensures StripIndexSuffix(name) == base && Root(name) == base
    ensures OfPair(base, Other(base, name)) && Other(base, name) != name && Other(base, Other(base, name)) == name
  {
    hide StripIndexSuffix, Itoa, Numbered;
    StripNumbered(base, 1);
    RootNumbered(base, 1);
    NotItsNumber(base);
  }

  /** A name whose stripped form is the base or the free name takes the free name, and no other name does. */
  lemma TakesOther(base: string, name: string, taken: set<string>, m: string, next: string)
    requires OfPair(base, name) && name in taken && Other(base, name) !in taken
    requires Allocates(m, taken, next)
    ensures next == Other(base, name) <==> StripIndexSuffix(m) == base || StripIndexSuffix(m) == Other(base, name)
  {
    hide StripIndexSuffix, Itoa, Root, Numbered;
    var o, b := Other(base, name), StripIndexSuffix(m);
    PairStrips(base, name);
    PairStrips(base, o);
    if b == o {
      AllocatesOne(m, taken, next, o);
    } else if b == base {
      assert LeastFree(base, taken, 1);
      AllocatesOne(m, taken, next, o);
    } else if next == o {
      var i: nat :| LeastFree(b, taken, i) && next == Numbered(b, i);
      StripNumbered(b, i);
    }
  }

  /** An index of a pair goes to its other name if and only if that name is free. */
  lemma Alternates(base: string, name: string, taken: set<string>, next: string)
    requires OfPair(base, name) && name in taken
    requires Allocates(name, taken, next)
    ensures next == Other(base, name) <==> Other(base, name) !in taken
  {
    hide StripIndexSuffix, Numbered, Root, Other;
    PairStrips(base, name);
    if Other(base, name) !in taken {
      TakesOther(base, name, taken, name, next);
    }
  }

  /** A name with two numbers can take the numbered name, and the base then gets number 2. */
  lemma TakenByLongerName()
    ensures var taken := {"idx", "idx_1_3"};
            && StripIndexSuffix("idx_1_3") == "idx_1" && StripIndexSuffix("idx") == "idx"
            && Allocates("idx_1_3", taken, "idx_1")
            && Allocates("idx", taken + {"idx_1"}, "idx_2")
  {
    StripNumbered("idx_1", 3);
    assert Itoa(1) == "1" && Itoa(2) == "2" && Itoa(3) == "3";
    assert Numbered("idx_1", 3) == "idx_1_3";
    assert Numbered("idx", 1) == "idx_1" && Numbered("idx", 2) == "idx_2";
    assert StripIndexSuffix("idx") == "idx" by {
      assert '_' !in "idx";
    }
    assert LeastFree("idx", {"idx", "idx_1_3", "idx_1"}, 2);
    assert {"idx", "idx_1_3"} + {"idx_1"} == {"idx", "idx_1_3", "idx_1"};
  }
}
