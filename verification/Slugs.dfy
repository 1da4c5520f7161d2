/** Organization slugs: `_slugify` and `_unique_slug` (services/auth_service.py). */
module Slugs {
  import opened Prelude
  import opened Text
  import Decimal

  predicate IsSlugChar(c: char) {
    IsLowerAlnum(c) || c == '-'
  }

  predicate AllSlugChars(s: string) {
    forall c :: c in s ==> IsSlugChar(c)
  }

  /**
   * All that is assumed of `str.lower()`: lowering twice changes nothing more, it brings no
   * whitespace to the ends of a string, and it leaves slugs alone.
   */
  ghost predicate IsLowering(f: string -> string) {
    && (forall s: string :: f(f(s)) == f(s))
    && (forall s: string :: Trimmed(IsSpace, s) ==> Trimmed(IsSpace, f(s)))
    && (forall s: string :: AllSlugChars(s) ==> f(s) == s)
  }

  type Lowering = f: string -> string | IsLowering(f) witness (s: string) => s

  lemma LowerTwice(lower: Lowering, s: string)
    ensures lower(lower(s)) == lower(s)
    ensures Trimmed(IsSpace, s) ==> Trimmed(IsSpace, lower(s))
    ensures AllSlugChars(s) ==> lower(s) == s
  {
    assert IsLowering(lower);
  }

  /** The length of the longest prefix of characters that are not [a-z0-9]. */
  function InvalidRun(s: string): (n: nat)
    ensures n <= |s|
    ensures s != "" && !IsLowerAlnum(s[0]) ==> n >= 1
    ensures n < |s| ==> IsLowerAlnum(s[n])
  {
    if s == "" || IsLowerAlnum(s[0]) then 0 else 1 + InvalidRun(s[1..])
  }

  /** `re.sub(r"[^a-z0-9]+", "-", s)` */
  function Collapse(s: string): string
    decreases |s|
  {
    if s == "" then ""
    else if IsLowerAlnum(s[0]) then [s[0]] + Collapse(s[1..])
    else "-" + Collapse(s[InvalidRun(s)..])
  }

  predicate IsHyphen(c: char) {
    c == '-'
  }

  /** `_slugify` */
  function Slugify(lower: Lowering, value: string): string {
    var slug := StripBy(IsHyphen, Collapse(lower(Strip(value))));
    if slug == "" then "org" else slug
  }

  /** Runs of [a-z0-9] joined by single hyphens. */
  predicate IsSlug(s: string) {
    && s != "" && AllSlugChars(s)
    && s[0] != '-' && s[|s| - 1] != '-'
    && forall i :: 0 <= i < |s| - 1 ==> !(s[i] == '-' && s[i + 1] == '-')
  }

  /** Slug characters with no two hyphens in a row. */
  predicate SingleHyphens(s: string) {
    && (forall i :: 0 <= i < |s| ==> IsSlugChar(s[i]))
    && forall i :: 0 <= i < |s| - 1 ==> !(s[i] == '-' && s[i + 1] == '-')
  }

  lemma {:induction false} CollapseSingle(s: string)
    ensures SingleHyphens(Collapse(s))
    ensures Collapse(s) != "" && s != "" && IsLowerAlnum(s[0]) ==> Collapse(s)[0] == s[0]
    decreases |s|
  {
    if s != "" {
      var rest := if IsLowerAlnum(s[0]) then s[1..] else s[InvalidRun(s)..];
      CollapseSingle(rest);
      if rest != "" && !IsLowerAlnum(s[0]) {
        assert rest[0] == s[InvalidRun(s)];
      }
    }
  }

  lemma {:induction false} StripKeepsSingle(s: string)
    requires SingleHyphens(s)
    ensures SingleHyphens(StripBy(IsHyphen, s))
  {
    if s == "" {
    } else if IsHyphen(s[0]) {
      StripKeepsSingle(s[1..]);
    } else if IsHyphen(s[|s| - 1]) {
      StripKeepsSingle(s[..|s| - 1]);
    }
  }

  /** Single hyphens only: collapsing has nothing to do. */
  lemma {:induction false} CollapseFixed(s: string)
    requires SingleHyphens(s)
    ensures Collapse(s) == s
    decreases |s|
  {
    if s != "" {
      CollapseFixed(s[1..]);
      assert [s[0]] + s[1..] == s;
      if !IsLowerAlnum(s[0]) {
        assert |s| > 1 ==> IsLowerAlnum(s[1]);
        assert InvalidRun(s[1..]) == 0;
      }
    }
  }

  /** `_slugify` always yields a slug, and a slug is its own slug: applying it twice changes nothing. */
  lemma SlugifyIsSlug(lower: Lowering, value: string)
    ensures IsSlug(Slugify(lower, value))
    ensures Slugify(lower, Slugify(lower, value)) == Slugify(lower, value)
  {
    var collapsed := Collapse(lower(Strip(value)));
    CollapseSingle(lower(Strip(value)));
    StripKeepsSingle(collapsed);
    SlugFixed(lower, Slugify(lower, value));
  }

  lemma SlugFixed(lower: Lowering, s: string)
    ensures IsSlug(s) ==> Slugify(lower, s) == s
  {
    if IsSlug(s) {
      assert s[0] in s && s[|s| - 1] in s;
      assert lower(s) == s;
      CollapseFixed(s);
    }
  }

  /** The fixed points of `_slugify` are exactly the slugs. */
  lemma FixedPointsAreSlugs(lower: Lowering, s: string)
    ensures Slugify(lower, s) == s <==> IsSlug(s)
  {
    SlugifyIsSlug(lower, s);
    SlugFixed(lower, s);
  }

  // ----- unique slugs -----

  function Take(s: string, n: nat): string {
    if |s| <= n then s else s[..n]
  }

  /** The candidate that ends in a counter. */
  function Candidate(base: string, suffix: nat): string {
    Take(base, 66) + "-" + Decimal.Str(suffix)
  }

  function Candidates(base: string, lo: nat, hi: nat): set<string> {
    set k | lo <= k < hi :: Candidate(base, k)
  }

  lemma CandidateInjective(base: string, j: nat, k: nat)
    ensures Candidate(base, j) == Candidate(base, k) <==> j == k
  {
    var p := Take(base, 66) + "-";
    if Candidate(base, j) == Candidate(base, k) {
      assert (p + Decimal.Str(j))[|p|..] == Decimal.Str(j);
      assert (p + Decimal.Str(k))[|p|..] == Decimal.Str(k);
      Decimal.StrInjective(j, k);
    }
  }

  lemma {:induction false} CandidatesCount(base: string, lo: nat, hi: nat)
    requires lo <= hi
    ensures |Candidates(base, lo, hi)| == hi - lo
    decreases hi
  {
    hide Candidate;
    if lo < hi {
      CandidatesCount(base, lo, hi - 1);
      assert Candidates(base, lo, hi) == Candidates(base, lo, hi - 1) + {Candidate(base, hi - 1)};
      forall k | lo <= k < hi - 1
        ensures Candidate(base, k) != Candidate(base, hi - 1)
      {
        CandidateInjective(base, k, hi - 1);
      }
      assert Candidate(base, hi - 1) !in Candidates(base, lo, hi - 1);
    } else {
      assert Candidates(base, lo, hi) == {};
    }
  }

  /** Every candidate tried so far is taken, so there are no more of them than slugs. */
  lemma Pigeonhole(base: string, taken: set<string>, suffix: nat)
    requires 2 <= suffix && Candidates(base, 2, suffix) <= taken
    ensures suffix - 2 <= |taken|
  {
    CandidatesCount(base, 2, suffix);
    SubsetSize(Candidates(base, 2, suffix), taken);
  }

  /** The width of the slug column. */
  const SLUG_WIDTH: nat := 80

  lemma CandidateFits(base: string, suffix: nat)
    requires suffix < Decimal.Pow10(13)
    ensures |Candidate(base, suffix)| <= SLUG_WIDTH
  {
    Decimal.PrintLength(suffix, 13);
  }

  /** The first 70 characters of the base if that is free, else its first 66 with the lowest free counter from 2. */
  ghost predicate FirstFree(taken: set<string>, base: string, slug: string) {
    var plain, stem := if |base| <= 70 then base else base[..70], if |base| <= 66 then base else base[..66];
    && slug !in taken
    && (slug == plain
        || (plain in taken
            && exists k: nat :: 2 <= k && slug == stem + "-" + Decimal.Str(k)
                 && forall j: nat :: 2 <= j < k ==> stem + "-" + Decimal.Str(j) in taken))
  }

  lemma FirstFreeSuffix(taken: set<string>, base: string, k: nat)
    requires 2 <= k && Take(base, 70) in taken && Candidate(base, k) !in taken && Candidates(base, 2, k) <= taken
    ensures FirstFree(taken, base, Candidate(base, k))
  {
    hide Decimal.Str;
    assert forall j: nat :: Candidate(base, j) == (if |base| <= 66 then base else base[..66]) + "-" + Decimal.Str(j);
    assert forall j: nat :: 2 <= j < k ==> Candidate(base, j) in Candidates(base, 2, k);
  }

  /**
   * `_unique_slug` terminates with a free slug: the base itself, or the base and the first free
   * suffix, which never exceeds the number of slugs in use plus two. It fits the column while that
   * number is below 10^13.
   */
  method UniqueSlug(taken: set<string>, base: string) returns (slug: string)
    ensures slug !in taken
    ensures slug == Take(base, 70) || (Take(base, 70) in taken
      && exists k: nat :: 2 <= k <= |taken| + 2 && slug == Candidate(base, k) && Candidates(base, 2, k) <= taken)
    ensures FirstFree(taken, base, slug)
    ensures |taken| + 2 < Decimal.Pow10(13) ==> |slug| <= SLUG_WIDTH
  {
    slug := Take(base, 70);
    var suffix := 2;
    while slug in taken
      invariant suffix >= 2
      invariant Candidates(base, 2, suffix - 1) <= taken
      invariant suffix == 2 ==> slug == Take(base, 70)
      invariant suffix > 2 ==> slug == Candidate(base, suffix - 1) && Take(base, 70) in taken
      invariant suffix <= |taken| + 3
      decreases |taken| + 3 - suffix
    {
      assert Candidates(base, 2, suffix) <= taken;
      Pigeonhole(base, taken, suffix);
      slug := Candidate(base, suffix);
      suffix := suffix + 1;
    }
    if suffix > 2 {
      FirstFreeSuffix(taken, base, suffix - 1);
      if |taken| + 2 < Decimal.Pow10(13) {
        CandidateFits(base, suffix - 1);
      }
    }
  }

  // ----- what a slug says -----

  /** The length of the longest prefix of [a-z0-9]. */
  function ValidRun(s: string): (n: nat)
    ensures n <= |s|
    ensures forall i :: 0 <= i < n ==> IsLowerAlnum(s[i])
    ensures n < |s| ==> !IsLowerAlnum(s[n])
    ensures s != "" && IsLowerAlnum(s[0]) ==> n >= 1
  {
    if s == "" || !IsLowerAlnum(s[0]) then 0 else 1 + ValidRun(s[1..])
  }

  /** The maximal runs of [a-z0-9], in order. */
  function Words(s: string): seq<string>
    decreases |s|
  {
    if s == "" then []
    else if IsLowerAlnum(s[0]) then [s[..ValidRun(s)]] + Words(s[ValidRun(s)..])
    else Words(s[1..])
  }

  lemma {:induction false} SkipInvalid(s: string)
    ensures Words(s) == Words(s[InvalidRun(s)..])
    decreases |s|
  {
    if s != "" && !IsLowerAlnum(s[0]) {
      SkipInvalid(s[1..]);
      assert s[1..][InvalidRun(s[1..])..] == s[InvalidRun(s)..];
    } else {
      assert s[0..] == s;
    }
  }

  /** One more character at the front of a word. */
  lemma WordsCons(c: char, s: string, t: string)
    requires IsLowerAlnum(c) && Words(s) == Words(t)
    requires (s != "" && IsLowerAlnum(s[0])) <==> (t != "" && IsLowerAlnum(t[0]))
    ensures Words([c] + s) == Words([c] + t)
  {
    ConsWords(c, s);
    ConsWords(c, t);
  }

  lemma {:induction false} ValidRunOf(w: string, rest: string)
    requires forall i :: 0 <= i < |w| ==> IsLowerAlnum(w[i])
    requires rest != "" ==> !IsLowerAlnum(rest[0])
    ensures ValidRun(w + rest) == |w|
  {
    if w == "" {
      assert w + rest == rest;
    } else {
      assert (w + rest)[1..] == w[1..] + rest;
      ValidRunOf(w[1..], rest);
    }
  }

  /** A word up front, followed by anything that does not prolong it. */
  lemma WordFirst(w: string, rest: string)
    requires w != "" && forall i :: 0 <= i < |w| ==> IsLowerAlnum(w[i])
    requires rest != "" ==> !IsLowerAlnum(rest[0])
    ensures Words(w + rest) == [w] + Words(rest)
  {
    ValidRunOf(w, rest);
    hide ValidRun;
    assert (w + rest)[..|w|] == w && (w + rest)[|w|..] == rest;
  }

  lemma ConsWords(c: char, s: string)
    requires IsLowerAlnum(c)
    ensures Words([c] + s) == if s != "" && IsLowerAlnum(s[0]) then [[c] + Words(s)[0]] + Words(s)[1..] else [[c]] + Words(s)
  {
    hide ValidRun, Words;
    if s != "" && IsLowerAlnum(s[0]) {
      var w, rest := s[..ValidRun(s)], s[ValidRun(s)..];
      assert s == w + rest && [c] + s == ([c] + w) + rest;
      WordFirst(w, rest);
      WordFirst([c] + w, rest);
    } else {
      WordFirst([c], s);
    }
  }

  lemma {:induction false} CollapseKeepsWords(s: string)
    ensures Words(Collapse(s)) == Words(s)
    ensures (s != "" && IsLowerAlnum(s[0])) <==> (Collapse(s) != "" && IsLowerAlnum(Collapse(s)[0]))
    decreases |s|
  {
    if s == "" {
    } else if IsLowerAlnum(s[0]) {
      CollapseKeepsWords(s[1..]);
      WordsCons(s[0], Collapse(s[1..]), s[1..]);
      assert [s[0]] + s[1..] == s;
    } else {
      var rest := s[InvalidRun(s)..];
      CollapseKeepsWords(rest);
      SkipInvalid(s);
      assert ("-" + Collapse(rest))[1..] == Collapse(rest);
    }
  }

  lemma {:induction false} TrailingHyphen(s: string)
    ensures Words(s + "-") == Words(s)
    decreases |s|
  {
    if s == "" {
      assert ("" + "-")[1..] == "";
    } else {
      TrailingHyphen(s[1..]);
      assert s + "-" == [s[0]] + (s[1..] + "-");
      if IsLowerAlnum(s[0]) {
        assert (s[1..] + "-")[0] == if |s| > 1 then s[1] else '-';
        WordsCons(s[0], s[1..] + "-", s[1..]);
        assert [s[0]] + s[1..] == s;
      } else {
        assert (s + "-")[1..] == s[1..] + "-";
      }
    }
  }

  lemma {:induction false} StripKeepsWords(s: string)
    ensures Words(StripBy(IsHyphen, s)) == Words(s)
    decreases |s|
  {
    if s == "" {
    } else if IsHyphen(s[0]) {
      StripKeepsWords(s[1..]);
    } else if IsHyphen(s[|s| - 1]) {
      StripKeepsWords(s[..|s| - 1]);
      TrailingHyphen(s[..|s| - 1]);
      assert s[..|s| - 1] + "-" == s;
    }
  }

  /**
   * A slug spells the words of the lowered name, in order and nothing else; only a name without any
   * becomes "org".
   */
  lemma SlugKeepsWords(lower: Lowering, value: string)
    ensures var words := Words(lower(Strip(value)));
            Words(Slugify(lower, value)) == if words == [] then ["org"] else words
  {
    var lowered := lower(Strip(value));
    CollapseKeepsWords(lowered);
    StripKeepsWords(Collapse(lowered));
    CollapseSingle(lowered);
    StripKeepsSingle(Collapse(lowered));
    var slug := StripBy(IsHyphen, Collapse(lowered));
    if slug == "" {
      OrgIsAWord();
    } else {
      assert Words(slug) != [];
    }
  }

  lemma OrgIsAWord()
    ensures Words("org") == ["org"]
  {
    ConsWords('g', "");
    ConsWords('r', "g");
    ConsWords('o', "rg");
    assert ['r'] + "g" == "rg" && ['o'] + "rg" == "org" && ['g'] + "" == "g";
  }
}
