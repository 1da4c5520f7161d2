/** `fnmatch.fnmatchcase`, and what a trailing `:*` selects. */
module Glob {
  import opened Text
  import KeyCodec

  datatype Token = Star | One | Class(negated: bool, members: string) | Lit(c: char)

  /** The first ']' at or after `i`, or the length of `p`. */
  function FindClose(p: string, i: nat): (j: nat)
    requires i <= |p|
    ensures i <= j <= |p|
    decreases |p| - i
  {
    if i == |p| || p[i] == ']' then i else FindClose(p, i + 1)
  }

  /** Where the bracket expression opening `p` ends; the length of `p` when it never does. */
  function ClassEnd(p: string): (j: nat)
    requires p != "" && p[0] == '['
    ensures 1 <= j <= |p| && (j < |p| ==> 2 <= j)
  {
    var first := if |p| > 1 && p[1] == '!' then 2 else 1;
    FindClose(p, if first < |p| && p[first] == ']' then first + 1 else first)
  }

  /** The first token of a pattern and what follows it. An unclosed '[' is literal. */
  function Head(p: string): (r: (Token, string))
    requires p != ""
    ensures |r.1| < |p|
  {
    if p[0] == '*' then (Star, p[1..])
    else if p[0] == '?' then (One, p[1..])
    else if p[0] == '[' && ClassEnd(p) < |p| then
      var body := p[1..ClassEnd(p)];
      (if body[0] == '!' then Class(true, body[1..]) else Class(false, body), p[ClassEnd(p) + 1..])
    else (Lit(p[0]), p[1..])
  }

  function Parse(p: string): seq<Token>
    decreases |p|
  {
    if p == "" then [] else [Head(p).0] + Parse(Head(p).1)
  }

  predicate InMembers(members: string, c: char) {
    if members == "" then false
    else if |members| >= 3 && members[1] == '-' then members[0] <= c <= members[2] || InMembers(members[3..], c)
    else members[0] == c || InMembers(members[1..], c)
  }

  /** One-character tokens only. */
  predicate Accepts(t: Token, c: char) {
    match t
    case Star => false
    case One => true
    case Class(negated, members) => InMembers(members, c) != negated
    case Lit(l) => l == c
  }

  predicate Matches(ts: seq<Token>, s: string)
    decreases |ts| + |s|
  {
    if ts == [] then s == ""
    else if ts[0] == Star then Matches(ts[1..], s) || (s != "" && Matches(ts, s[1..]))
    else s != "" && Accepts(ts[0], s[0]) && Matches(ts[1..], s[1..])
  }

  predicate GlobMatch(pattern: string, s: string) {
    Matches(Parse(pattern), s)
  }

  /** No active wildcard: every character of `p` stands for itself. */
  predicate Plain(p: string) {
    forall t :: t in Parse(p) ==> t.Lit?
  }

  /** `s` has the segments of `p` followed by at least one more. */
  predicate ExtendsSegments(s: string, p: string) {
    |Split(p)| < |Split(s)| && Split(s)[..|Split(p)|] == Split(p)
  }

  const TAIL: seq<Token> := [Lit(SEP), Star]

  lemma {:induction false} CloseUnaffected(p: string, suffix: string, i: nat)
    requires i <= |p| && ']' !in suffix
    ensures FindClose(p + suffix, i) == if FindClose(p, i) < |p| then FindClose(p, i) else |p + suffix|
    decreases |p| - i
  {
    if i == |p| {
      CloseAbsent(p + suffix, i);
    } else if p[i] != ']' {
      CloseUnaffected(p, suffix, i + 1);
    }
  }

  lemma {:induction false} CloseAbsent(p: string, i: nat)
    requires i <= |p| && ']' !in p[i..]
    ensures FindClose(p, i) == |p|
    decreases |p| - i
  {
    if i < |p| {
      assert p[i] == p[i..][0];
      CloseAbsent(p, i + 1);
    }
  }

  lemma HeadTail(p: string)
    requires p != ""
    ensures Head(p + ":*") == (Head(p).0, Head(p).1 + ":*")
  {
    var q := p + ":*";
    assert q[0] == p[0] && q[1..] == p[1..] + ":*";
    if p[0] == '[' {
      var first := if |p| > 1 && p[1] == '!' then 2 else 1;
      CloseUnaffected(p, ":*", if first < |p| && p[first] == ']' then first + 1 else first);
      var e := ClassEnd(p);
      assert ClassEnd(q) == if e < |p| then e else |q|;
      if e < |p| {
        assert q[1..e] == p[1..e] && q[e + 1..] == p[e + 1..] + ":*";
      }
    }
  }

  lemma {:induction false} ParseTail(p: string)
    ensures Parse(p + ":*") == Parse(p) + TAIL
    decreases |p|
  {
    var q := p + ":*";
    if p == "" {
      assert q == ":*" && Head(q) == (Lit(SEP), "*") && Head("*") == (Star, "");
      assert Parse("*") == [Star] + Parse("");
    } else {
      HeadTail(p);
      ParseTail(Head(p).1);
    }
  }

  lemma {:induction false} StarMatchesAll(s: string)
    ensures Matches([Star], s)
  {
    if s != "" {
      StarMatchesAll(s[1..]);
    } else {
      assert Matches([Star][1..], s);
    }
  }

  lemma PrefixStep(s: string, p: string, tail: string)
    requires p != ""
    ensures HasPrefix(s, p + tail) <==> s != "" && s[0] == p[0] && HasPrefix(s[1..], p[1..] + tail)
  {
    var full := p + tail;
    assert full[0] == p[0] && full[1..] == p[1..] + tail;
    if s != "" {
      assert s == [s[0]] + s[1..] && full == [full[0]] + full[1..];
      if |full| <= |s| {
        assert s[..|full|][0] == s[0] && s[..|full|][1..] == s[1..][..|full| - 1];
      }
    }
  }

  lemma PlainHead(p: string)
    requires p != "" && Plain(p)
    ensures Head(p) == (Lit(p[0]), p[1..]) && Plain(p[1..])
  {
    assert Parse(p)[0] in Parse(p);
    assert forall t :: t in Parse(p[1..]) ==> t in [Head(p).0] + Parse(p[1..]);
  }

  lemma {:induction false} PlainTokens(p: string, s: string)
    requires Plain(p)
    ensures Matches(Parse(p) + TAIL, s) <==> HasPrefix(s, p + [SEP])
  {
    var ts := Parse(p) + TAIL;
    if p == "" {
      assert ts == TAIL && ts[1..] == [Star];
      if s != "" {
        StarMatchesAll(s[1..]);
      }
    } else {
      PlainHead(p);
      PrefixStep(s, p, [SEP]);
      assert ts[0] == Lit(p[0]) && ts[1..] == Parse(p[1..]) + TAIL;
      if s != "" {
        PlainTokens(p[1..], s[1..]);
      }
    }
  }

  predicate Inhabited(t: Token) {
    t.Class? ==> exists c :: Accepts(t, c)
  }

  /** A shortest string matching `ts`: stars contribute nothing, '?' contributes an 'a'. */
  ghost function Sample(ts: seq<Token>): string
    requires forall t :: t in ts ==> Inhabited(t)
  {
    if ts == [] then ""
    else
      assert ts[0] in ts && Inhabited(ts[0]);
      (match ts[0]
       case Star => ""
       case One => "a"
       case Class(negated, members) => var c :| Accepts(Class(negated, members), c); [c]
       case Lit(c) => [c]) + Sample(ts[1..])
  }

  lemma {:induction false} SampleMatches(ts: seq<Token>)
    requires forall t :: t in ts ==> Inhabited(t)
    ensures Matches(ts + TAIL, Sample(ts) + [SEP])
  {
    var s := Sample(ts) + [SEP];
    if ts == [] {
      assert ts + TAIL == TAIL && TAIL[1..] == [Star] && s[1..] == "";
      StarMatchesAll("");
    } else {
      assert ts[0] in ts;
      SampleMatches(ts[1..]);
      assert (ts + TAIL)[1..] == ts[1..] + TAIL;
      if ts[0] == Star {
        assert s == Sample(ts[1..]) + [SEP];
      } else {
        assert s[1..] == Sample(ts[1..]) + [SEP];
      }
    }
  }

  lemma {:induction false} EmptyClassMatchesNothing(ts: seq<Token>, t: Token, s: string)
    requires t in ts && !Inhabited(t)
    ensures !Matches(ts, s)
    decreases |ts| + |s|
  {
    if ts[0] == Star {
      EmptyClassMatchesNothing(ts[1..], t, s);
      if s != "" {
        EmptyClassMatchesNothing(ts, t, s[1..]);
      }
    } else if s != "" && ts[0] != t {
      EmptyClassMatchesNothing(ts[1..], t, s[1..]);
    }
  }

  /** What the first token of a pattern takes from its text. */
  lemma HeadTakes(p: string)
    requires p != ""
    ensures var (t, rest) := Head(p);
            match t
            case Star => |rest| + 1 == |p|
            case One => p[0] == '?' && rest == p[1..]
            case Class(_, _) => |rest| + 2 <= |p|
            case Lit(c) => c == p[0] && rest == p[1..]
  {
  }

  /** What the first token contributes to the sample. */
  lemma SampleGives(ts: seq<Token>)
    requires ts != [] && forall t :: t in ts ==> Inhabited(t)
    ensures var s, rest := Sample(ts), Sample(ts[1..]);
            match ts[0]
            case Star => s == rest
            case One => s == "a" + rest
            case Class(_, _) => |s| == |rest| + 1
            case Lit(c) => s == [c] + rest
  {
    assert ts[0] in ts;
  }

  lemma {:induction false} SampleDiffers(p: string)
    requires forall t :: t in Parse(p) ==> Inhabited(t)
    ensures |Sample(Parse(p))| <= |p|
    ensures Sample(Parse(p)) == p ==> Plain(p)
    decreases |p|
  {
    if p != "" {
      var ts, rest := Parse(p), Head(p).1;
      assert ts[0] in ts && ts[1..] == Parse(rest);
      assert forall t :: t in Parse(rest) ==> t in ts;
      SampleDiffers(rest);
      HeadTakes(p);
      SampleGives(ts);
      hide Sample, Head, Inhabited;
      if Sample(ts) == p {
        assert ts[0] == Lit(p[0]);
        assert Sample(ts)[1..] == Sample(Parse(rest)) && p[1..] == rest;
      }
    }
  }

  lemma NoShorterPrefix(s: string, p: string)
    requires |s| <= |p| && s != p
    ensures !HasPrefix(s + [SEP], p + [SEP])
  {
    if |s| == |p| {
      assert (s + [SEP])[..|p|] == s && (p + [SEP])[..|p|] == p;
    }
  }

  /**
   * A pattern `p:*` selects exactly the keys one or more segments below `p` if, and only if,
   * `p` has no active wildcard.
   */
  lemma SubtreeExact(p: string)
    ensures (forall s :: GlobMatch(p + ":*", s) <==> ExtendsSegments(s, p)) <==> Plain(p)
  {
    ParseTail(p);
    if Plain(p) {
      forall s
        ensures GlobMatch(p + ":*", s) <==> ExtendsSegments(s, p)
      {
        PlainTokens(p, s);
        PrefixIsSegments(p, s);
      }
    } else if forall t :: t in Parse(p) ==> Inhabited(t) {
      var s := Sample(Parse(p));
      SampleMatches(Parse(p));
      SampleDiffers(p);
      PrefixIsSegments(p, s + [SEP]);
      NoShorterPrefix(s, p);
      assert GlobMatch(p + ":*", s + [SEP]) && !ExtendsSegments(s + [SEP], p);
    } else {
      var t :| t in Parse(p) && !Inhabited(t);
      EmptyClassMatchesNothing(Parse(p) + TAIL, t, p + [SEP]);
      PrefixIsSegments(p, p + [SEP]);
      assert !GlobMatch(p + ":*", p + [SEP]) && ExtendsSegments(p + [SEP], p);
    }
  }

  predicate NoWildcard(s: string) {
    forall c :: c in s ==> c != '*' && c != '?' && c != '['
  }

  lemma {:induction false} NoWildcardIsPlain(s: string)
    requires NoWildcard(s)
    ensures Plain(s)
  {
    if s != "" {
      assert s[0] in s && Head(s) == (Lit(s[0]), s[1..]);
      assert forall c :: c in s[1..] ==> c in s;
      NoWildcardIsPlain(s[1..]);
    }
  }
}
