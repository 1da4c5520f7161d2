/** The string operations the services rely on: `strip`, `replace`, `split(":")` and `":".join`. */
module Text {

  const SEP: char := ':'

  /** The characters `str.strip()` removes: those for which `str.isspace()` holds. */
  predicate IsSpace(c: char) {
    var n := c as int;
    || 0x9 <= n <= 0xD || 0x1C <= n <= 0x20 || n == 0x85 || n == 0xA0 || n == 0x1680
    || 0x2000 <= n <= 0x200A || n == 0x2028 || n == 0x2029 || n == 0x202F || n == 0x205F || n == 0x3000
  }

  predicate IsLowerAlnum(c: char) {
    'a' <= c <= 'z' || '0' <= c <= '9'
  }

  /** Neither end of `s` is a character that `drop` selects. */
  predicate Trimmed(drop: char -> bool, s: string) {
    s != "" ==> !drop(s[0]) && !drop(s[|s| - 1])
  }

  function StripBy(drop: char -> bool, s: string): (r: string)
    ensures Trimmed(drop, r)
    ensures Trimmed(drop, s) ==> r == s
    ensures |r| <= |s|
    ensures forall c :: c in r ==> c in s
  {
    if s == "" then ""
    else if drop(s[0]) then StripBy(drop, s[1..])
    else if drop(s[|s| - 1]) then StripBy(drop, s[..|s| - 1])
    else s
  }

  function Strip(s: string): (r: string)
    ensures Trimmed(IsSpace, r)
    ensures Trimmed(IsSpace, s) ==> r == s
  {
    StripBy(IsSpace, s)
  }

  function Replace(s: string, from: char, to: char): (r: string)
    ensures |r| == |s|
    ensures forall i :: 0 <= i < |s| ==> r[i] == (if s[i] == from then to else s[i])
  {
    seq(|s|, i requires 0 <= i < |s| => if s[i] == from then to else s[i])
  }

  function Join(parts: seq<string>): string
    requires parts != []
  {
    if |parts| == 1 then parts[0] else parts[0] + [SEP] + Join(parts[1..])
  }

  function Cons(c: char, segments: seq<string>): seq<string>
    requires segments != []
  {
    if c == SEP then [""] + segments else [[c] + segments[0]] + segments[1..]
  }

  function Split(s: string): (r: seq<string>)
    ensures r != []
  {
    if s == "" then [""] else Cons(s[0], Split(s[1..]))
  }

  predicate HasPrefix(s: string, p: string) {
    |p| <= |s| && s[..|p|] == p
  }

  lemma {:induction false} SplitPlain(s: string)
    requires SEP !in s
    ensures Split(s) == [s]
  {
    if s != "" {
      SplitPlain(s[1..]);
      assert [s[0]] + s[1..] == s;
    }
  }

  lemma ConsConcat(c: char, r: seq<string>, q: seq<string>)
    requires r != []
    ensures Cons(c, r + q) == Cons(c, r) + q
  {
    assert (r + q)[1..] == r[1..] + q;
  }

  lemma {:induction false} SplitConcat(a: string, b: string)
    ensures Split(a + [SEP] + b) == Split(a) + Split(b)
  {
    var s := a + [SEP] + b;
    if a == "" {
      assert s[1..] == b;
      assert Split(s) == Cons(SEP, Split(b));
    } else {
      SplitConcat(a[1..], b);
      ConsConcat(a[0], Split(a[1..]), Split(b));
      assert s[0] == a[0] && s[1..] == a[1..] + [SEP] + b;
    }
  }

  lemma {:induction false} SplitJoin(parts: seq<string>)
    requires parts != []
    requires forall p :: p in parts ==> SEP !in p
    ensures Split(Join(parts)) == parts
  {
    SplitPlain(parts[0]);
    if |parts| > 1 {
      SplitConcat(parts[0], Join(parts[1..]));
      SplitJoin(parts[1..]);
      assert [parts[0]] + parts[1..] == parts;
    }
  }

  lemma {:induction false} JoinConcat(a: seq<string>, b: seq<string>)
    requires a != [] && b != []
    ensures Join(a + b) == Join(a) + [SEP] + Join(b)
  {
    if |a| == 1 {
      assert (a + b)[1..] == b;
    } else {
      assert (a + b)[1..] == a[1..] + b;
      JoinConcat(a[1..], b);
    }
  }

  lemma {:induction false} JoinSplit(s: string)
    ensures Join(Split(s)) == s
  {
    if s != "" {
      JoinSplit(s[1..]);
      var r := Split(s[1..]);
      if s[0] == SEP {
        JoinConcat([""], r);
      } else if |r| > 1 {
        var t := Split(s);
        assert t[1..] == r[1..];
      }
    }
  }

  /** A string starts with `p` and a separator exactly when its segments extend those of `p`. */
  lemma {:induction false} PrefixIsSegments(p: string, s: string)
    ensures HasPrefix(s, p + [SEP]) <==> |Split(p)| < |Split(s)| && Split(s)[..|Split(p)|] == Split(p)
  {
    if HasPrefix(s, p + [SEP]) {
      var rest := s[|p| + 1..];
      assert s == p + [SEP] + rest;
      SplitConcat(p, rest);
    }
    if |Split(p)| < |Split(s)| && Split(s)[..|Split(p)|] == Split(p) {
      var a, b := Split(p), Split(s)[|Split(p)|..];
      assert Split(s) == a + b;
      JoinSplit(s);
      JoinSplit(p);
      JoinConcat(a, b);
      assert s == (p + [SEP]) + Join(b);
    }
  }
}
