/** Cache keys: `betterops:v1:{namespace}:{parts...}` (cache/cache_service.py). */
module KeyCodec {
  import opened Prelude
  import opened Text
  import Decimal

  const PREFIX := "betterops"
  const VERSION := "v1"
  const NS_INCIDENT := "incident"
  const NS_RATE_LIMIT := "ratelimit"

  /** Integer primary keys are 32-bit. */
  const ID_LIMIT: nat := 0x8000_0000

  predicate IsHexDigest(s: string) {
    |s| == 32 && forall c :: c in s ==> '0' <= c <= '9' || 'a' <= c <= 'f'
  }

  type HexDigest = s: string | IsHexDigest(s) witness "00000000000000000000000000000000"

  /** `hash_part`: nothing is assumed of it but the shape of its result. */
  type Digest = string -> HexDigest

  datatype Part = Num(n: int) | Word(s: string)

  function PyStr(p: Part): string {
    match p
    case Num(n) => Decimal.Str(n)
    case Word(s) => s
  }

  /** The text of a part, bare of outer whitespace. */
  function Stripped(p: Part): string {
    Strip(PyStr(p))
  }

  function Fold(s: string): (r: string)
    ensures |r| == |s|
  {
    Replace(Replace(s, SEP, '_'), ' ', '_')
  }

  function Sanitize(digest: Digest, p: Part): (r: string)
    ensures SEP !in r && |r| <= 64
  {
    var text := Fold(Stripped(p));
    if |text| <= 64 then text else digest(text)
  }

  function Sanitized(digest: Digest, parts: seq<Part>): (r: seq<string>)
    ensures |r| == |parts|
    ensures forall i :: 0 <= i < |r| ==> r[i] == Sanitize(digest, parts[i])
  {
    seq(|parts|, i requires 0 <= i < |parts| => Sanitize(digest, parts[i]))
  }

  function Segments(digest: Digest, namespace: string, parts: seq<Part>): (r: seq<string>)
    ensures r != []
  {
    [PREFIX, VERSION, namespace] + Sanitized(digest, parts)
  }

  function Key(digest: Digest, namespace: string, parts: seq<Part>): string {
    Join(Segments(digest, namespace, parts))
  }

  function NamespacePattern(digest: Digest, namespace: string, parts: seq<Part>): string {
    if parts != [] then Key(digest, namespace, parts) + ":*"
    else PREFIX + ":" + VERSION + ":" + namespace + ":*"
  }

  function IncidentKey(digest: Digest, organizationId: int, incidentId: int): string {
    Key(digest, NS_INCIDENT, [Num(organizationId), Num(incidentId)])
  }

  function RateKey(digest: Digest, rule: string, identity: string, windowStart: int): string {
    Key(digest, NS_RATE_LIMIT, [Word(rule), Word(identity), Num(windowStart)])
  }

  /** Splitting a built key gives back every segment it was joined from. */
  lemma KeySplits(digest: Digest, namespace: string, parts: seq<Part>)
    requires SEP !in namespace
    ensures Split(Key(digest, namespace, parts)) == Segments(digest, namespace, parts)
  {
    SplitJoin(Segments(digest, namespace, parts));
  }

  /** Two keys are the same string exactly when namespace and sanitised parts agree. */
  lemma KeysEqual(digest: Digest, ns1: string, parts1: seq<Part>, ns2: string, parts2: seq<Part>)
    requires SEP !in ns1 && SEP !in ns2
    ensures Key(digest, ns1, parts1) == Key(digest, ns2, parts2)
       <==> ns1 == ns2 && Sanitized(digest, parts1) == Sanitized(digest, parts2)
  {
    KeySplits(digest, ns1, parts1);
    KeySplits(digest, ns2, parts2);
    var a, b := Segments(digest, ns1, parts1), Segments(digest, ns2, parts2);
    if a == b {
      assert a[2] == ns1 && b[2] == ns2;
      assert a[3..] == Sanitized(digest, parts1) && b[3..] == Sanitized(digest, parts2);
    }
  }

  /** The characters that sanitising makes into '_', and '_' itself. */
  predicate Folded(c: char) {
    c == SEP || c == ' ' || c == '_'
  }

  /** Equal up to which of ':', ' ' and '_' stands in a place. */
  predicate Alike(s: string, t: string) {
    |s| == |t| && forall i :: 0 <= i < |s| ==> s[i] == t[i] || (Folded(s[i]) && Folded(t[i]))
  }

  lemma FoldAlike(s: string, t: string)
    ensures Fold(s) == Fold(t) <==> Alike(s, t)
  {
    assert forall i :: 0 <= i < |s| ==> Fold(s)[i] == if Folded(s[i]) then '_' else s[i];
    assert forall i :: 0 <= i < |t| ==> Fold(t)[i] == if Folded(t[i]) then '_' else t[i];
    if Fold(s) == Fold(t) {
      assert |s| == |t|;
      assert forall i :: 0 <= i < |s| ==> Fold(s)[i] == Fold(t)[i];
    }
  }

  /**
   * When two parts share a key segment, for all parts. Short ones do when their stripped texts are
   * equal up to ':', ' ' and '_'; a short and a long one when the short one spells the other's digest;
   * long ones when their digests are equal, as those of alike texts are.
   */
  lemma SanitizeCollides(digest: Digest, p: Part, q: Part)
    ensures var s, t := Stripped(p), Stripped(q);
            && (Sanitize(digest, p) == Sanitize(digest, q) <==>
                  if |s| <= 64 && |t| <= 64 then Alike(s, t)
                  else if |s| <= 64 then s == digest(Fold(t))
                  else if |t| <= 64 then t == digest(Fold(s))
                  else digest(Fold(s)) == digest(Fold(t)))
            && (Alike(s, t) ==> Sanitize(digest, p) == Sanitize(digest, q))
  {
    var s, t := Stripped(p), Stripped(q);
    FoldAlike(s, t);
    FoldToHex(s, digest(Fold(t)));
    FoldToHex(t, digest(Fold(s)));
  }

  /** A digest holds nothing that is folded, so only itself folds to it. */
  lemma FoldToHex(s: string, d: HexDigest)
    ensures Fold(s) == d <==> s == d
    ensures Strip(d) == d
  {
    assert IsHexDigest(d);
    assert forall i :: 0 <= i < |d| ==> d[i] in d;
    FoldAlike(s, d);
    FoldAlike(d, d);
    assert Fold(d) == d;
  }

  /** Every word too long to be kept shares its segment with a short word: its own digest. */
  lemma DigestCollides(digest: Digest, w: string)
    requires |Strip(w)| > 64
    ensures var d := digest(Fold(Strip(w)));
            d != w && |d| <= 64 && Sanitize(digest, Word(d)) == Sanitize(digest, Word(w))
  {
    var d := digest(Fold(Strip(w)));
    FoldToHex(d, d);
  }

  /** Short words do collide: over a separator, and over outer whitespace. */
  lemma SanitizeFoldsSeparators(digest: Digest)
    ensures Word("1:2") != Word("1_2")
    ensures Sanitize(digest, Word("1:2")) == Sanitize(digest, Word("1_2"))
    ensures Sanitize(digest, Word("\ta")) == Sanitize(digest, Word("a"))
  {
    assert Trimmed(IsSpace, "1:2") && Trimmed(IsSpace, "1_2");
    SanitizeCollides(digest, Word("1:2"), Word("1_2"));
    assert "\ta"[1..] == "a" && Strip("\ta") == Strip("a");
    SanitizeCollides(digest, Word("\ta"), Word("a"));
  }

  /** The exact condition under which a part is stored verbatim. */
  lemma SanitizeVerbatim(digest: Digest, p: Part)
    ensures Sanitize(digest, p) == PyStr(p)
       <==> Trimmed(IsSpace, PyStr(p)) && SEP !in PyStr(p) && ' ' !in PyStr(p) && |PyStr(p)| <= 64
  {
    var s := PyStr(p);
    var r := Sanitize(digest, p);
    var text := Fold(Strip(s));
    assert |text| == |Strip(s)|;
    if r == s {
      assert IsHexDigest(digest(text));
      assert text == s;
      forall i | 0 <= i < |s|
        ensures s[i] != SEP && s[i] != ' '
      {
        assert text[i] == s[i];
      }
      StripLength(s);
    }
    if Trimmed(IsSpace, s) && SEP !in s && ' ' !in s {
      assert Strip(s) == s;
      assert text == s;
    }
  }

  lemma {:induction false} StripLength(s: string)
    ensures |Strip(s)| == |s| ==> Trimmed(IsSpace, s)
  {
  }

  /** Text without spaces or separators survives sanitising. */
  lemma CleanVerbatim(digest: Digest, p: Part)
    requires |PyStr(p)| <= 64
    requires forall i :: 0 <= i < |PyStr(p)| ==> !IsSpace(PyStr(p)[i]) && PyStr(p)[i] != SEP && PyStr(p)[i] != ' '
    ensures Sanitize(digest, p) == PyStr(p)
  {
    var s := PyStr(p);
    assert Strip(s) == s;
    assert Replace(s, SEP, '_') == s;
    assert Replace(s, ' ', '_') == s;
  }

  /** A number of at most 64 digits is its own key segment. */
  lemma NumVerbatim(digest: Digest, n: int)
    requires |Decimal.Str(n)| <= 64
    ensures Sanitize(digest, Num(n)) == Decimal.Str(n)
  {
    var s := Decimal.Str(n);
    Decimal.StrChars(n);
    assert forall i :: 0 <= i < |s| ==> s[i] in s;
    CleanVerbatim(digest, Num(n));
  }

  /** A numeric segment of under 32 characters is shared by no other number, hashed ones included. */
  lemma NumSegmentInjective(digest: Digest, m: int, n: int)
    requires |Decimal.Str(n)| < 32
    ensures Sanitize(digest, Num(m)) == Sanitize(digest, Num(n)) <==> m == n
  {
    NumVerbatim(digest, n);
    if |Decimal.Str(m)| <= 64 {
      NumVerbatim(digest, m);
      Decimal.StrInjective(m, n);
    } else {
      LongNumIsHashed(digest, m);
    }
  }

  lemma LongNumIsHashed(digest: Digest, m: int)
    requires |Decimal.Str(m)| > 64
    ensures IsHexDigest(Sanitize(digest, Num(m)))
  {
    var s := Decimal.Str(m);
    Decimal.StrChars(m);
    assert s[0] in s && s[|s| - 1] in s;
    assert Strip(s) == s;
    var text := Fold(s);
    assert IsHexDigest(digest(text));
  }

  lemma IdLength(n: nat)
    requires n < ID_LIMIT
    ensures |Decimal.Str(n)| <= 10
  {
    assert Decimal.Pow10(10) == 10_000_000_000 by {
      assert Decimal.Pow10(5) == 100_000;
      assert Decimal.Pow10(10) == 10 * 10 * 10 * 10 * 10 * Decimal.Pow10(5);
    }
    Decimal.PrintLength(n, 10);
  }

  /**
   * An incident key determines organization and incident. The second pair is a database row's,
   * hence 32-bit; the first is whatever a request asked for, however large.
   */
  lemma IncidentKeyInjective(digest: Digest, org: int, id: int, rowOrg: nat, rowId: nat)
    requires rowOrg < ID_LIMIT && rowId < ID_LIMIT
    ensures IncidentKey(digest, org, id) == IncidentKey(digest, rowOrg, rowId) <==> org == rowOrg && id == rowId
  {
    var p, q := [Num(org), Num(id)], [Num(rowOrg), Num(rowId)];
    KeysEqual(digest, NS_INCIDENT, p, NS_INCIDENT, q);
    IdLength(rowOrg);
    IdLength(rowId);
    NumSegmentInjective(digest, org, rowOrg);
    NumSegmentInjective(digest, id, rowId);
    var a, b := Sanitized(digest, p), Sanitized(digest, q);
    if a == b {
      assert a[0] == b[0] && a[1] == b[1];
    }
  }

  /** The text of the key of a database row. */
  lemma IncidentKeyText(digest: Digest, org: nat, id: nat)
    requires org < ID_LIMIT && id < ID_LIMIT
    ensures IncidentKey(digest, org, id) == "betterops:v1:incident:" + Decimal.Str(org) + ":" + Decimal.Str(id)
  {
    hide Sanitize, Decimal.Str;
    IdLength(org);
    IdLength(id);
    NumVerbatim(digest, org);
    NumVerbatim(digest, id);
    var a, b := Decimal.Str(org), Decimal.Str(id);
    var segments := Segments(digest, NS_INCIDENT, [Num(org), Num(id)]);
    assert segments == [PREFIX, VERSION, NS_INCIDENT, a, b];
    assert segments[1..] == [VERSION, NS_INCIDENT, a, b] && segments[1..][1..] == [NS_INCIDENT, a, b];
    assert [NS_INCIDENT, a, b][1..] == [a, b] && [a, b][1..] == [b];
    assert Join([a, b]) == a + [SEP] + b;
    assert Join([NS_INCIDENT, a, b]) == NS_INCIDENT + [SEP] + Join([a, b]);
    assert Join([VERSION, NS_INCIDENT, a, b]) == VERSION + [SEP] + Join([NS_INCIDENT, a, b]);
    assert Join(segments) == PREFIX + [SEP] + Join([VERSION, NS_INCIDENT, a, b]);
    assert "betterops:v1:incident:" == PREFIX + [SEP] + VERSION + [SEP] + NS_INCIDENT + [SEP];
  }

  /** A rate-limit counter and a cached incident never share a key. */
  lemma RateKeyIsNoIncidentKey(digest: Digest, rule: string, identity: string, windowStart: int, org: int, id: int)
    ensures RateKey(digest, rule, identity, windowStart) != IncidentKey(digest, org, id)
  {
    KeysEqual(digest, NS_RATE_LIMIT, [Word(rule), Word(identity), Num(windowStart)],
              NS_INCIDENT, [Num(org), Num(id)]);
  }

  /** Numbers of fewer than 32 characters. */
  const SHORT_LIMIT: int := 1_000_000_000_000_000_000_000_000_000_000

  lemma ShortNumber(n: int)
    requires -SHORT_LIMIT < n < SHORT_LIMIT
    ensures |Decimal.Str(n)| < 32
  {
    assert Decimal.Pow10(5) == 100_000;
    assert Decimal.Pow10(10) == 10 * 10 * 10 * 10 * 10 * Decimal.Pow10(5);
    assert Decimal.Pow10(15) == 10 * 10 * 10 * 10 * 10 * Decimal.Pow10(10);
    assert Decimal.Pow10(20) == 10 * 10 * 10 * 10 * 10 * Decimal.Pow10(15);
    assert Decimal.Pow10(25) == 10 * 10 * 10 * 10 * 10 * Decimal.Pow10(20);
    assert Decimal.Pow10(30) == 10 * 10 * 10 * 10 * 10 * Decimal.Pow10(25);
    Decimal.PrintLength(if n < 0 then -n else n, 30);
  }

  /** Counters are shared exactly between requests whose sanitised rule and identity, and window, agree. */
  lemma RateKeysEqual(digest: Digest, rule1: string, id1: string, window1: int, rule2: string, id2: string, window2: int)
    requires -SHORT_LIMIT < window2 < SHORT_LIMIT
    ensures RateKey(digest, rule1, id1, window1) == RateKey(digest, rule2, id2, window2)
       <==> && Sanitize(digest, Word(rule1)) == Sanitize(digest, Word(rule2))
            && Sanitize(digest, Word(id1)) == Sanitize(digest, Word(id2))
            && window1 == window2
  {
    var p, q := [Word(rule1), Word(id1), Num(window1)], [Word(rule2), Word(id2), Num(window2)];
    KeysEqual(digest, NS_RATE_LIMIT, p, NS_RATE_LIMIT, q);
    ShortNumber(window2);
    NumSegmentInjective(digest, window1, window2);
    TriplesEqual(Sanitized(digest, p), Sanitized(digest, q));
  }

  lemma TriplesEqual(a: seq<string>, b: seq<string>)
    requires |a| == 3 && |b| == 3
    ensures a == b <==> a[0] == b[0] && a[1] == b[1] && a[2] == b[2]
  {
  }
}
