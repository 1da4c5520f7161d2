/** What `invalidate_pattern(namespace_pattern(...))` removes (cache/cache_service.py). */
module PatternDeletion {
  import opened Text
  import opened KeyCodec
  import opened Glob
  import Decimal
  import Backends
  import CS = CacheService

  lemma {:induction false} JoinNoWildcard(parts: seq<string>)
    requires parts != [] && forall p :: p in parts ==> NoWildcard(p)
    ensures NoWildcard(Join(parts))
  {
    assert parts[0] in parts;
    if |parts| > 1 {
      assert forall p :: p in parts[1..] ==> p in parts;
      JoinNoWildcard(parts[1..]);
    }
  }

  lemma JoinThree(a: string, b: string, c: string)
    ensures Join([a, b, c]) + ":*" == a + ":" + b + ":" + c + ":*"
  {
    var abc, bc := [a, b, c], [b, c];
    assert abc[1..] == bc && bc[1..] == [c];
    assert Join(bc) == b + [SEP] + c;
  }

  lemma PatternIsKeyTail(digest: Digest, namespace: string, parts: seq<Part>)
    ensures NamespacePattern(digest, namespace, parts) == Key(digest, namespace, parts) + ":*"
  {
    if parts == [] {
      assert Segments(digest, namespace, parts) == [PREFIX, VERSION, namespace];
      JoinThree(PREFIX, VERSION, namespace);
    }
  }

  lemma KeyNoWildcard(digest: Digest, namespace: string, parts: seq<Part>)
    requires NoWildcard(namespace)
    requires forall p :: p in parts ==> NoWildcard(Sanitize(digest, p))
    ensures NoWildcard(Key(digest, namespace, parts))
  {
    var sanitized := Sanitized(digest, parts);
    forall s | s in sanitized
      ensures NoWildcard(s)
    {
      var i :| 0 <= i < |sanitized| && sanitized[i] == s;
      assert parts[i] in parts;
    }
    JoinNoWildcard(Segments(digest, namespace, parts));
  }

  /** `stored` lies strictly below the given segments. */
  predicate Below(stored: string, segments: seq<string>) {
    |segments| < |Split(stored)| && Split(stored)[..|segments|] == segments
  }

  /**
   * Whatever is stored, a namespace pattern selects the keys below its segments and no others,
   * if and only if the key it extends has no active wildcard.
   */
  lemma NamespacePatternExact(digest: Digest, namespace: string, parts: seq<Part>)
    requires SEP !in namespace
    ensures (forall stored: string ::
              GlobMatch(NamespacePattern(digest, namespace, parts), stored)
              <==> Below(stored, Segments(digest, namespace, parts)))
       <==> Plain(Key(digest, namespace, parts))
  {
    var p := Key(digest, namespace, parts);
    PatternIsKeyTail(digest, namespace, parts);
    SubtreeExact(p);
    KeySplits(digest, namespace, parts);
    assert forall stored :: ExtendsSegments(stored, p) <==> Below(stored, Segments(digest, namespace, parts));
  }

  /** The condition in the caller's terms: no '*', '?' or '[' in the namespace or the parts. */
  lemma NoWildcardExact(digest: Digest, namespace: string, parts: seq<Part>, stored: string)
    requires SEP !in namespace && NoWildcard(namespace)
    requires forall p :: p in parts ==> NoWildcard(Sanitize(digest, p))
    ensures GlobMatch(NamespacePattern(digest, namespace, parts), stored)
       <==> Below(stored, Segments(digest, namespace, parts))
  {
    KeyNoWildcard(digest, namespace, parts);
    NoWildcardIsPlain(Key(digest, namespace, parts));
    NamespacePatternExact(digest, namespace, parts);
  }

  /** The entries outside the subtree of the given segments. */
  function Outside(es: Backends.Entries, segments: seq<string>): Backends.Entries {
    map k | k in es && !Below(k, segments) :: es[k]
  }

  /** `invalidate_pattern(namespace_pattern(...))` takes the subtree out of the store, counts it, and leaves the rest. */
  ghost predicate TakesSubtree<V>(codec: CS.Codec<V>, s: CS.State, pattern: string, segments: seq<string>) {
    var (t, o) := CS.Serve(codec, true, s, CS.Request<V>.InvalidatePattern(pattern, true));
    var kept := Outside(s.entries, segments);
    && t.entries == kept
    && o == CS.Deleted(|s.entries.Keys - kept.Keys|)
    && t.counts == s.counts.(invalidations := s.counts.invalidations + |s.entries.Keys - kept.Keys|)
  }

  lemma SelectsSubtree<V>(codec: CS.Codec<V>, s: CS.State, pattern: string, segments: seq<string>)
    requires forall k :: k in s.entries ==> (Glob.GlobMatch(pattern, k) <==> Below(k, segments))
    ensures TakesSubtree(codec, s, pattern, segments)
  {
    hide GlobMatch, Below, CS.DoGet, CS.DoSet, CS.DoInvalidate, Backends.Lazy;
    var kept := Outside(s.entries, segments);
    assert Backends.Matching(s.entries, pattern) == s.entries.Keys - kept.Keys;
    assert s.entries - Backends.Matching(s.entries, pattern) == kept;
  }

  lemma MissesSubtree<V>(codec: CS.Codec<V>, pattern: string, segments: seq<string>, stored: string)
    requires GlobMatch(pattern, stored) <==> !Below(stored, segments)
    ensures exists s :: !TakesSubtree(codec, s, pattern, segments)
  {
    hide GlobMatch, Below;
    var s := CS.State(map[stored := Backends.Entry("", 0.0)], CS.Counts(0, 0, 0, 0));
    var kept := Outside(s.entries, segments);
    assert Backends.Matching(s.entries, pattern) == if GlobMatch(pattern, stored) then {stored} else {};
    var t := CS.Serve(codec, true, s, CS.Request<V>.InvalidatePattern(pattern, true)).0;
    assert stored in t.entries <==> !GlobMatch(pattern, stored);
    assert stored in kept <==> GlobMatch(pattern, stored);
    assert !TakesSubtree(codec, s, pattern, segments);
  }

  /**
   * Whatever is stored, dropping a namespace pattern removes and counts exactly the entries below its
   * segments, if and only if the key it extends has no active wildcard.
   */
  lemma InvalidateNamespaceExact<V>(codec: CS.Codec<V>, digest: Digest, namespace: string, parts: seq<Part>)
    requires SEP !in namespace
    ensures (forall s :: TakesSubtree(codec, s, NamespacePattern(digest, namespace, parts), Segments(digest, namespace, parts)))
       <==> Plain(Key(digest, namespace, parts))
  {
    hide GlobMatch, Below, TakesSubtree, Plain, Key, NamespacePattern, Segments;
    var pattern, segments := NamespacePattern(digest, namespace, parts), Segments(digest, namespace, parts);
    NamespacePatternExact(digest, namespace, parts);
    if Plain(Key(digest, namespace, parts)) {
      forall s
        ensures TakesSubtree(codec, s, pattern, segments)
      {
        SelectsSubtree(codec, s, pattern, segments);
      }
    } else {
      var stored: string :| GlobMatch(pattern, stored) <==> !Below(stored, segments);
      MissesSubtree(codec, pattern, segments, stored);
    }
  }

  /** In the caller's terms again: with no wildcard in namespace or parts, the subtree goes and nothing else. */
  lemma NoWildcardTakesSubtree<V>(codec: CS.Codec<V>, s: CS.State, digest: Digest, namespace: string, parts: seq<Part>)
    requires SEP !in namespace && NoWildcard(namespace)
    requires forall p :: p in parts ==> NoWildcard(Sanitize(digest, p))
    ensures TakesSubtree(codec, s, NamespacePattern(digest, namespace, parts), Segments(digest, namespace, parts))
  {
    KeyNoWildcard(digest, namespace, parts);
    NoWildcardIsPlain(Key(digest, namespace, parts));
    InvalidateNamespaceExact(codec, digest, namespace, parts);
  }

  lemma NumNoWildcard(digest: Digest, n: int)
    ensures NoWildcard(Sanitize(digest, Num(n)))
  {
    if |Decimal.Str(n)| <= 64 {
      NumVerbatim(digest, n);
      Decimal.StrChars(n);
    } else {
      LongNumIsHashed(digest, n);
    }
  }

  lemma SiblingsDiffer(stored: string, fixed: seq<string>, a: string, b: string, c: string)
    requires Split(stored) == fixed + [b, c]
    ensures Below(stored, fixed + [a]) <==> a == b
  {
    assert (fixed + [b, c])[..|fixed| + 1] == fixed + [b];
    assert (fixed + [b])[|fixed|] == b && (fixed + [a])[|fixed|] == a;
  }

  lemma IncidentKeySegments(digest: Digest, org: int, id: int)
    ensures Split(IncidentKey(digest, org, id))
         == [PREFIX, VERSION, NS_INCIDENT] + [Sanitize(digest, Num(org)), Sanitize(digest, Num(id))]
  {
    hide Key, Sanitize;
    var parts := [Num(org), Num(id)];
    KeySplits(digest, NS_INCIDENT, parts);
    assert Sanitized(digest, parts) == [Sanitize(digest, Num(org)), Sanitize(digest, Num(id))];
  }

  lemma OrganizationSegments(digest: Digest, org: int, rowOrg: int, rowId: int)
    ensures Below(IncidentKey(digest, rowOrg, rowId), Segments(digest, NS_INCIDENT, [Num(org)]))
       <==> Sanitize(digest, Num(org)) == Sanitize(digest, Num(rowOrg))
  {
    var a, b, c := Sanitize(digest, Num(org)), Sanitize(digest, Num(rowOrg)), Sanitize(digest, Num(rowId));
    IncidentKeySegments(digest, rowOrg, rowId);
    assert Sanitized(digest, [Num(org)]) == [a];
    SiblingsDiffer(IncidentKey(digest, rowOrg, rowId), [PREFIX, VERSION, NS_INCIDENT], a, b, c);
  }

  /** Dropping one organization's incidents touches no other organization's (1 never touches 11). */
  lemma OrganizationPatternExact(digest: Digest, org: nat, rowOrg: nat, rowId: int)
    requires rowOrg < ID_LIMIT
    ensures GlobMatch(NamespacePattern(digest, NS_INCIDENT, [Num(org)]), IncidentKey(digest, rowOrg, rowId))
       <==> org == rowOrg
  {
    NumNoWildcard(digest, org);
    NoWildcardExact(digest, NS_INCIDENT, [Num(org)], IncidentKey(digest, rowOrg, rowId));
    OrganizationSegments(digest, org, rowOrg, rowId);
    IdLength(rowOrg);
    NumSegmentInjective(digest, org, rowOrg);
  }
}
