/** The client's topic matcher against section 4.7.1 of MQTT 3.1.1. */
module Topics {
  import opened Bytes

  const SLASH: Byte := 47
  const PLUS: Byte := 43
  const HASH: Byte := 35

  predicate Wild(b: Byte) { b == PLUS || b == HASH }

  /** The topic levels: what stands between the separators. */
  function Levels(s: seq<Byte>): (r: seq<seq<Byte>>)
    ensures r != []
  {
    if s == [] then [[]]
    else
      var rest := Levels(s[1..]);
      if s[0] == SLASH then [[]] + rest else [[s[0]] + rest[0]] + rest[1..]
  }

  /** A wildcard is alone in its level, and `#` ends the filter. */
  predicate WellFormed(filter: seq<Byte>) {
    forall i :: 0 <= i < |filter| ==> WellPlaced(filter, i)
  }

  predicate WellPlaced(f: seq<Byte>, i: nat)
    requires i < |f|
  {
    Wild(f[i]) ==>
      && (i == 0 || f[i - 1] == SLASH)
      && (i == |f| - 1 || (f[i] == PLUS && f[i + 1] == SLASH))
  }

  /**
   * The relation the code implements: a literal matches an equal level, `+` one non-empty level, and
   * a final `#` one or more levels of which the first is not empty.
   */
  predicate LevelsMatch(f: seq<seq<Byte>>, n: seq<seq<Byte>>) {
    if f == [] then n == []
    else if f == [[HASH]] then n != [] && n[0] != []
    else n != [] && (if f[0] == [PLUS] then n[0] != [] else f[0] == n[0]) && LevelsMatch(f[1..], n[1..])
  }

  /** The standard's relation: `+` also matches an empty level, `#` any number of levels, also none. */
  predicate StandardMatch(f: seq<seq<Byte>>, n: seq<seq<Byte>>) {
    if f == [] then n == []
    else if f == [[HASH]] then true
    else n != [] && (f[0] == [PLUS] || f[0] == n[0]) && StandardMatch(f[1..], n[1..])
  }

  /** Level `i` of the filter is `+` or the level of the name. */
  predicate Opposite(f: seq<seq<Byte>>, n: seq<seq<Byte>>, i: nat)
    requires i < |f| && i < |n|
  {
    f[i] == [PLUS] || f[i] == n[i]
  }

  /** The first `k` levels stand opposite each other. */
  ghost predicate Alike(f: seq<seq<Byte>>, n: seq<seq<Byte>>, k: nat) {
    k <= |f| && k <= |n| && forall i :: 0 <= i < k ==> Opposite(f, n, i)
  }

  lemma AlikeStep(f: seq<seq<Byte>>, n: seq<seq<Byte>>, k: nat)
    requires f != [] && n != [] && k > 0
    ensures Alike(f, n, k) <==> Opposite(f, n, 0) && Alike(f[1..], n[1..], k - 1)
  {
    var g, m := f[1..], n[1..];
    if Alike(f, n, k) {
      forall i | 0 <= i < k - 1 ensures Opposite(g, m, i) {
        assert Opposite(f, n, i + 1);
      }
    } else if Opposite(f, n, 0) && Alike(g, m, k - 1) {
      forall i | 0 <= i < k ensures Opposite(f, n, i) {
        assert i > 0 ==> Opposite(g, m, i - 1);
      }
    }
  }

  /**
   * The standard's relation by position: the filter has a level for every level of the name, each `+` or
   * the same; a final `#` stands for the levels that are left over.
   */
  lemma {:induction false} StandardByPosition(f: seq<seq<Byte>>, n: seq<seq<Byte>>)
    ensures StandardMatch(f, n) <==>
              if f != [] && f[|f| - 1] == [HASH] then Alike(f, n, |f| - 1) else |f| == |n| && Alike(f, n, |f|)
  {
    hide Alike;
    if f == [] || f == [[HASH]] || n == [] {
      ShortAlike(f, n);
    } else {
      StandardByPosition(f[1..], n[1..]);
      AlikeStep(f, n, |f|);
      if |f| > 1 {
        AlikeStep(f, n, |f| - 1);
      }
    }
  }

  lemma ShortAlike(f: seq<seq<Byte>>, n: seq<seq<Byte>>)
    ensures Alike(f, n, 0) && (n == [] ==> forall k: nat :: k > 0 ==> !Alike(f, n, k))
  {
  }

  /** Everything the code accepts is a match of the standard. */
  lemma {:induction false} AcceptsOnlyMatches(f: seq<seq<Byte>>, n: seq<seq<Byte>>)
    ensures LevelsMatch(f, n) ==> StandardMatch(f, n)
  {
    if f != [] && f != [[HASH]] && n != [] {
      AcceptsOnlyMatches(f[1..], n[1..]);
    }
  }

  /** No `+`, and no final `#`, stands opposite an empty level of the name. */
  ghost predicate Fed(f: seq<seq<Byte>>, n: seq<seq<Byte>>) {
    forall i :: 0 <= i < |f| && i < |n| && (f[i] == [PLUS] || (i == |f| - 1 && f[i] == [HASH])) ==> n[i] != []
  }

  /** The filter is that of all children of the name. */
  predicate ParentOf(f: seq<seq<Byte>>, n: seq<seq<Byte>>) {
    f != [] && f[|f| - 1] == [HASH] && |n| == |f| - 1
  }

  lemma FedStep(f: seq<seq<Byte>>, n: seq<seq<Byte>>)
    requires f != [] && f != [[HASH]] && n != []
    ensures Fed(f, n) <==> (f[0] == [PLUS] ==> n[0] != []) && Fed(f[1..], n[1..])
    ensures ParentOf(f, n) <==> ParentOf(f[1..], n[1..])
  {
    var g, m := f[1..], n[1..];
    assert forall i :: 0 <= i < |g| ==> g[i] == f[i + 1];
    assert forall i :: 0 <= i < |m| ==> m[i] == n[i + 1];
    if Fed(g, m) && (f[0] == [PLUS] ==> n[0] != []) {
      forall i | 0 <= i < |f| && i < |n| && (f[i] == [PLUS] || (i == |f| - 1 && f[i] == [HASH])) ensures n[i] != [] {
        assert i > 0 ==> g[i - 1] == f[i] && m[i - 1] == n[i];
      }
    }
  }

  /**
   * What the code misses of the standard, for every filter and name: a wildcard opposite an empty
   * level, and `p/#` for the name `p` itself.
   */
  lemma {:induction false} MissesExactly(f: seq<seq<Byte>>, n: seq<seq<Byte>>)
    ensures LevelsMatch(f, n) <==> StandardMatch(f, n) && Fed(f, n) && !ParentOf(f, n)
  {
    if f != [] && f != [[HASH]] && n != [] {
      MissesExactly(f[1..], n[1..]);
      FedStep(f, n);
    } else if f == [[HASH]] && n != [] && n[0] != [] {
      assert Fed(f, n);
    }
  }

  /** On names without empty levels all the code misses is `p/#` for the name `p` itself. */
  lemma MissesOnlyParent(f: seq<seq<Byte>>, n: seq<seq<Byte>>)
    requires forall l :: l in n ==> l != []
    ensures LevelsMatch(f, n) <==> StandardMatch(f, n) && !ParentOf(f, n)
  {
    MissesExactly(f, n);
    forall i | 0 <= i < |n| ensures n[i] != [] {
      assert n[i] in n;
    }
  }

  /** The end of the level that starts a non-empty name. */
  function LevelEnd(n: seq<Byte>): (k: nat)
    requires n != []
    ensures 1 <= k <= |n|
    ensures forall i :: 1 <= i < k ==> n[i] != SLASH
    ensures k < |n| ==> n[k] == SLASH
  {
    if |n| == 1 || n[1] == SLASH then 1 else 1 + LevelEnd(n[1..])
  }

  /** What the loop of `isTopicMatched` computes, for filters of any shape. */
  function Scan(f: seq<Byte>, n: seq<Byte>): bool
    decreases |n|
  {
    if f == [] || n == [] then f == [] && n == []
    else if n[0] == SLASH && f[0] != SLASH then false
    else if !Wild(f[0]) && f[0] != n[0] then false
    else if f[0] == PLUS then Scan(f[1..], n[LevelEnd(n)..])
    else if f[0] == HASH then |f| == 1
    else Scan(f[1..], n[1..])
  }

  /** `isTopicMatched`. */
  method IsTopicMatched(filter: seq<Byte>, name: seq<Byte>) returns (matched: bool)
    ensures matched == Scan(filter, name)
    ensures WellFormed(filter) ==> matched == LevelsMatch(Levels(filter), Levels(name))
  {
    hide LevelsMatch, Levels, WellFormed;
    if WellFormed(filter) {
      ScanIsLevelsMatch(filter, name);
    }
    var f, n := 0, 0;
    while f < |filter| && n < |name|
      invariant 0 <= f <= |filter| && 0 <= n <= |name|
      invariant Scan(filter, name) == Scan(filter[f..], name[n..])
      decreases |filter| - f
    {
      if name[n] == SLASH && filter[f] != SLASH {
        break;
      }
      if !Wild(filter[f]) && filter[f] != name[n] {
        break;
      }
      ghost var f0, n0 := filter[f..], name[n..];
      if filter[f] == PLUS {
        n := SkipLevel(name, n);
        assert n0[LevelEnd(n0)..] == name[n + 1..];
      } else if filter[f] == HASH {
        n := |name| - 1;
      }
      f, n := f + 1, n + 1;
      assert f0[1..] == filter[f..];
      assert f0[0] != PLUS && f0[0] != HASH ==> n0[1..] == name[n..];
    }
    matched := n == |name| && f == |filter|;
  }

  /** The inner loop: moves to the last character of the level. */
  method SkipLevel(name: seq<Byte>, start: nat) returns (n: nat)
    requires start < |name|
    ensures n + 1 == start + LevelEnd(name[start..])
  {
    n := start;
    var next := n + 1;
    while next < |name| && name[next] != SLASH
      invariant start <= n < |name| && next == n + 1
      invariant start + LevelEnd(name[start..]) == n + LevelEnd(name[n..])
    {
      assert name[n..][1..] == name[n + 1..];
      assert name[n..][1] == name[n + 1];
      n := n + 1;
      next := n + 1;
    }
    assert next < |name| ==> name[n..][1] == name[next];
  }

  lemma WellFormedTail(f: seq<Byte>, k: nat)
    requires WellFormed(f) && k <= |f|
    ensures WellFormed(f[k..])
  {
    var g := f[k..];
    forall i | 0 <= i < |g| ensures WellPlaced(g, i) {
      assert WellPlaced(f, k + i);
    }
  }

  /** The first level of a name, and the levels after it. */
  lemma {:induction false} LevelsSplit(n: seq<Byte>)
    requires n != [] && n[0] != SLASH
    ensures var k := LevelEnd(n);
            && Levels(n)[0] == n[..k] && Levels(n[k..])[0] == []
            && Levels(n)[1..] == Levels(n[k..])[1..]
  {
    var k := LevelEnd(n);
    if k == 1 {
      assert n[..1] == [n[0]];
    } else {
      LevelsSplit(n[1..]);
      assert n[1..][k - 1..] == n[k..];
      assert n[..k] == [n[0]] + n[1..][..k - 1];
    }
  }

  /** A level of a well-formed filter that starts with a wildcard is that wildcard. */
  lemma WildLevel(f: seq<Byte>)
    requires WellFormed(f) && f != [] && Wild(f[0])
    ensures Levels(f)[0] == [f[0]] && Levels(f)[1..] == Levels(f[1..])[1..] && Levels(f[1..])[0] == []
    ensures f[0] == HASH ==> f == [HASH]
  {
    assert WellPlaced(f, 0);
    if |f| > 1 {
      assert f[1..][0] == f[1];
    }
  }

  /** On well-formed filters the character loop computes the level-wise relation. */
  lemma {:induction false} ScanIsLevelsMatch(f: seq<Byte>, n: seq<Byte>)
    requires WellFormed(f)
    ensures Scan(f, n) == LevelsMatch(Levels(f), Levels(n))
    decreases |n|
  {
    if f == [] || n == [] {
      ScanAtEnd(f, n);
    } else if n[0] == SLASH && f[0] != SLASH {
      FirstLevelDiffers(f, n);
    } else if !Wild(f[0]) && f[0] != n[0] {
      FirstLevelDiffers(f, n);
    } else if f[0] == HASH {
      WildLevel(f);
      assert Levels(f) == [[HASH]];
    } else {
      WellFormedTail(f, 1);
      var k := if f[0] == PLUS then LevelEnd(n) else 1;
      ScanIsLevelsMatch(f[1..], n[k..]);
      if f[0] == PLUS {
        PlusStep(f, n);
      } else {
        LiteralStep(f, n);
      }
    }
  }

  /** The matcher against the standard, on filter and name as they come. */
  lemma MatcherAndStandard(f: seq<Byte>, n: seq<Byte>)
    requires WellFormed(f)
    ensures Scan(f, n) ==> StandardMatch(Levels(f), Levels(n))
    ensures Scan(f, n) <==>
              StandardMatch(Levels(f), Levels(n)) && Fed(Levels(f), Levels(n)) && !ParentOf(Levels(f), Levels(n))
  {
    hide Levels, Scan, LevelsMatch, StandardMatch, WellFormed, Fed;
    ScanIsLevelsMatch(f, n);
    MissesExactly(Levels(f), Levels(n));
  }

  /** The levels of a string put together from a first level and the rest. */
  lemma {:induction false} LevelsJoin(a: seq<Byte>, b: seq<Byte>)
    requires SLASH !in a
    ensures Levels(a) == [a] && Levels(a + [SLASH] + b) == [a] + Levels(b)
  {
    var s := a + [SLASH] + b;
    if a == [] {
      assert s[1..] == b;
    } else {
      LevelsJoin(a[1..], b);
      assert s[1..] == a[1..] + [SLASH] + b;
      assert a == [a[0]] + a[1..];
    }
  }

  /** `+/+` and `/f`: a match of the standard that the code does not see. */
  lemma EmptyLevelMissed()
    ensures var f: seq<Byte> := [PLUS, SLASH, PLUS];
            var n: seq<Byte> := [SLASH, 102];
            WellFormed(f) && StandardMatch(Levels(f), Levels(n)) && !Scan(f, n)
  {
    hide Levels;
    var p: seq<Byte>, t: seq<Byte> := [PLUS], [102];
    var f: seq<Byte>, n: seq<Byte> := [PLUS, SLASH, PLUS], [SLASH, 102];
    assert f == p + [SLASH] + p && n == [] + [SLASH] + t;
    LevelsJoin(p, p);
    LevelsJoin([], t);
    LevelsJoin(t, []);
    assert Levels(f) == [p, p] && Levels(n) == [[], t];
    assert [p, p][1..] == [p] && [[], t][1..] == [t];
    assert [p][1..] == [] && [t][1..] == [] && StandardMatch([p], [t]);
  }

  /** `p/#` and `p`: another one. */
  lemma ParentMissed()
    ensures var f: seq<Byte> := [112, SLASH, HASH];
            WellFormed(f) && StandardMatch(Levels(f), Levels([112])) && !Scan(f, [112])
  {
    hide Levels;
    var p: seq<Byte>, h: seq<Byte> := [112], [HASH];
    var f: seq<Byte> := [112, SLASH, HASH];
    assert f == p + [SLASH] + h;
    LevelsJoin(p, h);
    LevelsJoin(h, []);
    assert Levels(f) == [p, h] && [p, h][1..] == [h];
    assert StandardMatch([h], []);
    MatcherAndStandard(f, p);
  }

  lemma ScanAtEnd(f: seq<Byte>, n: seq<Byte>)
    requires WellFormed(f) && (f == [] || n == [])
    ensures LevelsMatch(Levels(f), Levels(n)) == (f == [] && n == [])
  {
    var g, m := Levels(f), Levels(n);
    if n == [] && f != [] {
      assert m[1..] == [];
      if f[0] == SLASH {
        assert g == [[]] + Levels(f[1..]);
        assert g[1..] != [];
      }
    } else if f == [] && n != [] {
      assert g[1..] == [];
    }
  }

  lemma FirstLevelDiffers(f: seq<Byte>, n: seq<Byte>)
    requires WellFormed(f) && f != [] && n != []
    requires (n[0] == SLASH && f[0] != SLASH) || (!Wild(f[0]) && f[0] != n[0])
    ensures !LevelsMatch(Levels(f), Levels(n))
  {
    var g, m := Levels(f)[0], Levels(n)[0];
    assert f[0] != SLASH ==> g != [] && g[0] == f[0];
    assert n[0] != SLASH ==> m != [] && m[0] == n[0];
    assert f[0] == SLASH ==> g == [];
    assert n[0] == SLASH ==> m == [];
  }

  lemma PlusStep(f: seq<Byte>, n: seq<Byte>)
    requires WellFormed(f) && f != [] && f[0] == PLUS && n != [] && n[0] != SLASH
    ensures LevelsMatch(Levels(f), Levels(n)) == LevelsMatch(Levels(f[1..]), Levels(n[LevelEnd(n)..]))
  {
    WildLevel(f);
    LevelsSplit(n);
    var g, m := Levels(f[1..]), Levels(n[LevelEnd(n)..]);
    assert LevelsMatch(g, m) == LevelsMatch(g[1..], m[1..]);
  }

  lemma LiteralStep(f: seq<Byte>, n: seq<Byte>)
    requires WellFormed(f) && f != [] && !Wild(f[0]) && n != [] && f[0] == n[0]
    ensures LevelsMatch(Levels(f), Levels(n)) == LevelsMatch(Levels(f[1..]), Levels(n[1..]))
  {
    var g, m := Levels(f[1..]), Levels(n[1..]);
    var c := f[0];
    if c == SLASH {
      assert ([[]] + g)[1..] == g && ([[]] + m)[1..] == m;
    } else {
      LiteralLevel(f);
      var f1, n1 := [[c] + g[0]] + g[1..], [[c] + m[0]] + m[1..];
      assert f1[1..] == g[1..] && n1[1..] == m[1..];
      assert f1[0] == n1[0] <==> g[0] == m[0] by {
        assert f1[0][1..] == g[0] && n1[0][1..] == m[0];
      }
      assert f1[0][0] == c;
    }
  }

  /** After a literal character the level goes on literally. */
  lemma LiteralLevel(f: seq<Byte>)
    requires WellFormed(f) && f != [] && f[0] != SLASH
    ensures Levels(f[1..])[0] != [PLUS] && Levels(f[1..])[0] != [HASH]
  {
    if |f| > 1 {
      assert f[1..][0] == f[1];
      assert WellPlaced(f, 1);
      assert f[1] != SLASH ==> Levels(f[1..])[0][0] == f[1];
    }
  }
}
