/**
 The bucket key of a match request (matchmaker/matchmaker.go, lines 62-76).

 Criteria are taken here as they are printed: names to values as `%v` renders them. Module
 TypedCriteria goes back to the values themselves.
 */
module MatchKey {
  import opened Strings

  type Criteria = map<string, string>

  // ---- Sorted listings ----

  ghost predicate Sorted(ks: seq<string>) {
    forall i, j :: 0 <= i < j < |ks| ==> StringLess(ks[i], ks[j])
  }

  /** `ks` lists `s` in strictly ascending order. */
  ghost predicate Listing(ks: seq<string>, s: set<string>) {
    Sorted(ks) && (set k <- ks) == s
  }

  lemma FirstIsLeast(ks: seq<string>, s: set<string>)
    requires Listing(ks, s) && ks != []
    ensures ks[0] in s && forall k <- s :: k == ks[0] || StringLess(ks[0], k)
    ensures Listing(ks[1..], s - {ks[0]})
  {
    forall k <- s ensures k == ks[0] || StringLess(ks[0], k) {
      assert k in ks;
      var i :| 0 <= i < |ks| && ks[i] == k;
    }
    forall k <- ks[1..] ensures k in s && k != ks[0] {
      var i :| 1 <= i < |ks| && ks[i] == k;
      StringLessTrichotomy(ks[0], k);
    }
    forall k <- s - {ks[0]} ensures k in ks[1..] {
      var i :| 0 <= i < |ks| && ks[i] == k;
      assert ks[1..][i - 1] == k;
    }
  }

  lemma EmptyListing(ks: seq<string>, s: set<string>)
    requires Listing(ks, s)
    ensures ks == [] <==> s == {}
  {
    if ks != [] { assert ks[0] in s; }
  }

  lemma {:induction false} ListingUnique(xs: seq<string>, ys: seq<string>, s: set<string>)
    requires Listing(xs, s) && Listing(ys, s)
    ensures xs == ys
  {
    EmptyListing(xs, s);
    EmptyListing(ys, s);
    if xs != [] {
      FirstIsLeast(xs, s);
      FirstIsLeast(ys, s);
      StringLessTrichotomy(xs[0], ys[0]);
      ListingUnique(xs[1..], ys[1..], s - {xs[0]});
      assert xs == [xs[0]] + xs[1..] && ys == [ys[0]] + ys[1..];
    }
  }

  /** Where a new key goes in an ascending sequence. */
  function Insert(ks: seq<string>, k: string): seq<string> {
    if ks == [] || StringLess(k, ks[0]) then [k] + ks
    else [ks[0]] + Insert(ks[1..], k)
  }

  lemma {:induction false} InsertKeepsListing(ks: seq<string>, k: string, s: set<string>)
    requires Listing(ks, s) && k !in s
    ensures Listing(Insert(ks, k), s + {k})
  {
    var r := Insert(ks, k);
    if ks == [] {
      assert r == [k];
    } else if StringLess(k, ks[0]) {
      FirstIsLeast(ks, s);
      forall x <- s ensures StringLess(k, x) {
        if x != ks[0] { StringLessTransitive(k, ks[0], x); }
      }
      ConsListing(k, ks, s);
    } else {
      FirstIsLeast(ks, s);
      StringLessTrichotomy(ks[0], k);
      InsertKeepsListing(ks[1..], k, s - {ks[0]});
      ConsListing(ks[0], Insert(ks[1..], k), s - {ks[0]} + {k});
      assert {ks[0]} + (s - {ks[0]} + {k}) == s + {k};
    }
  }

  lemma ConsListing(k: string, ks: seq<string>, s: set<string>)
    requires Listing(ks, s) && forall x <- s :: StringLess(k, x)
    ensures Listing([k] + ks, {k} + s)
  {
    var r := [k] + ks;
    forall i, j | 0 <= i < j < |r| ensures StringLess(r[i], r[j]) {
      assert r[j] == ks[j - 1] && r[j] in s;
      if i > 0 { assert r[i] == ks[i - 1]; }
    }
    assert r[0] == k;
    forall x <- s ensures x in r {
      var i :| 0 <= i < |ks| && ks[i] == x;
      assert r[i + 1] == x;
    }
  }

  /** The names of the criteria in the order the key lists them. */
  ghost function SortedKeys(s: set<string>): (ks: seq<string>)
    ensures Listing(ks, s)
  {
    if s == {} then []
    else
      var k :| k in s;
      InsertKeepsListing(SortedKeys(s - {k}), k, s - {k});
      assert s - {k} + {k} == s;
      Insert(SortedKeys(s - {k}), k)
  }

  // ---- The key ----

  function Pairs(ks: seq<string>, c: Criteria): seq<(string, string)>
    requires forall k <- ks :: k in c
  {
    seq(|ks|, i requires 0 <= i < |ks| => (ks[i], c[ks[i]]))
  }

  /** `name=value` parts joined with commas. */
  function JoinParts(ps: seq<(string, string)>): string
    decreases |ps|, 0
  {
    if ps == [] then "" else ps[0].0 + "=" + (ps[0].1 + JoinRest(ps[1..]))
  }

  function JoinRest(ps: seq<(string, string)>): string
    decreases |ps|, 1
  {
    if ps == [] then "" else "," + JoinParts(ps)
  }

  ghost function CriteriaKey(groupSize: int, c: Criteria): string {
    IntString(groupSize) + ":" + JoinParts(Pairs(SortedKeys(c.Keys), c))
  }

  lemma Regroup(a: string, b: string, c: string, d: string)
    ensures a + (b + (c + d)) == a + (b + c) + d
    ensures a + b + c == a + (b + c)
  {
  }

  lemma {:induction false} JoinPartsAppend(ps: seq<(string, string)>, p: (string, string))
    ensures JoinParts(ps + [p]) == JoinParts(ps) + (if ps == [] then "" else ",") + (p.0 + "=" + p.1)
  {
    var part := p.0 + "=" + p.1;
    if ps == [] {
      assert ps + [p] == [p] && [p][1..] == [];
    } else {
      var name, value, rest := ps[0].0 + "=", ps[0].1, ps[1..];
      assert (ps + [p])[1..] == rest + [p];
      JoinPartsAppend(rest, p);
      JoinRestAppend(rest, p);
      Regroup(name, value, JoinRest(rest), "," + part);
      Regroup(JoinParts(ps), ",", part, "");
    }
  }

  /** The same for what follows the first part. */
  lemma JoinRestAppend(ps: seq<(string, string)>, p: (string, string))
    requires JoinParts(ps + [p]) == JoinParts(ps) + (if ps == [] then "" else ",") + (p.0 + "=" + p.1)
    ensures JoinRest(ps + [p]) == JoinRest(ps) + ("," + (p.0 + "=" + p.1))
  {
    var part := p.0 + "=" + p.1;
    if ps == [] {
      assert "" + "" + part == part && "" + ("," + part) == "," + part;
    } else {
      Regroup(",", JoinParts(ps), ",", part);
      Regroup(JoinParts(ps), ",", part, "");
      Regroup(",", JoinParts(ps), "," + part, "");
    }
  }

  /** `criteriaKey`, which ranges over the map in an arbitrary order and sorts: the result
      does not depend on that order. */
  method BuildKey(groupSize: int, c: Criteria) returns (key: string)
    ensures key == CriteriaKey(groupSize, c)
  {
    var keys: seq<string> := [];
    var rest := c.Keys;
    while rest != {}
      invariant rest <= c.Keys && Listing(keys, c.Keys - rest)
    {
      var k :| k in rest;
      InsertKeepsListing(keys, k, c.Keys - rest);
      assert c.Keys - rest + {k} == c.Keys - (rest - {k});
      keys := Insert(keys, k);
      rest := rest - {k};
    }
    assert c.Keys - rest == c.Keys;
    ListingUnique(keys, SortedKeys(c.Keys), c.Keys);
    assert forall k <- keys :: k in c;
    var joined := JoinCriteria(keys, c);
    key := IntString(groupSize) + ":" + joined;
  }

  /** The loop that renders the parts and the `strings.Join` after it. */
  method JoinCriteria(keys: seq<string>, c: Criteria) returns (joined: string)
    requires forall k <- keys :: k in c
    ensures joined == JoinParts(Pairs(keys, c))
  {
    joined := "";
    for i := 0 to |keys|
      invariant joined == JoinParts(Pairs(keys[..i], c))
    {
      JoinPartsAppend(Pairs(keys[..i], c), (keys[i], c[keys[i]]));
      assert Pairs(keys[..i + 1], c) == Pairs(keys[..i], c) + [(keys[i], c[keys[i]])];
      joined := joined + (if i == 0 then "" else ",") + (keys[i] + "=" + c[keys[i]]);
    }
    assert keys[..|keys|] == keys;
  }

  // ---- What the key determines ----

  /** The group size can always be read off the key. */
  lemma KeyGivesGroupSize(g1: int, c1: Criteria, g2: int, c2: Criteria)
    requires CriteriaKey(g1, c1) == CriteriaKey(g2, c2)
    ensures g1 == g2
    ensures JoinParts(Pairs(SortedKeys(c1.Keys), c1)) == JoinParts(Pairs(SortedKeys(c2.Keys), c2))
  {
    IntStringInjective(g1, g2);
    IntStringInjective(g2, g1);
    SplitIsUnique(IntString(g1), JoinParts(Pairs(SortedKeys(c1.Keys), c1)),
                  IntString(g2), JoinParts(Pairs(SortedKeys(c2.Keys), c2)), ':');
  }

  predicate CleanString(s: string) {
    '=' !in s && ',' !in s
  }

  /** Neither a name nor a printed value contains a separator. */
  ghost predicate Clean(c: Criteria) {
    forall k <- c :: CleanString(k) && CleanString(c[k])
  }

  lemma {:induction false} JoinPartsInjective(ps: seq<(string, string)>, qs: seq<(string, string)>)
    requires forall p <- ps :: CleanString(p.0) && CleanString(p.1)
    requires forall q <- qs :: CleanString(q.0) && CleanString(q.1)
    requires JoinParts(ps) == JoinParts(qs)
    ensures ps == qs
  {
    if ps != [] && qs != [] {
      var p, q := ps[0], qs[0];
      SplitIsUnique(p.0, p.1 + JoinRest(ps[1..]), q.0, q.1 + JoinRest(qs[1..]), '=');
      ValueEnds(p.1, ps[1..], q.1, qs[1..]);
      JoinPartsInjective(ps[1..], qs[1..]);
      assert ps == [p] + ps[1..] && qs == [q] + qs[1..];
    }
  }

  /** A value ends at the next comma or at the end of the key. */
  lemma ValueEnds(v: string, ps: seq<(string, string)>, w: string, qs: seq<(string, string)>)
    requires CleanString(v) && CleanString(w) && v + JoinRest(ps) == w + JoinRest(qs)
    ensures v == w && JoinParts(ps) == JoinParts(qs)
  {
    CommaIffMore(v, ps);
    CommaIffMore(w, qs);
    if ps == [] {
      assert v == v + JoinRest(ps) && w == w + JoinRest(qs);
    } else {
      assert v + JoinRest(ps) == v + [','] + JoinParts(ps);
      assert w + JoinRest(qs) == w + [','] + JoinParts(qs);
      SplitIsUnique(v, JoinParts(ps), w, JoinParts(qs), ',');
    }
  }

  lemma CommaIffMore(v: string, ps: seq<(string, string)>)
    requires CleanString(v)
    ensures ',' in v + JoinRest(ps) <==> ps != []
  {
    if ps == [] {
      assert v + JoinRest(ps) == v;
    } else {
      assert (v + JoinRest(ps))[|v|] == ',';
    }
  }

  /** On clean criteria the key identifies the request as printed: equal keys mean equal group
      sizes and equal names and renderings. */
  lemma PrintedKeyInjective(g1: int, c1: Criteria, g2: int, c2: Criteria)
    requires Clean(c1) && Clean(c2)
    ensures CriteriaKey(g1, c1) == CriteriaKey(g2, c2) <==> g1 == g2 && c1 == c2
  {
    if CriteriaKey(g1, c1) == CriteriaKey(g2, c2) {
      KeyGivesGroupSize(g1, c1, g2, c2);
      var ks1, ks2 := SortedKeys(c1.Keys), SortedKeys(c2.Keys);
      JoinPartsInjective(Pairs(ks1, c1), Pairs(ks2, c2));
      PairsInjective(ks1, c1, ks2, c2);
    }
  }

  /** Criteria can be read off the pairs of any listing of their names. */
  lemma PairsInjective(ks1: seq<string>, c1: Criteria, ks2: seq<string>, c2: Criteria)
    requires (set k <- ks1) == c1.Keys && (set k <- ks2) == c2.Keys && Pairs(ks1, c1) == Pairs(ks2, c2)
    ensures c1 == c2
  {
    assert |ks1| == |Pairs(ks1, c1)| == |ks2|;
    forall i | 0 <= i < |ks1| ensures ks1[i] == ks2[i] && c1[ks1[i]] == c2[ks1[i]] {
      assert Pairs(ks1, c1)[i] == Pairs(ks2, c2)[i];
    }
    assert ks1 == ks2;
    forall k <- c1 ensures c1[k] == c2[k] {
      assert k in ks1;
    }
  }

  // ---- Exactly when a key is shared ----

  /** Some other printed request, of any group size and criteria, has the same key. */
  ghost predicate Shared(g: int, c: Criteria) {
    exists h: int, d: Criteria :: (h != g || d != c) && CriteriaKey(h, d) == CriteriaKey(g, c)
  }

  /** Two names or more, or an equals sign inside the only one or its value. */
  ghost predicate Ambiguous(c: Criteria) {
    |c| >= 2 || exists k <- c :: '=' in k || '=' in c[k]
  }

  lemma OnePair(k: string, v: string)
    ensures var d: Criteria := map[k := v];
            Pairs(SortedKeys(d.Keys), d) == [(k, v)] && JoinParts([(k, v)]) == k + "=" + v
  {
    var d: Criteria := map[k := v];
    assert d.Keys == {k};
    ListingUnique([k], SortedKeys(d.Keys), d.Keys);
    assert [(k, v)][1..] == [] && v + "" == v;
  }

  /** What the key of criteria with a first name lists: that name, and the rest. */
  lemma FirstPair(c: Criteria) returns (k: string, rest: seq<(string, string)>)
    requires c != map[]
    ensures k in c && |c| == |rest| + 1
    ensures JoinParts(Pairs(SortedKeys(c.Keys), c)) == k + "=" + (c[k] + JoinRest(rest))
    ensures rest == [] ==> c == map[k := c[k]]
  {
    var ks := SortedKeys(c.Keys);
    EmptyListing(ks, c.Keys);
    ListingSize(ks, c.Keys);
    k, rest := ks[0], Pairs(ks, c)[1..];
    FirstIsLeast(ks, c.Keys);
    assert |c| == |c.Keys|;
    if rest == [] {
      assert ks == [k] && c.Keys == {k};
    }
  }

  lemma {:induction false} ListingSize(ks: seq<string>, s: set<string>)
    requires Listing(ks, s)
    ensures |ks| == |s|
  {
    EmptyListing(ks, s);
    if ks != [] {
      FirstIsLeast(ks, s);
      ListingSize(ks[1..], s - {ks[0]});
    }
  }

  /** A body that splits at an equals sign is also the body of one name. */
  lemma OneNameBody(g: int, c: Criteria, k: string, v: string)
    requires JoinParts(Pairs(SortedKeys(c.Keys), c)) == k + "=" + v && c != map[k := v]
    ensures Shared(g, c)
  {
    OnePair(k, v);
    var d: Criteria := map[k := v];
    assert CriteriaKey(g, d) == CriteriaKey(g, c);
  }

  lemma AmbiguousIsShared(g: int, c: Criteria)
    requires Ambiguous(c)
    ensures Shared(g, c)
  {
    var k, rest := FirstPair(c);
    var v := c[k] + JoinRest(rest);
    if |c| >= 2 {
      assert |map[k := v]| == 1;
      OneNameBody(g, c, k, v);
    } else {
      assert JoinRest(rest) == "" && v == c[k];
      OneNameSplits(g, c, k);
    }
  }

  /** One name with an equals sign too many can be read in two ways. */
  lemma OneNameSplits(g: int, c: Criteria, k: string)
    requires k in c && c == map[k := c[k]] && ('=' in k || '=' in c[k])
    ensures Shared(g, c)
  {
    var v := c[k];
    OnePair(k, v);
    var body := k + "=" + v;
    var i :| 0 <= i < |body| && i != |k| && body[i] == '=' by { EqualsElsewhere(k, v); }
    var k', v' := body[..i], body[i + 1..];
    assert body == k' + "=" + v';
    assert k' != k && k' in map[k' := v'] && k' !in c;
    OneNameBody(g, c, k', v');
  }

  lemma EqualsElsewhere(k: string, v: string)
    requires '=' in k || '=' in v
    ensures var body := k + "=" + v; exists i :: 0 <= i < |body| && i != |k| && body[i] == '='
  {
    var body := k + "=" + v;
    if '=' in k {
      var i :| 0 <= i < |k| && k[i] == '=';
      assert body[i] == '=';
    } else {
      var i :| 0 <= i < |v| && v[i] == '=';
      assert body[|k| + 1 + i] == '=';
    }
  }

  /** Without that the body has at most one equals sign, and reads in one way only. */
  lemma UnambiguousIsAlone(c: Criteria, d: Criteria)
    requires !Ambiguous(c) && JoinParts(Pairs(SortedKeys(c.Keys), c)) == JoinParts(Pairs(SortedKeys(d.Keys), d))
    ensures d == c
  {
    var body := JoinParts(Pairs(SortedKeys(d.Keys), d));
    if c == map[] {
      EmptyListing(SortedKeys(c.Keys), c.Keys);
      if d != map[] { var k, rest := FirstPair(d); }
    } else {
      var k, none := FirstPair(c);
      assert body == k + "=" + c[k];
      if d == map[] {
        EmptyListing(SortedKeys(d.Keys), d.Keys);
      } else {
        var j, rest := FirstPair(d);
        OneEquals(k, c[k], j, d[j], rest);
      }
    }
  }

  lemma OneEquals(k: string, v: string, j: string, w: string, rest: seq<(string, string)>)
    requires '=' !in k && '=' !in v && k + "=" + v == j + "=" + (w + JoinRest(rest))
    ensures j == k && w == v && rest == []
  {
    var body := k + "=" + v;
    assert body[|j|] == '=';
    assert forall i :: 0 <= i < |body| && body[i] == '=' ==> i == |k|;
    assert k == body[..|k|] == j && v == body[|k| + 1..] == w + JoinRest(rest);
    EqualsInRest(w, rest);
  }

  lemma EqualsInRest(w: string, rest: seq<(string, string)>)
    ensures rest == [] || '=' in w + JoinRest(rest)
    ensures rest == [] ==> w + JoinRest(rest) == w
  {
    if rest != [] {
      assert (w + JoinRest(rest))[|w| + 1 + |rest[0].0|] == '=';
    }
  }

  /** A printed request shares its key with another printed one if and only if it names two
      criteria or more, or one with an equals sign in its name or value. */
  lemma PrintedKeySharedIff(g: int, c: Criteria)
    ensures Shared(g, c) <==> Ambiguous(c)
  {
    if Ambiguous(c) {
      AmbiguousIsShared(g, c);
    } else {
      forall h: int, d: Criteria | CriteriaKey(h, d) == CriteriaKey(g, c) ensures h == g && d == c {
        KeyGivesGroupSize(h, d, g, c);
        UnambiguousIsAlone(c, d);
      }
    }
  }

  /** With a separator inside a value two different requests share a bucket. */
  lemma KeyCollision(g: int)
    ensures CriteriaKey(g, map["a" := "1,b=2"]) == CriteriaKey(g, map["a" := "1", "b" := "2"])
  {
    PairsOfOne(map["a" := "1,b=2"]);
    PairsOfTwo(map["a" := "1", "b" := "2"]);
    assert [("a", "1"), ("b", "2")][1..] == [("b", "2")];
    assert JoinParts([("b", "2")]) == "b=2";
    assert JoinParts([("a", "1"), ("b", "2")]) == "a=1,b=2" == JoinParts([("a", "1,b=2")]);
  }

  lemma PairsOfOne(c: Criteria)
    requires c.Keys == {"a"}
    ensures Pairs(SortedKeys(c.Keys), c) == [("a", c["a"])]
  {
    ListingUnique(["a"], SortedKeys(c.Keys), c.Keys);
  }

  lemma PairsOfTwo(c: Criteria)
    requires c.Keys == {"a", "b"}
    ensures Pairs(SortedKeys(c.Keys), c) == [("a", c["a"]), ("b", c["b"])]
  {
    assert StringLess("a", "b");
    ListingUnique(["a", "b"], SortedKeys(c.Keys), c.Keys);
  }
}
