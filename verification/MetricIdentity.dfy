/** The agent's de-duplication of metric points by name and labels. */
module MetricIdentity {
  import opened Text
  import opened MetricPoints

  // ---- Identity ----

  function Suffix(keys: seq<string>, labels: map<string, string>): (s: string)
    requires forall k :: k in keys ==> k in labels
  {
    if keys == [] then ""
    else "\0" + (keys[0] + ("=" + (labels[keys[0]] + Suffix(keys[1..], labels))))
  }

  /** Name, then every label in ascending order of its key, set apart by NUL. */
  ghost function Identity(p: Point): (id: string) {
    SortedKeysAre(p.labels.Keys);
    p.name + Suffix(SortedKeys(p.labels.Keys), p.labels)
  }

  /** `metricPointIdentity`: the keys are gathered in whatever order the map is ranged over. */
  method MetricPointIdentity(p: Point) returns (id: string)
    ensures id == Identity(p)
  {
    var keys := SortKeys(p.labels.Keys);
    SortedKeysAre(p.labels.Keys);
    id := AppendLabels(p.name, keys, p.labels);
  }

  method AppendLabels(name: string, keys: seq<string>, labels: map<string, string>) returns (id: string)
    requires forall k :: k in keys ==> k in labels
    ensures id == name + Suffix(keys, labels)
  {
    id := name;
    for i := 0 to |keys|
      invariant id + Suffix(keys[i..], labels) == name + Suffix(keys, labels)
    {
      var k := keys[i];
      assert keys[i..][1..] == keys[i + 1..];
      ghost var rest := Suffix(keys[i + 1..], labels);
      assert id + ("\0" + (k + ("=" + (labels[k] + rest)))) == id + ("\0" + k + "=" + labels[k]) + rest;
      id := id + ("\0" + k + "=" + labels[k]);
    }
  }

  /** Two texts free of a separator, each followed by nothing or by the separator, can be told apart. */
  lemma {:induction false} SplitUnique(a: string, b: string, r: string, s: string, sep: char)
    requires sep !in a && sep !in b
    requires (r == "" || r[0] == sep) && (s == "" || s[0] == sep)
    requires a + r == b + s
    ensures a == b && r == s
  {
    assert a == "" ==> a + r == r;
    assert b == "" ==> b + s == s;
    if a != "" && b != "" {
      assert (a + r)[0] == a[0] && (b + s)[0] == b[0];
      assert (a + r)[1..] == a[1..] + r && (b + s)[1..] == b[1..] + s;
      SplitUnique(a[1..], b[1..], r, s, sep);
      assert a == [a[0]] + a[1..] && b == [b[0]] + b[1..];
    }
  }

  lemma IdentifierHasNoSeparator(s: string, maxBytes: int, alnum: char -> bool)
    requires AlnumTable(alnum) && ValidIdentifier(s, maxBytes, alnum)
    ensures '\0' !in s && '=' !in s
  {
  }

  lemma {:induction false} SuffixInjective(a: seq<string>, m: map<string, string>, b: seq<string>, n: map<string, string>, alnum: char -> bool)
    requires AlnumTable(alnum) && ValidLabels(m, alnum) && ValidLabels(n, alnum)
    requires (forall k :: k in a ==> k in m) && (forall k :: k in b ==> k in n)
    requires Suffix(a, m) == Suffix(b, n)
    ensures a == b && forall k :: k in a ==> m[k] == n[k]
  {
    if a != [] && b != [] {
      var ra, rb := Suffix(a[1..], m), Suffix(b[1..], n);
      var va, vb := m[a[0]] + ra, n[b[0]] + rb;
      assert Suffix(a, m)[1..] == a[0] + ("=" + va) && Suffix(b, n)[1..] == b[0] + ("=" + vb);
      IdentifierHasNoSeparator(a[0], MAX_KEY_BYTES, alnum);
      IdentifierHasNoSeparator(b[0], MAX_KEY_BYTES, alnum);
      SplitUnique(a[0], b[0], "=" + va, "=" + vb, '=');
      assert ("=" + va)[1..] == va && ("=" + vb)[1..] == vb;
      assert '\0' !in m[a[0]] && '\0' !in n[b[0]];
      SplitUnique(m[a[0]], n[b[0]], ra, rb, '\0');
      SuffixInjective(a[1..], m, b[1..], n, alnum);
      assert a == [a[0]] + a[1..] && b == [b[0]] + b[1..];
    }
  }

  ghost predicate SameSeries(p: Point, q: Point) {
    p.name == q.name && p.labels == q.labels
  }

  /** For points the server accepts, the identity tells name and labels apart completely. */
  lemma IdentityInjective(p: Point, q: Point, alnum: char -> bool)
    requires AlnumTable(alnum) && ValidPoint(p, alnum) && ValidPoint(q, alnum)
    ensures Identity(p) == Identity(q) <==> SameSeries(p, q)
  {
    if Identity(p) == Identity(q) {
      var a, b := SortedKeys(p.labels.Keys), SortedKeys(q.labels.Keys);
      SortedKeysAre(p.labels.Keys);
      SortedKeysAre(q.labels.Keys);
      IdentifierHasNoSeparator(p.name, MAX_NAME_BYTES, alnum);
      IdentifierHasNoSeparator(q.name, MAX_NAME_BYTES, alnum);
      SplitUnique(p.name, q.name, Suffix(a, p.labels), Suffix(b, q.labels), '\0');
      SuffixInjective(a, p.labels, b, q.labels, alnum);
      assert p.labels.Keys == q.labels.Keys by {
        assert forall k :: k in p.labels.Keys <==> k in a;
        assert forall k :: k in q.labels.Keys <==> k in b;
      }
    }
  }

  lemma SortedPair()
    ensures SortedKeys({"a"}) == ["a"] && SortedKeys({"a", "b"}) == ["a", "b"]
  {
    SortedKeysAre({"a"});
    SortedKeysAre({"a", "b"});
    assert Elements(["a"]) == {"a"} && Elements(["a", "b"]) == {"a", "b"};
    SortedUnique(["a"], SortedKeys({"a"}));
    SortedUnique(["a", "b"], SortedKeys({"a", "b"}));
  }

  /** The NUL that keeps labels apart is not kept out of label values: unchecked points can collide. */
  lemma UncheckedPointsCanCollide(value: Float, ts: int)
    ensures var p := Point("m", value, ts, map["a" := "1\0b=2"]);
      var q := Point("m", value, ts, map["a" := "1", "b" := "2"]);
      Identity(p) == Identity(q) && !SameSeries(p, q) && !ValidText(p.labels["a"], MAX_VALUE_BYTES)
  {
    var m, n := map["a" := "1\0b=2"], map["a" := "1", "b" := "2"];
    assert m.Keys == {"a"} && n.Keys == {"a", "b"};
    SortedPair();
    assert ["a", "b"][1..] == ["b"] && ["a"][1..] == [] && ["b"][1..] == [];
    assert Suffix(["b"], n) == "\0b=2";
    assert Suffix(["a", "b"], n) == "\0a=1\0b=2" == Suffix(["a"], m);
    assert IsControl(m["a"][1]);
    assert "b" in n && "b" !in m;
  }
}

/** De-duplication by key of a list appended to another: the first occurrence of each key survives. */
module FirstOccurrences {
  predicate IsNew(seen: set<string>, ids: seq<string>, k: int)
    requires 0 <= k < |ids|
  {
    ids[k] !in seen && ids[k] !in ids[..k]
  }

  /** The positions among the first `n` whose key is new there. */
  function NewOnes(seen: set<string>, ids: seq<string>, n: nat): (r: seq<nat>)
    requires n <= |ids|
    ensures forall i :: 0 <= i < |r| ==> r[i] < n
  {
    if n == 0 then []
    else if IsNew(seen, ids, n - 1) then NewOnes(seen, ids, n - 1) + [n - 1]
    else NewOnes(seen, ids, n - 1)
  }

  lemma {:induction false} NewOnesExactly(seen: set<string>, ids: seq<string>, n: nat)
    requires n <= |ids|
    ensures forall k :: k in NewOnes(seen, ids, n) <==> 0 <= k < n && IsNew(seen, ids, k)
  {
    if n > 0 { NewOnesExactly(seen, ids, n - 1); }
  }

  lemma {:induction false} NewOnesAscend(seen: set<string>, ids: seq<string>, n: nat)
    requires n <= |ids|
    ensures forall i, j :: 0 <= i < j < |NewOnes(seen, ids, n)| ==> NewOnes(seen, ids, n)[i] < NewOnes(seen, ids, n)[j]
  {
    if n > 0 { NewOnesAscend(seen, ids, n - 1); }
  }

  /** Every key that was not seen before has a first position. */
  lemma {:induction false} FirstExists(seen: set<string>, ids: seq<string>, k: int) returns (first: int)
    requires 0 <= k < |ids| && ids[k] !in seen
    ensures 0 <= first <= k && ids[first] == ids[k] && IsNew(seen, ids, first)
  {
    if ids[k] !in ids[..k] {
      first := k;
    } else {
      var m :| 0 <= m < k && ids[..k][m] == ids[k];
      first := FirstExists(seen, ids, m);
    }
  }
}

/** Which points of a batch survive. */
module MetricDedup {
  import opened Text
  import opened MetricPoints
  import opened MetricIdentity
  import opened FirstOccurrences

  /** A point without a time gets the time of the batch. */
  function Stamp(p: Point, now: int): (q: Point) {
    if p.ts == 0 then p.(ts := now) else p
  }

  ghost function Ids(points: seq<Point>): (ids: seq<string>)
    ensures |ids| == |points| && forall i :: 0 <= i < |points| ==> ids[i] == Identity(points[i])
  {
    seq(|points|, i requires 0 <= i < |points| => Identity(points[i]))
  }

  function Select(extra: seq<Point>, at: seq<nat>, now: int): (r: seq<Point>)
    requires forall i :: 0 <= i < |at| ==> at[i] < |extra|
    ensures |r| == |at| && forall i :: 0 <= i < |at| ==> r[i] == Stamp(extra[at[i]], now)
  {
    seq(|at|, i requires 0 <= i < |at| => Stamp(extra[at[i]], now))
  }

  /** All base points, then each extra point whose identity occurs there for the first time. */
  ghost function Appended(base: seq<Point>, extra: seq<Point>, now: int): (r: seq<Point>) {
    base + Select(extra, NewOnes(Elements(Ids(base)), Ids(extra), |extra|), now)
  }

  method SeenIdentities(points: seq<Point>) returns (seen: set<string>)
    ensures seen == Elements(Ids(points))
  {
    seen := {};
    for i := 0 to |points|
      invariant seen == Elements(Ids(points)[..i])
    {
      var id := MetricPointIdentity(points[i]);
      assert Ids(points)[..i + 1] == Ids(points)[..i] + [id];
      seen := seen + {id};
    }
    assert Ids(points)[..|points|] == Ids(points);
  }

  /** After `n` extra points: what has been seen, and what the batch has come to. */
  ghost predicate Progress(base: seq<Point>, extra: seq<Point>, n: nat, now: int, seen: set<string>, r: seq<Point>)
    requires n <= |extra|
  {
    && seen == Elements(Ids(base)) + Elements(Ids(extra)[..n])
    && r == base + Select(extra, NewOnes(Elements(Ids(base)), Ids(extra), n), now)
  }

  method AppendMetricPoints(base: seq<Point>, extra: seq<Point>, now: int) returns (r: seq<Point>)
    ensures r == Appended(base, extra, now)
  {
    var seen := SeenIdentities(base);
    r := base;
    for i := 0 to |extra|
      invariant Progress(base, extra, i, now, seen, r)
    {
      var point := if extra[i].ts == 0 then extra[i].(ts := now) else extra[i];
      var id := MetricPointIdentity(point);
      NextProgress(base, extra, i, now, seen, r, id);
      if id !in seen {
        seen := seen + {id};
        r := r + [point];
      }
    }
  }

  /** One more extra point: taken exactly if its identity is not among those seen so far. */
  lemma NextProgress(base: seq<Point>, extra: seq<Point>, i: nat, now: int, seen: set<string>, r: seq<Point>, id: string)
    requires i < |extra| && Progress(base, extra, i, now, seen, r) && id == Identity(Stamp(extra[i], now))
    ensures if id in seen then Progress(base, extra, i + 1, now, seen, r)
            else Progress(base, extra, i + 1, now, seen + {id}, r + [Stamp(extra[i], now)])
  {
    StampKeepsIdentity(extra[i], now);
    NextOne(extra, Elements(Ids(base)), Ids(extra), i, now);
  }

  lemma NextOne(extra: seq<Point>, before: set<string>, ids: seq<string>, i: nat, now: int)
    requires i < |ids| == |extra|
    ensures Elements(ids[..i + 1]) == Elements(ids[..i]) + {ids[i]}
    ensures IsNew(before, ids, i) <==> ids[i] !in before + Elements(ids[..i])
    ensures Select(extra, NewOnes(before, ids, i + 1), now)
         == Select(extra, NewOnes(before, ids, i), now) + (if IsNew(before, ids, i) then [Stamp(extra[i], now)] else [])
  {
    assert ids[..i + 1] == ids[..i] + [ids[i]];
  }

  lemma StampKeepsIdentity(p: Point, now: int)
    ensures Identity(Stamp(p, now)) == Identity(p)
  {
  }

  ghost predicate DistinctSeries(points: seq<Point>) {
    forall i, j :: 0 <= i < j < |points| ==> !SameSeries(points[i], points[j])
  }

  ghost predicate AllValid(points: seq<Point>, alnum: char -> bool) {
    forall p :: p in points ==> ValidPoint(p, alnum)
  }

  /** No base point and no earlier extra point is of the same series. */
  ghost predicate FirstOfItsSeries(base: seq<Point>, extra: seq<Point>, k: int) {
    && 0 <= k < |extra|
    && (forall p :: p in base ==> !SameSeries(p, extra[k]))
    && (forall m :: 0 <= m < k ==> !SameSeries(extra[m], extra[k]))
  }

  lemma NewIsFirst(base: seq<Point>, extra: seq<Point>, k: int, alnum: char -> bool)
    requires AlnumTable(alnum) && AllValid(base, alnum) && AllValid(extra, alnum) && 0 <= k < |extra|
    ensures IsNew(Elements(Ids(base)), Ids(extra), k) <==> FirstOfItsSeries(base, extra, k)
  {
    var bids, ids := Ids(base), Ids(extra);
    forall i | 0 <= i < |base| ensures bids[i] == ids[k] <==> SameSeries(base[i], extra[k]) {
      IdentityInjective(base[i], extra[k], alnum);
    }
    forall m | 0 <= m < |extra| ensures ids[m] == ids[k] <==> SameSeries(extra[m], extra[k]) {
      IdentityInjective(extra[m], extra[k], alnum);
    }
    assert ids[k] in Elements(bids) <==> exists i :: 0 <= i < |bids| && bids[i] == ids[k];
    assert ids[k] in ids[..k] <==> exists m :: 0 <= m < k && ids[m] == ids[k];
  }

  /** `r` is the base followed by exactly the extra points, at ascending positions `at`, that are first of their series. */
  ghost predicate Placed(base: seq<Point>, extra: seq<Point>, r: seq<Point>, at: seq<nat>, now: int) {
    && |r| == |base| + |at| && base <= r
    && (forall i :: 0 <= i < |at| ==> FirstOfItsSeries(base, extra, at[i]) && r[|base| + i] == Stamp(extra[at[i]], now))
    && (forall i, j :: 0 <= i < j < |at| ==> at[i] < at[j])
    && (forall k :: FirstOfItsSeries(base, extra, k) ==> k in at)
  }

  lemma AppendedPlaced(base: seq<Point>, extra: seq<Point>, now: int, alnum: char -> bool)
    requires AlnumTable(alnum) && AllValid(base, alnum) && AllValid(extra, alnum)
    ensures Placed(base, extra, Appended(base, extra, now), NewOnes(Elements(Ids(base)), Ids(extra), |extra|), now)
  {
    var seen, ids := Elements(Ids(base)), Ids(extra);
    var at := NewOnes(seen, ids, |extra|);
    NewOnesExactly(seen, ids, |extra|);
    NewOnesAscend(seen, ids, |extra|);
    forall i | 0 <= i < |at| ensures FirstOfItsSeries(base, extra, at[i]) {
      assert at[i] in at;
      NewIsFirst(base, extra, at[i], alnum);
    }
    forall k | FirstOfItsSeries(base, extra, k) ensures k in at {
      NewIsFirst(base, extra, k, alnum);
    }
  }

  lemma PlacedDistinct(base: seq<Point>, extra: seq<Point>, r: seq<Point>, at: seq<nat>, now: int)
    requires Placed(base, extra, r, at, now) && DistinctSeries(base)
    ensures DistinctSeries(r)
  {
    forall i, j | 0 <= i < j < |r| ensures !SameSeries(r[i], r[j]) {
      if j >= |base| {
        var k := at[j - |base|];
        assert FirstOfItsSeries(base, extra, k) && r[|base| + (j - |base|)] == Stamp(extra[k], now);
        if i < |base| {
          assert r[i] == base[i] && base[i] in base;
        } else {
          assert at[i - |base|] < k && r[|base| + (i - |base|)] == Stamp(extra[at[i - |base|]], now);
        }
      }
    }
  }

  lemma PlacedComplete(base: seq<Point>, extra: seq<Point>, r: seq<Point>, at: seq<nat>, now: int, k: int)
    requires Placed(base, extra, r, at, now) && 0 <= k < |extra|
    ensures HasSeries(r, extra[k])
  {
    SeriesHasAFirst(base, extra, k);
    if p :| p in base && SameSeries(p, extra[k]) {
      assert p in r;
    } else {
      var m :| FirstOfItsSeries(base, extra, m) && SameSeries(extra[m], extra[k]);
      var i :| 0 <= i < |at| && at[i] == m;
      assert r[|base| + i] in r;
    }
  }

  /** Going back to earlier points of the same series ends at a base point or at the first extra one. */
  lemma {:induction false} SeriesHasAFirst(base: seq<Point>, extra: seq<Point>, k: int)
    requires 0 <= k < |extra|
    ensures (exists p :: p in base && SameSeries(p, extra[k]))
         || (exists m :: FirstOfItsSeries(base, extra, m) && SameSeries(extra[m], extra[k]))
    decreases k
  {
    if m :| 0 <= m < k && SameSeries(extra[m], extra[k]) {
      SeriesHasAFirst(base, extra, m);
    } else if p :| p in base && SameSeries(p, extra[k]) {
    } else {
      assert FirstOfItsSeries(base, extra, k);
    }
  }

  /**
   The base comes first and unchanged, no two points of the batch are of one series, every series
   offered is there, and each appended point is the first of its series, stamped.
   */
  ghost predicate OnePerSeries(base: seq<Point>, extra: seq<Point>, r: seq<Point>, now: int) {
    && base <= r && DistinctSeries(r)
    && (forall k :: 0 <= k < |extra| ==> HasSeries(r, extra[k]))
    && (forall i :: |base| <= i < |r| ==> IsFirst(base, extra, r[i], now))
  }

  ghost predicate HasSeries(r: seq<Point>, p: Point) {
    exists q :: q in r && SameSeries(q, p)
  }

  ghost predicate IsFirst(base: seq<Point>, extra: seq<Point>, q: Point, now: int) {
    exists k :: FirstOfItsSeries(base, extra, k) && q == Stamp(extra[k], now)
  }

  lemma PlacedIsOnePerSeries(base: seq<Point>, extra: seq<Point>, r: seq<Point>, at: seq<nat>, now: int)
    requires Placed(base, extra, r, at, now) && DistinctSeries(base)
    ensures OnePerSeries(base, extra, r, now)
  {
    PlacedDistinct(base, extra, r, at, now);
    forall i | |base| <= i < |r| ensures IsFirst(base, extra, r[i], now) {
      var k := at[i - |base|];
      assert FirstOfItsSeries(base, extra, k) && r[|base| + (i - |base|)] == Stamp(extra[k], now);
    }
    forall k | 0 <= k < |extra| ensures HasSeries(r, extra[k]) {
      PlacedComplete(base, extra, r, at, now, k);
    }
  }

  /** On points the server accepts, with base points of distinct series, exactly one point per series is sent. */
  lemma ExactlyOnePerSeries(base: seq<Point>, extra: seq<Point>, now: int, alnum: char -> bool)
    requires AlnumTable(alnum) && AllValid(base, alnum) && AllValid(extra, alnum) && DistinctSeries(base)
    ensures OnePerSeries(base, extra, Appended(base, extra, now), now)
  {
    AppendedPlaced(base, extra, now, alnum);
    PlacedIsOnePerSeries(base, extra, Appended(base, extra, now), NewOnes(Elements(Ids(base)), Ids(extra), |extra|), now);
  }
}
