/**
 The page-side reader of the popup (`getStorageData` in popup.js): it copies
 local storage and session storage into plain key/value maps and parses
 `document.cookie` into a third map.

 A Web Storage area is given as the sequence of pairs
 `(storage.key(i), storage.getItem(storage.key(i)))` for `i` from 0 to
 `storage.length - 1`; the cookie header is given as the string that
 `document.cookie` returns.
 */
module StorageReader {
  import opened JsStrings

  /** The pairs a Web Storage area enumerates, in index order. */
  type StorageEntries = seq<(JsString, JsString)>

  /** The three buckets the reader returns. */
  datatype Snapshot = Snapshot(
    local: map<JsString, JsString>,
    session: map<JsString, JsString>,
    cookies: map<JsString, JsString>)

  const Semicolon: CodeUnit := 0x3B   // ';'
  const EqualsSign: CodeUnit := 0x3D  // '='

  // ---------------------------------------------------------------------
  // Local and session storage
  // ---------------------------------------------------------------------

  /** No pair after index `i` has the key of pair `i`. */
  ghost predicate LastWithKey(entries: StorageEntries, i: int)
    requires 0 <= i < |entries|
  {
    LastWithKeyBefore(entries, |entries|, i)
  }

  /** Among the first `n` pairs, none after index `i` has the key of pair `i`. */
  ghost predicate LastWithKeyBefore(entries: StorageEntries, n: int, i: int)
    requires 0 <= i < n <= |entries|
  {
    forall j :: i < j < n ==> entries[j].0 != entries[i].0
  }

  ghost predicate DistinctKeys(entries: StorageEntries) {
    forall i, j :: 0 <= i < j < |entries| ==> entries[i].0 != entries[j].0
  }

  /** `m` is what copying `entries` into an empty object one by one gives:
      its keys are exactly the enumerated keys, and each key is bound to the
      value of the last pair that carries it. */
  ghost predicate ReadsExactly(entries: StorageEntries, m: map<JsString, JsString>) {
    ReadsFirst(entries, |entries|, m)
  }

  /** `ReadsExactly` for the first `n` pairs of `entries`. */
  ghost predicate ReadsFirst(entries: StorageEntries, n: int, m: map<JsString, JsString>)
    requires 0 <= n <= |entries|
  {
    && (forall k :: k in m <==> exists i :: 0 <= i < n && entries[i].0 == k)
    && (forall i {:trigger LastWithKeyBefore(entries, n, i)} :: 0 <= i < n && LastWithKeyBefore(entries, n, i) ==>
          entries[i].0 in m && m[entries[i].0] == entries[i].1)
  }

  /** The loop `for (i = 0; i < storage.length; i++) data[key(i)] = getItem(key(i))`.
      A Web Storage area never enumerates a key twice, and then every pair
      ends up in the map and the map has one entry per index. */
  method ReadStorage(entries: StorageEntries) returns (m: map<JsString, JsString>)
    ensures ReadsExactly(entries, m)
    ensures |m| <= |entries|
    ensures DistinctKeys(entries) ==> |m| == |entries|
    ensures DistinctKeys(entries) ==>
              forall i :: 0 <= i < |entries| ==> m[entries[i].0] == entries[i].1
  {
    m := map[];
    var i := 0;
    while i < |entries|
      invariant 0 <= i <= |entries|
      invariant CopiedFirst(entries, i, m)
    {
      CopyPair(entries, i, m);
      m := m[entries[i].0 := entries[i].1];
      i := i + 1;
    }
    assert i == |entries|;
    CopiedAll(entries, m);
  }

  /** The invariant of the storage loop after `n` iterations. */
  ghost predicate CopiedFirst(entries: StorageEntries, n: int, m: map<JsString, JsString>)
    requires 0 <= n <= |entries|
  {
    && ReadsFirst(entries, n, m)
    && |m| <= n
    && (DistinctKeys(entries) ==> |m| == n)
  }

  /** One iteration of the storage loop keeps its invariant. */
  lemma CopyPair(entries: StorageEntries, i: int, m: map<JsString, JsString>)
    requires 0 <= i < |entries|
    requires CopiedFirst(entries, i, m)
    ensures CopiedFirst(entries, i + 1, m[entries[i].0 := entries[i].1])
  {
    if DistinctKeys(entries) {
      NewKeyWhenDistinct(entries, i, m);
    }
    ReadsStep(entries, i, m);
    UpdateSize(m, entries[i].0, entries[i].1);
  }

  /** The loop's invariant at its end gives everything `ReadStorage` promises. */
  lemma CopiedAll(entries: StorageEntries, m: map<JsString, JsString>)
    requires CopiedFirst(entries, |entries|, m)
    ensures ReadsExactly(entries, m)
    ensures |m| <= |entries|
    ensures DistinctKeys(entries) ==> |m| == |entries|
    ensures DistinctKeys(entries) ==>
              forall i :: 0 <= i < |entries| ==> m[entries[i].0] == entries[i].1
  {
    if DistinctKeys(entries) {
      DistinctReadsAll(entries, m);
    }
  }

  /** Binding a key grows a map by one entry exactly when the key is new. */
  lemma UpdateSize(m: map<JsString, JsString>, k: JsString, v: JsString)
    ensures |m[k := v]| == if k in m then |m| else |m| + 1
  {
    var m' := m[k := v];
    assert m'.Keys == m.Keys + {k};
    if k in m {
      assert m.Keys + {k} == m.Keys;
    } else {
      assert |m.Keys + {k}| == |m.Keys| + 1;
    }
  }

  /** Copying pair `n` into the object: its key now holds its value, every
      other key is as before. */
  lemma ReadsStep(entries: StorageEntries, n: int, m: map<JsString, JsString>)
    requires 0 <= n < |entries|
    requires ReadsFirst(entries, n, m)
    ensures ReadsFirst(entries, n + 1, m[entries[n].0 := entries[n].1])
  {
    var m' := m[entries[n].0 := entries[n].1];
    forall k ensures k in m' <==> exists i :: 0 <= i < n + 1 && entries[i].0 == k {
      if k in m && k != entries[n].0 {
        var i :| 0 <= i < n && entries[i].0 == k;
      }
    }
    forall i | 0 <= i < n + 1 && LastWithKeyBefore(entries, n + 1, i)
      ensures entries[i].0 in m' && m'[entries[i].0] == entries[i].1
    {
      if i < n {
        LastBeforeShrinks(entries, n, i);
      }
    }
  }

  /** A pair that is last with its key among the first `n + 1` pairs is last
      among the first `n`, and its key differs from that of pair `n`. */
  lemma LastBeforeShrinks(entries: StorageEntries, n: int, i: int)
    requires 0 <= i < n < |entries|
    requires LastWithKeyBefore(entries, n + 1, i)
    ensures LastWithKeyBefore(entries, n, i)
    ensures entries[n].0 != entries[i].0
  {
  }

  /** With distinct keys, the next pair's key is not yet in the object. */
  lemma NewKeyWhenDistinct(entries: StorageEntries, n: int, m: map<JsString, JsString>)
    requires 0 <= n < |entries|
    requires ReadsFirst(entries, n, m) && DistinctKeys(entries)
    ensures entries[n].0 !in m
  {
    assert forall j :: 0 <= j < n ==> entries[j].0 != entries[n].0;
  }

  /** With distinct keys every pair is the last with its key, so every pair
      is in the map. */
  lemma DistinctReadsAll(entries: StorageEntries, m: map<JsString, JsString>)
    requires ReadsExactly(entries, m) && DistinctKeys(entries)
    ensures forall i :: 0 <= i < |entries| ==> m[entries[i].0] == entries[i].1
  {
    forall i | 0 <= i < |entries| ensures m[entries[i].0] == entries[i].1 {
      assert LastWithKey(entries, i);
    }
  }

  /** Some pair at or after index `i` with the same key is the last one with it. */
  lemma {:induction false} LastWithKeyExists(entries: StorageEntries, i: int) returns (j: int)
    requires 0 <= i < |entries|
    ensures i <= j < |entries| && entries[j].0 == entries[i].0 && LastWithKey(entries, j)
    decreases |entries| - i
  {
    var later := FirstLaterWithKey(entries, i, i + 1);
    if later == |entries| {
      j := i;
    } else {
      j := LastWithKeyExists(entries, later);
    }
  }

  /** The first index from `from` on whose key is that of pair `i`, or
      `|entries|` when there is none. */
  function FirstLaterWithKey(entries: StorageEntries, i: int, from: int): (r: int)
    requires 0 <= i < from <= |entries|
    ensures from <= r <= |entries|
    ensures r < |entries| ==> entries[r].0 == entries[i].0
    ensures forall l :: from <= l < r ==> entries[l].0 != entries[i].0
    decreases |entries| - from
  {
    if from == |entries| || entries[from].0 == entries[i].0 then from
    else FirstLaterWithKey(entries, i, from + 1)
  }

  /** `ReadsExactly` determines the map: the reader's result is unique. */
  lemma ReadsExactlyUnique(entries: StorageEntries, m1: map<JsString, JsString>, m2: map<JsString, JsString>)
    requires ReadsExactly(entries, m1) && ReadsExactly(entries, m2)
    ensures m1 == m2
  {
    forall k | k in m1 ensures k in m2 && m1[k] == m2[k] {
      var i :| 0 <= i < |entries| && entries[i].0 == k;
      var j := LastWithKeyExists(entries, i);
    }
  }

  /** An area with nothing in it is read as an empty map, and only then. */
  lemma EmptyStorageReadsEmpty(entries: StorageEntries, m: map<JsString, JsString>)
    requires ReadsExactly(entries, m)
    ensures m == map[] <==> entries == []
  {
    if entries != [] {
      assert entries[0].0 in m;
    }
  }

  // ---------------------------------------------------------------------
  // Cookies
  // ---------------------------------------------------------------------

  /** `document.cookie.split(';')`: at least one segment (an empty header is
      one empty segment), none containing `;`. */
  function CookieSegments(cookie: JsString): (segs: seq<JsString>)
    ensures |segs| >= 1
    ensures forall i :: 0 <= i < |segs| ==> Semicolon !in segs[i]
  {
    Split(cookie, Semicolon)
  }

  /** The key of one segment: its text before the first `=`, trimmed. */
  function SegmentKey(seg: JsString): (key: JsString)
    ensures IsUnpadded(key)
    ensures EqualsSign !in key
  {
    var parts := Split(seg, EqualsSign);
    TrimSubset(parts[0]);
    Trim(parts[0])
  }

  /** The value of one segment: the second piece of `seg.split('=')`,
      trimmed, or the empty string if the segment has no `=` (the `value || ''`
      of the source). Pieces after the second are not looked at. */
  function SegmentValue(seg: JsString): (value: JsString)
    ensures IsUnpadded(value)
    ensures EqualsSign !in value
  {
    var parts := Split(seg, EqualsSign);
    if |parts| >= 2 then
      TrimSubset(parts[1]);
      Trim(parts[1])
    else []
  }

  /** A segment without `=` is a bare key whose value is the empty string. */
  lemma SegmentWithoutEquals(a: JsString)
    requires EqualsSign !in a
    ensures SegmentKey(a) == Trim(a)
    ensures SegmentValue(a) == []
  {
    SplitWithoutSeparator(a, EqualsSign);
  }

  /** In `a=b` the key is `a` and the value is `b`, each trimmed. */
  lemma SegmentWithOneEquals(a: JsString, b: JsString)
    requires EqualsSign !in a && EqualsSign !in b
    ensures SegmentKey(a + [EqualsSign] + b) == Trim(a)
    ensures SegmentValue(a + [EqualsSign] + b) == Trim(b)
  {
    SplitAtFirstSeparator(a, EqualsSign, b);
    SplitWithoutSeparator(b, EqualsSign);
  }

  /** In `a=b=t` the value is `b`, trimmed: whatever follows a second `=` is
      dropped, so a value that itself contains `=` is cut short. */
  lemma SegmentDropsAfterSecondEquals(a: JsString, b: JsString, t: JsString)
    requires EqualsSign !in a && EqualsSign !in b
    ensures SegmentKey(a + [EqualsSign] + b + [EqualsSign] + t) == Trim(a)
    ensures SegmentValue(a + [EqualsSign] + b + [EqualsSign] + t) == Trim(b)
  {
    var s := a + [EqualsSign] + b + [EqualsSign] + t;
    assert s == a + [EqualsSign] + (b + [EqualsSign] + t);
    SplitAtFirstSeparator(a, EqualsSign, b + [EqualsSign] + t);
    SplitAtFirstSeparator(b, EqualsSign, t);
  }

  /** The `(key, value)` pairs the cookie loop stores, in segment order:
      one per segment whose key is not empty. */
  function SegmentPairs(segs: seq<JsString>): (pairs: StorageEntries)
    ensures |pairs| <= |segs|
    ensures forall j :: 0 <= j < |pairs| ==>
              pairs[j].0 != [] && IsUnpadded(pairs[j].0) && EqualsSign !in pairs[j].0 && IsUnpadded(pairs[j].1)
    decreases |segs|
  {
    if segs == [] then []
    else
      var init := SegmentPairs(segs[..|segs| - 1]);
      var seg := segs[|segs| - 1];
      var key := SegmentKey(seg);
      if key != [] then init + [(key, SegmentValue(seg))] else init
  }

  /** `jar` is the parse of the cookie header `cookie`: what copying the
      pairs of its segments with a non-empty key into an empty object gives. */
  ghost predicate ParsesExactly(cookie: JsString, jar: map<JsString, JsString>) {
    ReadsExactly(SegmentPairs(CookieSegments(cookie)), jar)
  }

  /** The `document.cookie.split(';').forEach(...)` loop. Every key it stores
      is non-empty and carries no surrounding whitespace, as does every
      value, and an empty cookie header gives an empty map. */
  method ParseCookies(cookie: JsString) returns (jar: map<JsString, JsString>)
    ensures ParsesExactly(cookie, jar)
    ensures forall k :: k in jar ==> k != [] && IsUnpadded(k) && EqualsSign !in k && IsUnpadded(jar[k])
    ensures cookie == [] ==> jar == map[]
  {
    var segs := CookieSegments(cookie);
    jar := map[];
    var i := 0;
    while i < |segs|
      invariant 0 <= i <= |segs|
      invariant ReadsExactly(SegmentPairs(segs[..i]), jar)
    {
      var key := SegmentKey(segs[i]);
      var value := SegmentValue(segs[i]);
      PrefixSnoc(segs, i);
      SegmentPairsSnoc(segs[..i], segs[i]);
      if key != [] {
        CopyOneMore(SegmentPairs(segs[..i]), jar, key, value);
        jar := jar[key := value];
      }
      i := i + 1;
    }
    assert segs[..i] == segs;
    ParsedJarClean(cookie, jar);
  }

  /** Every key of a parsed cookie map is non-empty, unpadded and free of `=`,
      every value is unpadded, and an empty header parses to an empty map. */
  lemma ParsedJarClean(cookie: JsString, jar: map<JsString, JsString>)
    requires ParsesExactly(cookie, jar)
    ensures forall k :: k in jar ==> k != [] && IsUnpadded(k) && EqualsSign !in k && IsUnpadded(jar[k])
    ensures cookie == [] ==> jar == map[]
  {
    var segs := CookieSegments(cookie);
    var pairs := SegmentPairs(segs);
    forall k | k in jar ensures k != [] && IsUnpadded(k) && EqualsSign !in k && IsUnpadded(jar[k]) {
      var j :| 0 <= j < |pairs| && pairs[j].0 == k;
      var last := LastWithKeyExists(pairs, j);
    }
    if cookie == [] {
      assert segs == [[]];
      assert SegmentKey([]) == [];
      assert pairs == [];
    }
  }

  lemma PrefixSnoc<T>(s: seq<T>, i: nat)
    requires i < |s|
    ensures s[..i + 1] == s[..i] + [s[i]]
  {
  }

  /** Appending a pair to the enumeration and binding it in the map keeps
      `ReadsExactly`. */
  lemma CopyOneMore(entries: StorageEntries, m: map<JsString, JsString>, key: JsString, value: JsString)
    requires ReadsExactly(entries, m)
    ensures ReadsExactly(entries + [(key, value)], m[key := value])
  {
    var e := entries + [(key, value)];
    assert ReadsFirst(e, |entries|, m) by {
      forall i | 0 <= i < |entries| ensures e[i] == entries[i] { }
      forall i | 0 <= i < |entries| && LastWithKeyBefore(e, |entries|, i)
        ensures entries[i].0 in m && m[entries[i].0] == entries[i].1
      {
        assert LastWithKeyBefore(entries, |entries|, i);
      }
    }
    ReadsStep(e, |entries|, m);
  }

  /** One more segment adds its pair, unless its key is empty. */
  lemma SegmentPairsSnoc(segs: seq<JsString>, seg: JsString)
    ensures SegmentPairs(segs + [seg]) ==
            if SegmentKey(seg) != [] then SegmentPairs(segs) + [(SegmentKey(seg), SegmentValue(seg))]
            else SegmentPairs(segs)
  {
    assert (segs + [seg])[..|segs|] == segs;
  }

  /** Every stored pair comes from some segment. */
  lemma {:induction false} SegmentOfPair(segs: seq<JsString>, p: int) returns (i: int)
    requires 0 <= p < |SegmentPairs(segs)|
    ensures 0 <= i < |segs|
    ensures SegmentPairs(segs)[p] == (SegmentKey(segs[i]), SegmentValue(segs[i]))
    decreases |segs|
  {
    var init := segs[..|segs| - 1];
    var seg := segs[|segs| - 1];
    assert segs == init + [seg];
    SegmentPairsSnoc(init, seg);
    if p < |SegmentPairs(init)| {
      i := SegmentOfPair(init, p);
      assert init[i] == segs[i];
    } else {
      i := |segs| - 1;
    }
  }

  /** Every segment with a non-empty key stores a pair. */
  lemma {:induction false} PairOfSegment(segs: seq<JsString>, i: int) returns (p: int)
    requires 0 <= i < |segs| && SegmentKey(segs[i]) != []
    ensures 0 <= p < |SegmentPairs(segs)|
    ensures SegmentPairs(segs)[p] == (SegmentKey(segs[i]), SegmentValue(segs[i]))
    decreases |segs|
  {
    var init := segs[..|segs| - 1];
    var seg := segs[|segs| - 1];
    assert segs == init + [seg];
    SegmentPairsSnoc(init, seg);
    if i < |init| {
      assert init[i] == segs[i];
      p := PairOfSegment(init, i);
    } else {
      p := |SegmentPairs(segs)| - 1;
    }
  }

  /** A key is in the parsed cookie map exactly when it is the non-empty
      trimmed key of some segment of the header. */
  lemma CookieKeys(cookie: JsString, jar: map<JsString, JsString>, k: JsString)
    requires ParsesExactly(cookie, jar)
    ensures k in jar <==>
            k != [] && exists i :: 0 <= i < |CookieSegments(cookie)| && SegmentKey(CookieSegments(cookie)[i]) == k
  {
    var segs := CookieSegments(cookie);
    var pairs := SegmentPairs(segs);
    if k in jar {
      var p :| 0 <= p < |pairs| && pairs[p].0 == k;
      var i := SegmentOfPair(segs, p);
    }
    if k != [] && exists i :: 0 <= i < |segs| && SegmentKey(segs[i]) == k {
      var i :| 0 <= i < |segs| && SegmentKey(segs[i]) == k;
      var p := PairOfSegment(segs, i);
    }
  }

  /** No segment after index `i` has the key of segment `i`. */
  ghost predicate LastSegmentWithKey(segs: seq<JsString>, i: int)
    requires 0 <= i < |segs|
  {
    forall j :: i < j < |segs| ==> SegmentKey(segs[j]) != SegmentKey(segs[i])
  }

  /** The pair of the last segment with a given non-empty key is the last
      pair with that key. */
  lemma {:induction false} LastSegmentPair(segs: seq<JsString>, i: int) returns (p: int)
    requires 0 <= i < |segs| && SegmentKey(segs[i]) != []
    requires LastSegmentWithKey(segs, i)
    ensures 0 <= p < |SegmentPairs(segs)|
    ensures SegmentPairs(segs)[p] == (SegmentKey(segs[i]), SegmentValue(segs[i]))
    ensures LastWithKey(SegmentPairs(segs), p)
    decreases |segs|
  {
    var init := segs[..|segs| - 1];
    var seg := segs[|segs| - 1];
    assert segs == init + [seg];
    SegmentPairsSnoc(init, seg);
    if i == |segs| - 1 {
      p := |SegmentPairs(segs)| - 1;
    } else {
      LastSegmentInInit(segs, i);
      p := LastSegmentPair(init, i);
      LastPairSurvivesSnoc(init, seg, p);
    }
  }

  /** A segment that is last with its key stays so without the final segment,
      whose key differs from it. */
  lemma LastSegmentInInit(segs: seq<JsString>, i: int)
    requires 0 <= i < |segs| - 1
    requires LastSegmentWithKey(segs, i)
    ensures segs[..|segs| - 1][i] == segs[i]
    ensures LastSegmentWithKey(segs[..|segs| - 1], i)
    ensures SegmentKey(segs[|segs| - 1]) != SegmentKey(segs[i])
  {
    var init := segs[..|segs| - 1];
    forall j | i < j < |init| ensures SegmentKey(init[j]) != SegmentKey(init[i]) {
      assert init[j] == segs[j];
    }
  }

  /** A pair that is last with its key stays so when a segment with another
      key is appended. */
  lemma LastPairSurvivesSnoc(init: seq<JsString>, seg: JsString, p: int)
    requires 0 <= p < |SegmentPairs(init)| && LastWithKey(SegmentPairs(init), p)
    requires SegmentKey(seg) != SegmentPairs(init)[p].0
    ensures p < |SegmentPairs(init + [seg])|
    ensures SegmentPairs(init + [seg])[p] == SegmentPairs(init)[p]
    ensures LastWithKey(SegmentPairs(init + [seg]), p)
  {
    SegmentPairsSnoc(init, seg);
    var head := SegmentPairs(init);
    var extra: StorageEntries := if SegmentKey(seg) != [] then [(SegmentKey(seg), SegmentValue(seg))] else [];
    assert SegmentPairs(init + [seg]) == head + extra;
    LastWithKeyAppend(head, extra, p);
  }

  /** Appending pairs with other keys keeps a pair the last with its key. */
  lemma LastWithKeyAppend(head: StorageEntries, extra: StorageEntries, p: int)
    requires 0 <= p < |head| && LastWithKey(head, p)
    requires forall j :: 0 <= j < |extra| ==> extra[j].0 != head[p].0
    ensures LastWithKey(head + extra, p)
  {
    var all := head + extra;
    forall j | p < j < |all| ensures all[j].0 != all[p].0 {
      if j < |head| {
        assert all[j] == head[j];
      } else {
        assert all[j] == extra[j - |head|];
      }
    }
  }

  /** When a key occurs in several segments of the header, the parsed map
      holds the value of the last of them. */
  lemma LastSegmentWins(cookie: JsString, jar: map<JsString, JsString>, i: int)
    requires ParsesExactly(cookie, jar)
    requires 0 <= i < |CookieSegments(cookie)|
    requires SegmentKey(CookieSegments(cookie)[i]) != []
    requires LastSegmentWithKey(CookieSegments(cookie), i)
    ensures SegmentKey(CookieSegments(cookie)[i]) in jar
    ensures jar[SegmentKey(CookieSegments(cookie)[i])] == SegmentValue(CookieSegments(cookie)[i])
  {
    var p := LastSegmentPair(CookieSegments(cookie), i);
  }

  // ---------------------------------------------------------------------
  // getStorageData
  // ---------------------------------------------------------------------

  /** `getStorageData`: local storage, session storage and the cookie header
      read into one snapshot. */
  method GetStorageData(localStorage: StorageEntries, sessionStorage: StorageEntries, documentCookie: JsString)
    returns (data: Snapshot)
    ensures ReadsExactly(localStorage, data.local)
    ensures ReadsExactly(sessionStorage, data.session)
    ensures ParsesExactly(documentCookie, data.cookies)
    ensures forall k :: k in data.cookies ==> k != [] && IsUnpadded(k)
  {
    var local := ReadStorage(localStorage);
    var session := ReadStorage(sessionStorage);
    var cookies := ParseCookies(documentCookie);
    data := Snapshot(local, session, cookies);
  }
}
