/**
 * The preference-vector aggregator `generateUserProfileVector`: the caller's
 * interaction records are sorted newest first (in place), the ten newest are
 * kept, each one's event vector is scaled by a weight that depends on its
 * action and on its position, and the scaled vectors are averaged component by
 * component, dividing by the number of records kept (not by the sum of weights).
 */
module PreferenceVector {

  /** The action string of a record; any string other than the three the aggregator knows is kept verbatim. */
  datatype ActionTag = Like | Dislike | Kokoikku | Unrecognised(name: string)

  /** Only a string other than the three known names is kept as unrecognised. */
  predicate Canonical(a: ActionTag) {
    a.Unrecognised? ==> a.name != "like" && a.name != "dislike" && a.name != "kokoikku"
  }

  /** An action as a stored string classifies it: each string has exactly one action. */
  type Action = a: ActionTag | Canonical(a) witness Like

  /** An interaction record; `timestamp` is the `seconds` field of its Firestore timestamp. */
  datatype InteractionRecord = InteractionRecord(
    userId: string,
    eventId: string,
    action: Action,
    eventVector: seq<real>,
    timestamp: int)

  /** Only this many of the newest records are used. */
  const HistoryLimit: nat := 10

  /** The length of the zero vector returned for an empty history. */
  const EmptyProfileDimension: nat := 768

  function ActionName(a: Action): string {
    match a
    case Like => "like"
    case Dislike => "dislike"
    case Kokoikku => "kokoikku"
    case Unrecognised(name) => name
  }

  /** The `switch (history.action)` of the aggregator, as a classification of the stored string. */
  function ParseAction(s: string): (a: Action)
    ensures a.Unrecognised? <==> s != "like" && s != "dislike" && s != "kokoikku"
    ensures ActionName(a) == s
  {
    if s == "like" then Like
    else if s == "dislike" then Dislike
    else if s == "kokoikku" then Kokoikku
    else Unrecognised(s)
  }

  /** The classification loses nothing: every action is the classification of its own name. */
  lemma ActionNameRoundTrip(a: Action)
    ensures ParseAction(ActionName(a)) == a
  {
    match a
    case Like =>
    case Dislike =>
    case Kokoikku =>
    case Unrecognised(name) =>
      assert ActionName(a) == name;
  }

  /** The weight of a record at 0-based position `index` of the newest-first list. */
  function Weight(a: Action, index: nat): (w: real)
    ensures w >= 0.0
    ensures w == 0.0 <==> a.Unrecognised?
  {
    match a
    case Like => 1.0 / (index + 1) as real * 1.2
    case Dislike => 1.0 / (index + 1) as real * 0.8
    case Kokoikku => 1.0 / (index + 1) as real * 1.5
    case Unrecognised(_) => 0.0
  }

  // ---------------------------------------------------------------------------
  // Sorting newest first

  predicate NewestFirst(s: seq<InteractionRecord>) {
    forall i, j :: 0 <= i < j < |s| ==> s[i].timestamp >= s[j].timestamp
  }

  /**
   * Places r after every record of `sorted` that is at least as new as r:
   * one step of a stable sort with comparator `b.seconds - a.seconds`.
   */
  function Insert(sorted: seq<InteractionRecord>, r: InteractionRecord): (s: seq<InteractionRecord>)
    ensures |s| == |sorted| + 1
  {
    if sorted == [] then [r]
    else if sorted[|sorted| - 1].timestamp >= r.timestamp then sorted + [r]
    else Insert(sorted[..|sorted| - 1], r) + [sorted[|sorted| - 1]]
  }

  /**
   * The order `histories.sort((a, b) => b.timestamp.seconds - a.timestamp.seconds)`
   * leaves: newest first, records with the same seconds in their original order.
   * Array.prototype.sort is stable, so every conforming engine produces this order.
   */
  function SortNewestFirst(s: seq<InteractionRecord>): (r: seq<InteractionRecord>)
    ensures |r| == |s|
  {
    if s == [] then [] else Insert(SortNewestFirst(s[..|s| - 1]), s[|s| - 1])
  }

  lemma {:induction false} InsertPermutes(sorted: seq<InteractionRecord>, r: InteractionRecord)
    ensures multiset(Insert(sorted, r)) == multiset(sorted) + multiset{r}
  {
    if sorted != [] && sorted[|sorted| - 1].timestamp < r.timestamp {
      var init := sorted[..|sorted| - 1];
      InsertPermutes(init, r);
      assert sorted == init + [sorted[|sorted| - 1]];
    }
  }

  lemma {:induction false} InsertKeepsOrder(sorted: seq<InteractionRecord>, r: InteractionRecord)
    requires NewestFirst(sorted)
    ensures NewestFirst(Insert(sorted, r))
  {
    if sorted != [] && sorted[|sorted| - 1].timestamp < r.timestamp {
      var init := sorted[..|sorted| - 1];
      var last := sorted[|sorted| - 1];
      InsertKeepsOrder(init, r);
      InsertPermutes(init, r);
      var ins := Insert(init, r);
      forall i | 0 <= i < |ins|
        ensures ins[i].timestamp >= last.timestamp
      {
        assert ins[i] in multiset(ins);
        assert ins[i] == r || ins[i] in init;
      }
    }
  }

  /** The sorted list holds exactly the input records. */
  lemma {:induction false} SortPermutes(s: seq<InteractionRecord>)
    ensures multiset(SortNewestFirst(s)) == multiset(s)
  {
    if s != [] {
      var init := s[..|s| - 1];
      SortPermutes(init);
      InsertPermutes(SortNewestFirst(init), s[|s| - 1]);
      assert s == init + [s[|s| - 1]];
    }
  }

  /** The sorted list is ordered newest first. */
  lemma {:induction false} SortOrders(s: seq<InteractionRecord>)
    ensures NewestFirst(SortNewestFirst(s))
  {
    if s != [] {
      SortOrders(s[..|s| - 1]);
      InsertKeepsOrder(SortNewestFirst(s[..|s| - 1]), s[|s| - 1]);
    }
  }

  /** A list that is already newest first (ties included) is left as it is: the sort is stable. */
  lemma {:induction false} SortKeepsNewestFirst(s: seq<InteractionRecord>)
    requires NewestFirst(s)
    ensures SortNewestFirst(s) == s
  {
    if s != [] {
      var init := s[..|s| - 1];
      SortKeepsNewestFirst(init);
      if init != [] {
        assert init[|init| - 1] == s[|s| - 2];
      }
      assert init + [s[|s| - 1]] == s;
    }
  }

  /** Sorting twice gives what sorting once gives. */
  lemma SortIdempotent(s: seq<InteractionRecord>)
    ensures SortNewestFirst(SortNewestFirst(s)) == SortNewestFirst(s)
  {
    SortOrders(s);
    SortKeepsNewestFirst(SortNewestFirst(s));
  }

  /** The records of s whose seconds are t, in their order in s. */
  function Ties(s: seq<InteractionRecord>, t: int): seq<InteractionRecord> {
    if s == [] then []
    else Ties(s[..|s| - 1], t) + (if s[|s| - 1].timestamp == t then [s[|s| - 1]] else [])
  }

  lemma {:induction false} TiesAppend(a: seq<InteractionRecord>, b: seq<InteractionRecord>, t: int)
    ensures Ties(a + b, t) == Ties(a, t) + Ties(b, t)
  {
    if b == [] {
      assert a + b == a;
    } else {
      var init := b[..|b| - 1];
      TiesAppend(a, init, t);
      assert (a + b)[..|a + b| - 1] == a + init;
    }
  }

  /** Inserting r keeps the ties of every other timestamp, and puts r after the records it ties with. */
  lemma {:induction false} TiesInsert(sorted: seq<InteractionRecord>, r: InteractionRecord, t: int)
    ensures Ties(Insert(sorted, r), t) == Ties(sorted, t) + Ties([r], t)
  {
    if sorted == [] {
      assert Insert(sorted, r) == [r];
    } else if sorted[|sorted| - 1].timestamp >= r.timestamp {
      TiesAppend(sorted, [r], t);
    } else {
      var init, last := sorted[..|sorted| - 1], sorted[|sorted| - 1];
      TiesInsert(init, r, t);
      TiesPassOlder(init, last, r, t);
    }
  }

  /** Moving r in front of an older record does not disturb the ties of any timestamp. */
  lemma TiesPassOlder(init: seq<InteractionRecord>, last: InteractionRecord, r: InteractionRecord, t: int)
    requires last.timestamp < r.timestamp
    requires Ties(Insert(init, r), t) == Ties(init, t) + Ties([r], t)
    ensures Ties(Insert(init, r) + [last], t) == Ties(init + [last], t) + Ties([r], t)
  {
    var tl, tr := Ties([last], t), Ties([r], t);
    assert tl == (if last.timestamp == t then [last] else []) by {
      assert [last][..0] == [];
    }
    assert tr == (if r.timestamp == t then [r] else []) by {
      assert [r][..0] == [];
    }
    TiesAppend(Insert(init, r), [last], t);
    TiesAppend(init, [last], t);
    assert tl == [] || tr == [];
    assert Ties(init, t) + tr + tl == Ties(init, t) + tl + tr;
  }

  /**
   * The sort is stable: for every number of seconds, the records carrying it
   * come out in the order they went in.
   */
  lemma {:induction false} SortStable(s: seq<InteractionRecord>, t: int)
    ensures Ties(SortNewestFirst(s), t) == Ties(s, t)
  {
    if s != [] {
      var init, last := s[..|s| - 1], s[|s| - 1];
      SortStable(init, t);
      TiesInsert(SortNewestFirst(init), last, t);
      TiesAppend(init, [last], t);
      assert init + [last] == s;
    }
  }

  /**
   * `histories.sort(...)`: the caller's array is reordered in place, by
   * insertion of each record into the newest-first prefix before it.
   */
  method SortNewestFirstInPlace(a: array<InteractionRecord>)
    modifies a
    ensures a[..] == SortNewestFirst(old(a[..]))
  {
    ghost var orig := a[..];
    var i := 0;
    while i < a.Length
      invariant 0 <= i <= a.Length
      invariant a[..i] == SortNewestFirst(orig[..i])
      invariant a[i..] == orig[i..]
    {
      InsertInPlace(a, i);
      assert orig[..i + 1][..i] == orig[..i];
      i := i + 1;
    }
    assert orig[..a.Length] == orig;
  }

  /** Moves a[i] left past the newer-than-it records of a[..i]; the rest of the array is unchanged. */
  method InsertInPlace(a: array<InteractionRecord>, i: nat)
    requires i < a.Length
    modifies a
    ensures a[..i + 1] == Insert(old(a[..i]), old(a[i]))
    ensures a[i + 1..] == old(a[i + 1..])
  {
    var x := a[i];
    ghost var sorted := a[..i];
    ghost var rest := a[i + 1..];
    var j := i;
    assert sorted[..j] == sorted && sorted[j..] == [];
    assert a[..] == sorted[..j] + [x] + sorted[j..] + rest;
    while j > 0 && a[j - 1].timestamp < x.timestamp
      invariant 0 <= j <= i
      invariant a[..] == sorted[..j] + [x] + sorted[j..] + rest
      invariant Insert(sorted, x) == Insert(sorted[..j], x) + sorted[j..]
    {
      InsertStep(sorted, j, x);
      ghost var before := a[..];
      var newer := a[j - 1];
      SwapLeft(sorted, rest, x, j);
      a[j - 1], a[j] := x, newer;
      assert a[..] == before[j - 1 := x][j := newer];
      j := j - 1;
    }
    InsertStop(sorted, j, x);
    SplitAfterInsert(sorted[..j] + [x] + sorted[j..], rest);
  }

  /** Swapping the record with the one before it moves it one place left. */
  lemma SwapLeft(sorted: seq<InteractionRecord>, rest: seq<InteractionRecord>, x: InteractionRecord, j: nat)
    requires 0 < j <= |sorted|
    ensures (sorted[..j] + [x] + sorted[j..] + rest)[j - 1 := x][j := sorted[j - 1]]
      == sorted[..j - 1] + [x] + sorted[j - 1..] + rest
  {
    var l := (sorted[..j] + [x] + sorted[j..] + rest)[j - 1 := x][j := sorted[j - 1]];
    var r := sorted[..j - 1] + [x] + sorted[j - 1..] + rest;
    assert |l| == |r|;
    forall k | 0 <= k < |l|
      ensures l[k] == r[k]
    {
    }
  }

  /** The inserted prefix and the untouched rest are read back from the array contents. */
  lemma SplitAfterInsert(prefix: seq<InteractionRecord>, rest: seq<InteractionRecord>)
    ensures (prefix + rest)[..|prefix|] == prefix && (prefix + rest)[|prefix|..] == rest
  {
  }

  /** Once the record before the insertion point is at least as new, the record goes right there. */
  lemma InsertStop(sorted: seq<InteractionRecord>, j: nat, x: InteractionRecord)
    requires j <= |sorted| && (j == 0 || sorted[j - 1].timestamp >= x.timestamp)
    ensures Insert(sorted[..j], x) == sorted[..j] + [x]
  {
  }

  /** Passing one newer record moves the insertion point one place to the left. */
  lemma InsertStep(sorted: seq<InteractionRecord>, j: nat, x: InteractionRecord)
    requires 0 < j <= |sorted| && sorted[j - 1].timestamp < x.timestamp
    ensures Insert(sorted[..j], x) + sorted[j..] == Insert(sorted[..j - 1], x) + sorted[j - 1..]
  {
    assert sorted[..j][..j - 1] == sorted[..j - 1];
    assert sorted[j - 1..] == [sorted[j - 1]] + sorted[j..];
  }

  // ---------------------------------------------------------------------------
  // Weighting and averaging

  /** All event vectors have the same length (the embedding dimension). */
  predicate SameDimension(hs: seq<InteractionRecord>) {
    forall x, y :: x in hs && y in hs ==> |x.eventVector| == |y.eventVector|
  }

  function Min(a: nat, b: nat): nat {
    if a <= b then a else b
  }

  /** `.slice(0, 10)` of the sorted list: the newest records, at most ten of them. */
  function Recent(hs: seq<InteractionRecord>): (r: seq<InteractionRecord>)
    ensures |r| == Min(HistoryLimit, |hs|)
    ensures NewestFirst(r)
    ensures forall x :: x in r ==> x in hs
  {
    SortOrders(hs);
    SortMembers(hs);
    SortNewestFirst(hs)[..Min(HistoryLimit, |hs|)]
  }

  /** The kept and the dropped records together are exactly the input. */
  lemma RecentSplit(hs: seq<InteractionRecord>)
    ensures multiset(Recent(hs)) + multiset(SortNewestFirst(hs)[Min(HistoryLimit, |hs|)..]) == multiset(hs)
  {
    var sorted := SortNewestFirst(hs);
    var m := Min(HistoryLimit, |hs|);
    assert Recent(hs) == sorted[..m];
    SplitMultiset(sorted, m);
    SortPermutes(hs);
  }

  lemma SplitMultiset(s: seq<InteractionRecord>, m: nat)
    requires m <= |s|
    ensures multiset(s[..m]) + multiset(s[m..]) == multiset(s)
  {
    assert s == s[..m] + s[m..];
  }

  /** The slice keeps the newest records: no dropped record is newer than a kept one. */
  lemma RecentKeepsNewest(hs: seq<InteractionRecord>)
    ensures var dropped := SortNewestFirst(hs)[Min(HistoryLimit, |hs|)..];
      forall i, j :: 0 <= i < |Recent(hs)| && 0 <= j < |dropped| ==> dropped[j].timestamp <= Recent(hs)[i].timestamp
  {
    var sorted := SortNewestFirst(hs);
    var m := Min(HistoryLimit, |hs|);
    var kept, dropped := Recent(hs), sorted[m..];
    assert kept == sorted[..m];
    SortOrders(hs);
    forall i, j | 0 <= i < |kept| && 0 <= j < |dropped|
      ensures dropped[j].timestamp <= kept[i].timestamp
    {
      assert dropped[j] == sorted[m + j] && kept[i] == sorted[i];
    }
  }

  lemma SortMembers(hs: seq<InteractionRecord>)
    ensures forall x :: x in SortNewestFirst(hs) ==> x in hs
  {
    SortPermutes(hs);
    forall x | x in SortNewestFirst(hs)
      ensures x in hs
    {
      assert x in multiset(SortNewestFirst(hs));
    }
  }

  /** `eventVector.map((v) => v * weight)`. */
  function Scale(v: seq<real>, w: real): (r: seq<real>)
    ensures |r| == |v|
  {
    seq(|v|, k requires 0 <= k < |v| => v[k] * w)
  }

  /** Component k of a scaled vector is component k times the weight; a zero weight gives zeros. */
  lemma ScaleComponents(v: seq<real>, w: real)
    ensures forall k :: 0 <= k < |v| ==> Scale(v, w)[k] == v[k] * w
    ensures w == 0.0 ==> forall k :: 0 <= k < |v| ==> Scale(v, w)[k] == 0.0
  {
  }

  /** `recentHistories.map((history, index) => ...)`: each vector scaled by its record's weight. */
  function WeightedVectors(rs: seq<InteractionRecord>): (ws: seq<seq<real>>)
    ensures |ws| == |rs|
    ensures forall i :: 0 <= i < |rs| ==> |ws[i]| == |rs[i].eventVector|
  {
    seq(|rs|, i requires 0 <= i < |rs| => Scale(rs[i].eventVector, Weight(rs[i].action, i)))
  }

  /** `weightedVectors.reduce((sum, vec) => sum + vec[k], 0)`. */
  function ColumnSum(ws: seq<seq<real>>, k: nat): real
    requires forall i :: 0 <= i < |ws| ==> k < |ws[i]|
  {
    if ws == [] then 0.0 else ColumnSum(ws[..|ws| - 1], k) + ws[|ws| - 1][k]
  }

  /** A column of zeros sums to zero, however many vectors there are. */
  lemma {:induction false} ColumnSumOfZeros(ws: seq<seq<real>>, k: nat)
    requires forall i :: 0 <= i < |ws| ==> k < |ws[i]| && ws[i][k] == 0.0
    ensures ColumnSum(ws, k) == 0.0
  {
    if ws != [] {
      ColumnSumOfZeros(ws[..|ws| - 1], k);
    }
  }

  /** The component-wise mean over the vectors, or 768 zeros when there are none. */
  function Average(ws: seq<seq<real>>): (r: seq<real>)
    requires forall i :: 0 <= i < |ws| ==> |ws[i]| == |ws[0]|
    ensures |r| == if |ws| == 0 then EmptyProfileDimension else |ws[0]|
  {
    if |ws| == 0 then seq(EmptyProfileDimension, _ => 0.0)
    else seq(|ws[0]|, k requires 0 <= k < |ws[0]| => ColumnSum(ws, k) / |ws| as real)
  }

  /** The value `generateUserProfileVector` returns for the records `hs`. */
  function ProfileVector(hs: seq<InteractionRecord>): (r: seq<real>)
    requires SameDimension(hs)
    ensures |hs| == 0 ==> r == seq(EmptyProfileDimension, _ => 0.0)
    ensures |hs| > 0 ==> |r| == |hs[0].eventVector|
  {
    var rs := Recent(hs);
    assert |hs| > 0 ==> rs[0] in hs && hs[0] in hs;
    assert forall i :: 0 <= i < |rs| ==> rs[i] in hs;
    Average(WeightedVectors(rs))
  }

  /** The reference sum: record i of the newest-first list contributes Weight(action, i) times its k-th component. */
  function WeightedSum(rs: seq<InteractionRecord>, k: nat): real
    requires forall i :: 0 <= i < |rs| ==> k < |rs[i].eventVector|
  {
    if rs == [] then 0.0
    else WeightedSum(rs[..|rs| - 1], k) + Contribution(rs[|rs| - 1], |rs| - 1, k)
  }

  /** What the record at position i adds to component k: its component times its weight. */
  function Contribution(r: InteractionRecord, i: nat, k: nat): real
    requires k < |r.eventVector|
  {
    r.eventVector[k] * Weight(r.action, i)
  }

  lemma {:induction false} ColumnSumIsWeightedSum(rs: seq<InteractionRecord>, k: nat)
    requires forall i :: 0 <= i < |rs| ==> k < |rs[i].eventVector|
    ensures ColumnSum(WeightedVectors(rs), k) == WeightedSum(rs, k)
  {
    if rs != [] {
      var init := rs[..|rs| - 1];
      var last := rs[|rs| - 1];
      WeightedVectorsPrefix(rs);
      WeightedVectorsAt(rs, |rs| - 1, k);
      ColumnSumIsWeightedSum(init, k);
    }
  }

  /** Component k of the i-th scaled vector is the record's component times its weight. */
  lemma WeightedVectorsAt(rs: seq<InteractionRecord>, i: nat, k: nat)
    requires i < |rs| && k < |rs[i].eventVector|
    ensures WeightedVectors(rs)[i][k] == Contribution(rs[i], i, k)
  {
  }

  /** Dropping the oldest record drops its scaled vector and changes no other. */
  lemma WeightedVectorsPrefix(rs: seq<InteractionRecord>)
    requires rs != []
    ensures WeightedVectors(rs)[..|rs| - 1] == WeightedVectors(rs[..|rs| - 1])
  {
  }

  /**
   * Component k of the profile is the weighted sum over the kept records
   * divided by how many records were kept: min(10, n), not the sum of weights.
   */
  lemma ProfileComponent(hs: seq<InteractionRecord>, k: nat)
    requires SameDimension(hs) && |hs| > 0 && k < |hs[0].eventVector|
    ensures |Recent(hs)| == Min(HistoryLimit, |hs|)
    ensures forall i :: 0 <= i < |Recent(hs)| ==> k < |Recent(hs)[i].eventVector|
    ensures ProfileVector(hs)[k] == WeightedSum(Recent(hs), k) / Min(HistoryLimit, |hs|) as real
  {
    var rs := Recent(hs);
    assert forall i :: 0 <= i < |rs| ==> rs[i] in hs;
    ColumnSumIsWeightedSum(rs, k);
  }

  /** Records past the tenth newest cannot change the result. */
  lemma OnlyTenNewestMatter(hs: seq<InteractionRecord>)
    requires SameDimension(hs)
    ensures SameDimension(Recent(hs))
    ensures ProfileVector(Recent(hs)) == ProfileVector(hs)
  {
    var rs := Recent(hs);
    assert forall i :: 0 <= i < |rs| ==> rs[i] in hs;
    SortKeepsNewestFirst(rs);
    assert Recent(rs) == rs;
  }

  /**
   * A record no newer than ten others is never among the records kept, whatever
   * its vector: the slice is the same with it or without it.
   */
  lemma OlderRecordNeverKept(hs: seq<InteractionRecord>, x: InteractionRecord)
    requires |hs| >= HistoryLimit
    requires forall i :: 0 <= i < |hs| ==> x.timestamp <= hs[i].timestamp
    ensures Recent(hs + [x]) == Recent(hs)
  {
    var sorted := SortNewestFirst(hs);
    SortPermutes(hs);
    var last := sorted[|sorted| - 1];
    assert last in multiset(hs);
    assert (hs + [x])[..|hs|] == hs;
    assert SortNewestFirst(hs + [x]) == sorted + [x];
    assert (sorted + [x])[..HistoryLimit] == sorted[..HistoryLimit];
  }

  /** Adding a record no newer than ten others leaves the profile unchanged. */
  lemma OlderRecordIgnored(hs: seq<InteractionRecord>, x: InteractionRecord)
    requires |hs| >= HistoryLimit
    requires forall i :: 0 <= i < |hs| ==> x.timestamp <= hs[i].timestamp
    requires SameDimension(hs + [x])
    ensures SameDimension(hs)
    ensures ProfileVector(hs + [x]) == ProfileVector(hs)
  {
    var sorted := SortNewestFirst(hs);
    SortPermutes(hs);
    var last := sorted[|sorted| - 1];
    assert last in multiset(hs);
    assert (hs + [x])[..|hs|] == hs;
    assert SortNewestFirst(hs + [x]) == sorted + [x];
    assert (sorted + [x])[..HistoryLimit] == sorted[..HistoryLimit];
    assert forall y :: y in hs ==> y in hs + [x];
  }

  /**
   * A record whose action is not recognised adds zero to every sum but still
   * counts in the divisor: as the oldest of n kept records, the profile is the
   * other n - 1 records' sum divided by n instead of by n - 1.
   */
  lemma UnrecognisedDilutes(rs: seq<InteractionRecord>, k: nat)
    requires 2 <= |rs| <= HistoryLimit && NewestFirst(rs) && SameDimension(rs)
    requires rs[|rs| - 1].action.Unrecognised?
    requires k < |rs[0].eventVector|
    ensures SameDimension(rs[..|rs| - 1])
    ensures ProfileVector(rs)[k] == WeightedSum(rs[..|rs| - 1], k) / |rs| as real
    ensures ProfileVector(rs[..|rs| - 1])[k] == WeightedSum(rs[..|rs| - 1], k) / (|rs| - 1) as real
  {
    DropUnrecognised(rs, k);
    ProfileOfNewestFirst(rs, k);
    ProfileOfNewestFirst(rs[..|rs| - 1], k);
  }

  /** Dropping a trailing unrecognised record keeps the sum and the preconditions. */
  lemma DropUnrecognised(rs: seq<InteractionRecord>, k: nat)
    requires 2 <= |rs| && NewestFirst(rs) && SameDimension(rs)
    requires rs[|rs| - 1].action.Unrecognised?
    requires k < |rs[0].eventVector|
    ensures SameDimension(rs[..|rs| - 1]) && NewestFirst(rs[..|rs| - 1])
    ensures k < |rs[..|rs| - 1][0].eventVector|
    ensures WeightedSum(rs, k) == WeightedSum(rs[..|rs| - 1], k)
  {
    var init := rs[..|rs| - 1];
    assert forall x :: x in init ==> x in rs;
    assert rs[0] in rs && init[0] in rs && rs[|rs| - 1] in rs;
  }

  /** A newest-first list of at most ten records is used as it stands. */
  lemma ProfileOfNewestFirst(rs: seq<InteractionRecord>, k: nat)
    requires 1 <= |rs| <= HistoryLimit && NewestFirst(rs) && SameDimension(rs)
    requires k < |rs[0].eventVector|
    ensures forall i :: 0 <= i < |rs| ==> k < |rs[i].eventVector|
    ensures ProfileVector(rs)[k] == WeightedSum(rs, k) / |rs| as real
  {
    SortKeepsNewestFirst(rs);
    assert Recent(rs) == rs;
    assert forall i :: 0 <= i < |rs| ==> rs[i] in rs;
    ProfileComponent(rs, k);
  }

  /** At every position: unrecognised (0) < dislike < like < kokoikku. */
  lemma WeightOrder(index: nat, name: string)
    requires name != "like" && name != "dislike" && name != "kokoikku"
    ensures Weight(Unrecognised(name), index) == 0.0
    ensures 0.0 < Weight(Dislike, index) < Weight(Like, index) < Weight(Kokoikku, index)
  {
    var u := 1.0 / (index + 1) as real;
    assert u > 0.0;
  }

  /** A recognised action weighs strictly less the older its position. */
  lemma WeightFalls(a: Action, i: nat, j: nat)
    requires !a.Unrecognised? && i < j
    ensures Weight(a, j) < Weight(a, i)
  {
    var ui, uj := 1.0 / (i + 1) as real, 1.0 / (j + 1) as real;
    assert uj * (j + 1) as real == 1.0 == ui * (i + 1) as real;
    assert uj < ui;
  }

  /**
   * The spelling "kokoiku" (one k fewer) is not one the aggregator knows:
   * such a record weighs 0.
   */
  lemma MisspeltKokoikkuWeighsZero(index: nat)
    ensures ParseAction("kokoiku") == Unrecognised("kokoiku")
    ensures Weight(ParseAction("kokoiku"), index) == 0.0
  {
  }

  /**
   * `generateUserProfileVector(histories)`: sorts the caller's array in place
   * and returns the profile of its records.
   */
  method GenerateUserProfileVector(histories: array<InteractionRecord>) returns (v: seq<real>)
    requires SameDimension(histories[..])
    modifies histories
    ensures histories[..] == SortNewestFirst(old(histories[..]))
    ensures v == ProfileVector(old(histories[..]))
  {
    ghost var hs := histories[..];
    SortNewestFirstInPlace(histories);
    var recent := histories[..Min(HistoryLimit, histories.Length)];
    assert recent == Recent(hs);
    assert forall i :: 0 <= i < |recent| ==> recent[i] in hs;
    v := Average(WeightedVectors(recent));
  }
}
