/**
  The grouping step of `TrendService.get_trends`: the rows of the trend query
  are gathered per activity type, each row contributing one data point, and
  the groups are returned in ascending order of the type's id. The query
  itself (bucketing blocks by day, week or month in the server's time zone)
  is not part of this model: its rows are the input.
*/
module TrendService {
  import opened Wrappers

  /** The type columns of a row, as the grouping copies them into a `TypeDTO`. */
  datatype TypeInfo = TypeInfo(name: string, color: int, hidden: bool, priority: int)

  /** One row of the trend query: the type, a time bucket label and the number of quarter-hour blocks in it. */
  datatype TrendRow = TrendRow(typeUid: int, info: TypeInfo, timeLabel: string, duration: int)

  datatype TrendDataPoint = TrendDataPoint(timeLabel: string, duration: int)

  datatype TypeDto = TypeDto(uid: int, info: TypeInfo)

  /** `TrendDataDTO`: a type and its points. */
  datatype TrendData = TrendData(type_: TypeDto, items: seq<TrendDataPoint>)

  function PointOf(r: TrendRow): TrendDataPoint {
    TrendDataPoint(r.timeLabel, r.duration)
  }

  // ---------------------------------------------------------------------------
  // Reference definitions

  /** The points of the rows with type `uid`, in the order the rows come. */
  function PointsFor(rows: seq<TrendRow>, uid: int): seq<TrendDataPoint>
    decreases |rows|
  {
    if rows == [] then []
    else
      var last := rows[|rows| - 1];
      PointsFor(rows[..|rows| - 1], uid) + (if last.typeUid == uid then [PointOf(last)] else [])
  }

  /** The type as the first row with `uid` describes it. */
  function FirstType(rows: seq<TrendRow>, uid: int): Option<TypeDto>
    decreases |rows|
  {
    if rows == [] then None
    else
      var last := rows[|rows| - 1];
      var earlier := FirstType(rows[..|rows| - 1], uid);
      if earlier.Some? then earlier
      else if last.typeUid == uid then Some(TypeDto(uid, last.info))
      else None
  }

  /** The type ids that occur in the rows. */
  function Uids(rows: seq<TrendRow>): set<int>
    decreases |rows|
  {
    if rows == [] then {} else Uids(rows[..|rows| - 1]) + {rows[|rows| - 1].typeUid}
  }

  lemma {:induction false} UidsAreRowUids(rows: seq<TrendRow>, uid: int)
    ensures uid in Uids(rows) <==> exists i :: 0 <= i < |rows| && rows[i].typeUid == uid
    decreases |rows|
  {
    if rows != [] {
      var init := rows[..|rows| - 1];
      UidsAreRowUids(init, uid);
      if uid in Uids(init) {
        var i :| 0 <= i < |init| && init[i].typeUid == uid;
        assert rows[i].typeUid == uid;
      } else if exists i :: 0 <= i < |rows| && rows[i].typeUid == uid {
        var i :| 0 <= i < |rows| && rows[i].typeUid == uid;
        if i < |init| {
          assert init[i].typeUid == uid;
        }
      }
    }
  }

  /** A type that occurs has points and a first row; one that does not has neither. */
  lemma {:induction false} OccurringTypes(rows: seq<TrendRow>, uid: int)
    ensures uid in Uids(rows) <==> |PointsFor(rows, uid)| >= 1
    ensures uid in Uids(rows) <==> FirstType(rows, uid).Some?
    ensures FirstType(rows, uid).Some? ==> FirstType(rows, uid).value.uid == uid
    decreases |rows|
  {
    if rows != [] {
      OccurringTypes(rows[..|rows| - 1], uid);
    }
  }

  /** The row that a type's entry takes its description from is the earliest with that id. */
  lemma {:induction false} FirstTypeIsEarliest(rows: seq<TrendRow>, uid: int)
    requires uid in Uids(rows)
    ensures exists i :: (0 <= i < |rows| && rows[i].typeUid == uid
      && FirstType(rows, uid) == Some(TypeDto(uid, rows[i].info))
      && forall j :: 0 <= j < i ==> rows[j].typeUid != uid)
    decreases |rows|
  {
    var init := rows[..|rows| - 1];
    OccurringTypes(init, uid);
    if uid in Uids(init) {
      FirstTypeIsEarliest(init, uid);
      var i :| 0 <= i < |init| && init[i].typeUid == uid
        && FirstType(init, uid) == Some(TypeDto(uid, init[i].info))
        && forall j :: 0 <= j < i ==> init[j].typeUid != uid;
      assert rows[i] == init[i];
      assert forall j :: 0 <= j < i ==> rows[j] == init[j];
    } else {
      var i := |rows| - 1;
      forall j | 0 <= j < i ensures rows[j].typeUid != uid {
        assert rows[j] == init[j];
        UidsAreRowUids(init, uid);
      }
    }
  }

  // ---------------------------------------------------------------------------
  // Every row is one point of exactly one entry

  function TotalPoints(rows: seq<TrendRow>, uids: seq<int>): nat
    decreases |uids|
  {
    if uids == [] then 0 else TotalPoints(rows, uids[..|uids| - 1]) + |PointsFor(rows, uids[|uids| - 1])|
  }

  predicate Distinct(uids: seq<int>) {
    forall i, j :: 0 <= i < j < |uids| ==> uids[i] != uids[j]
  }

  /** Adding a row adds one point to the total over any list of distinct ids that contains its type. */
  lemma {:induction false} TotalPointsStep(rows: seq<TrendRow>, r: TrendRow, uids: seq<int>)
    requires Distinct(uids)
    ensures TotalPoints(rows + [r], uids) == TotalPoints(rows, uids) + (if r.typeUid in uids then 1 else 0)
    decreases |uids|
  {
    assert (rows + [r])[..|rows|] == rows;
    if uids != [] {
      var init := uids[..|uids| - 1];
      assert Distinct(init);
      assert r.typeUid in uids <==> r.typeUid in init || r.typeUid == uids[|uids| - 1];
      assert uids[|uids| - 1] !in init;
      TotalPointsStep(rows, r, init);
    }
  }

  /** Over distinct ids that cover every type, the entries hold as many points as there are rows. */
  lemma {:induction false} TotalPointsIsRowCount(rows: seq<TrendRow>, uids: seq<int>)
    requires Distinct(uids) && forall u :: u in Uids(rows) ==> u in uids
    ensures TotalPoints(rows, uids) == |rows|
    decreases |rows|
  {
    if rows == [] {
      TotalPointsOfNoRows(uids);
    } else {
      var init, last := rows[..|rows| - 1], rows[|rows| - 1];
      assert init + [last] == rows;
      TotalPointsIsRowCount(init, uids);
      TotalPointsStep(init, last, uids);
    }
  }

  lemma {:induction false} TotalPointsOfNoRows(uids: seq<int>)
    ensures TotalPoints([], uids) == 0
    decreases |uids|
  {
    if uids != [] {
      TotalPointsOfNoRows(uids[..|uids| - 1]);
    }
  }

  /** The number of data points over all entries. */
  function ItemCount(entries: seq<TrendData>): nat
    decreases |entries|
  {
    if entries == [] then 0 else ItemCount(entries[..|entries| - 1]) + |entries[|entries| - 1].items|
  }

  lemma {:induction false} ItemCountIsTotal(rows: seq<TrendRow>, uids: seq<int>, entries: seq<TrendData>)
    requires |entries| == |uids|
    requires forall i :: 0 <= i < |uids| ==> entries[i].items == PointsFor(rows, uids[i])
    ensures ItemCount(entries) == TotalPoints(rows, uids)
    decreases |uids|
  {
    if uids != [] {
      ItemCountIsTotal(rows, uids[..|uids| - 1], entries[..|entries| - 1]);
    }
  }

  /** Entries for ascending ids that cover every type hold exactly the rows' points. */
  lemma GroupedCount(rows: seq<TrendRow>, uids: seq<int>, entries: seq<TrendData>)
    requires StrictlyAscending(uids) && forall u :: u in Uids(rows) ==> u in uids
    requires |entries| == |uids|
    requires forall i :: 0 <= i < |uids| ==> entries[i].items == PointsFor(rows, uids[i])
    ensures ItemCount(entries) == |rows|
  {
    ItemCountIsTotal(rows, uids, entries);
    TotalPointsIsRowCount(rows, uids);
  }

  // ---------------------------------------------------------------------------
  // The grouping

  predicate StrictlyAscending(s: seq<int>) {
    forall i, j :: 0 <= i < j < |s| ==> s[i] < s[j]
  }

  /** Puts `x` into its place in an ascending list that does not hold it yet. */
  function Insert(sorted: seq<int>, x: int): (r: seq<int>)
    requires StrictlyAscending(sorted) && x !in sorted
    ensures StrictlyAscending(r)
    ensures forall y :: y in r <==> y in sorted || y == x
    ensures |r| == |sorted| + 1
    decreases |sorted|
  {
    if sorted == [] || x < sorted[0] then [x] + sorted
    else
      var tail := sorted[1..];
      assert forall y :: y in tail ==> sorted[0] < y;
      assert sorted[0] < x;
      var rest := Insert(tail, x);
      assert forall k :: 0 <= k < |rest| ==> rest[k] in rest;
      assert forall k :: 0 <= k < |rest| ==> sorted[0] < rest[k];
      [sorted[0]] + rest
  }

  /** `sorted(...)` of distinct ids. */
  function Sort(xs: seq<int>): (r: seq<int>)
    requires Distinct(xs)
    ensures StrictlyAscending(r)
    ensures forall y :: y in r <==> y in xs
    ensures |r| == |xs|
    decreases |xs|
  {
    if xs == [] then []
    else
      var init := xs[..|xs| - 1];
      assert Distinct(init);
      assert xs[|xs| - 1] !in init;
      Insert(Sort(init), xs[|xs| - 1])
  }

  /** The loop's state: `trends_by_type`, `type_dict`, and the ids in the order they were first met. */
  datatype Collection = Collection(
    trendsByType: map<int, seq<TrendDataPoint>>,
    typeDict: map<int, TypeDto>,
    seen: seq<int>)

  /**
    One turn of the loop: a type met for the first time gets an empty list and
    its `TypeDTO`; then the row's point is appended to its type's list.
  */
  function CollectRow(c: Collection, r: TrendRow): Collection
    requires r.typeUid !in c.trendsByType ==> r.typeUid !in c.seen
  {
    var c1 := if r.typeUid !in c.trendsByType then
        Collection(c.trendsByType[r.typeUid := []], c.typeDict[r.typeUid := TypeDto(r.typeUid, r.info)], c.seen + [r.typeUid])
      else c;
    c1.(trendsByType := c1.trendsByType[r.typeUid := c1.trendsByType[r.typeUid] + [PointOf(r)]])
  }

  /** The loop invariant: the collection describes exactly the rows read so far. */
  ghost predicate Collected(rows: seq<TrendRow>, c: Collection) {
    && c.trendsByType.Keys == Uids(rows) && c.typeDict.Keys == Uids(rows)
    && Distinct(c.seen) && (forall u :: u in c.seen <==> u in Uids(rows))
    && (forall u :: u in c.trendsByType ==> c.trendsByType[u] == PointsFor(rows, u))
    && (forall u :: u in c.typeDict ==> FirstType(rows, u) == Some(c.typeDict[u]))
  }

  /** One turn of the loop keeps the invariant, with one more row read. */
  lemma CollectRowKeeps(rows: seq<TrendRow>, r: TrendRow, c: Collection)
    requires Collected(rows, c)
    ensures r.typeUid !in c.trendsByType ==> r.typeUid !in c.seen
    ensures Collected(rows + [r], CollectRow(c, r))
  {
    var next, c2, uid := rows + [r], CollectRow(c, r), r.typeUid;
    assert next[..|rows|] == rows && next[|next| - 1] == r;
    assert Uids(next) == Uids(rows) + {uid};
    var isNew := uid !in c.trendsByType;
    if isNew {
      OccurringTypes(rows, uid);
      assert Distinct(c2.seen) by {
        forall i | 0 <= i < |c.seen| ensures c.seen[i] != uid {
          assert c.seen[i] in c.seen;
        }
      }
    }
    forall u | u in c2.trendsByType ensures c2.trendsByType[u] == PointsFor(next, u) {
      if u == uid && isNew {
        OccurringTypes(rows, uid);
      }
    }
    forall u | u in c2.typeDict ensures FirstType(next, u) == Some(c2.typeDict[u]) {
      if u == uid && isNew {
        OccurringTypes(rows, uid);
      }
    }
  }

  /**
    The loop over the rows: `trends_by_type` and `type_dict` gain an entry the
    first time a type id is met, and every row appends its point to its type's list.
  */
  method CollectByType(rows: seq<TrendRow>)
    returns (trendsByType: map<int, seq<TrendDataPoint>>, typeDict: map<int, TypeDto>, seen: seq<int>)
    ensures trendsByType.Keys == Uids(rows) && typeDict.Keys == Uids(rows)
    ensures Distinct(seen) && forall u :: u in seen <==> u in Uids(rows)
    ensures forall u :: u in trendsByType ==> trendsByType[u] == PointsFor(rows, u)
    ensures forall u :: u in typeDict ==> FirstType(rows, u) == Some(typeDict[u])
  {
    var c := Collection(map[], map[], []);
    for n := 0 to |rows|
      invariant Collected(rows[..n], c)
    {
      assert rows[..n + 1] == rows[..n] + [rows[n]];
      CollectRowKeeps(rows[..n], rows[n], c);
      c := CollectRow(c, rows[n]);
    }
    assert rows[..|rows|] == rows;
    trendsByType, typeDict, seen := c.trendsByType, c.typeDict, c.seen;
  }

  /** The list comprehension over the sorted ids. */
  method Entries(keys: seq<int>, trendsByType: map<int, seq<TrendDataPoint>>, typeDict: map<int, TypeDto>)
    returns (result: seq<TrendData>)
    requires forall i :: 0 <= i < |keys| ==> keys[i] in trendsByType && keys[i] in typeDict
    ensures |result| == |keys|
    ensures forall i :: 0 <= i < |keys| ==> result[i] == TrendData(typeDict[keys[i]], trendsByType[keys[i]])
  {
    result := [];
    for k := 0 to |keys|
      invariant |result| == k
      invariant forall i :: 0 <= i < k ==> result[i] == TrendData(typeDict[keys[i]], trendsByType[keys[i]])
    {
      result := result + [TrendData(typeDict[keys[k]], trendsByType[keys[k]])];
    }
  }

  /** One entry per collected id, each carrying that id's points and first type. */
  lemma EntriesDescribeRows(rows: seq<TrendRow>, trendsByType: map<int, seq<TrendDataPoint>>,
                            typeDict: map<int, TypeDto>, keys: seq<int>, result: seq<TrendData>)
    requires trendsByType.Keys == Uids(rows) && typeDict.Keys == Uids(rows)
    requires forall u :: u in trendsByType ==> trendsByType[u] == PointsFor(rows, u)
    requires forall u :: u in typeDict ==> FirstType(rows, u) == Some(typeDict[u])
    requires forall i :: 0 <= i < |keys| ==> keys[i] in Uids(rows)
    requires forall u :: u in Uids(rows) ==> u in keys
    requires |result| == |keys|
    requires forall i :: 0 <= i < |keys| ==> result[i] == TrendData(typeDict[keys[i]], trendsByType[keys[i]])
    ensures forall i :: 0 <= i < |result| ==>
      && result[i].type_.uid == keys[i]
      && result[i].items == PointsFor(rows, keys[i])
      && |result[i].items| >= 1
      && FirstType(rows, keys[i]) == Some(result[i].type_)
    ensures forall u :: u in Uids(rows) <==> exists i :: 0 <= i < |result| && result[i].type_.uid == u
  {
    forall i | 0 <= i < |result|
      ensures result[i].type_.uid == keys[i]
      ensures |result[i].items| >= 1
    {
      OccurringTypes(rows, keys[i]);
    }
    forall u | u in Uids(rows) ensures exists i :: 0 <= i < |result| && result[i].type_.uid == u {
      var i :| 0 <= i < |keys| && keys[i] == u;
      assert result[i].type_.uid == u;
    }
  }

  /**
    `get_trends`' grouping: one entry per type id, in ascending id order,
    holding the points of that type's rows in row order and the type as its
    first row gives it.
  */
  method GroupTrends(rows: seq<TrendRow>) returns (result: seq<TrendData>)
    ensures forall i, j :: 0 <= i < j < |result| ==> result[i].type_.uid < result[j].type_.uid
    ensures forall u :: u in Uids(rows) <==> exists i :: 0 <= i < |result| && result[i].type_.uid == u
    ensures forall i :: 0 <= i < |result| ==>
      && result[i].items == PointsFor(rows, result[i].type_.uid)
      && |result[i].items| >= 1
      && FirstType(rows, result[i].type_.uid) == Some(result[i].type_)
    ensures ItemCount(result) == |rows|
  {
    var trendsByType, typeDict, seen := CollectByType(rows);
    var keys := Sort(seen);
    assert forall i :: 0 <= i < |keys| ==> keys[i] in seen;
    result := Entries(keys, trendsByType, typeDict);
    EntriesDescribeRows(rows, trendsByType, typeDict, keys, result);
    GroupedCount(rows, keys, result);
  }
}
