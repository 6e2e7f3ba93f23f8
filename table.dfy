/** The hourly table of the web page: hourly temperature and humidity
    averages merged by their hour stamp, one row per stamp in lexicographic
    order, each row marked with the temperature's trend against the row
    above. Lines are kept structured; their text layout is not modelled. */
module Table {
  import opened Float64

  /** One hourly average: the hour as Go's Time.String prints it, and the
      value. */
  datatype Reading = Reading(stamp: string, v: F64)

  /** The two slots of a merged entry: temperature and humidity. */
  datatype Slots = Slots(t: F64, h: F64)

  /** "^", "v" and "~". */
  datatype Trend = Up | Down | Same

  /** A border line, the column heading, or one row of the table; `current`
      is whether the row carries the " <--" mark of the current hour. */
  datatype Line =
    | Border
    | Heading
    | Row(hour: string, mark: Trend, t: F64, h: F64, current: bool)

  // ---------------------------------------------------------------------
  // String order

  /** sort.Strings order: lexicographic by character. UTF-8 byte order and
      code point order agree, so comparing characters is comparing bytes. */
  predicate LexLess(a: string, b: string)
  {
    if a == [] then b != []
    else if b == [] then false
    else if a[0] != b[0] then a[0] < b[0]
    else LexLess(a[1..], b[1..])
  }

  lemma {:induction false} LexIrreflexive(a: string)
    ensures !LexLess(a, a)
  {
    if a != [] {
      LexIrreflexive(a[1..]);
    }
  }

  lemma {:induction false} LexTransitive(a: string, b: string, c: string)
    requires LexLess(a, b) && LexLess(b, c)
    ensures LexLess(a, c)
  {
    if a != [] && a[0] == b[0] && b[0] == c[0] {
      LexTransitive(a[1..], b[1..], c[1..]);
    }
  }

  /** Any two different strings are ordered one way or the other. */
  lemma {:induction false} LexTotal(a: string, b: string)
    requires a != b
    ensures LexLess(a, b) || LexLess(b, a)
  {
    if a != [] && b != [] && a[0] == b[0] {
      assert a == [a[0]] + a[1..] && b == [b[0]] + b[1..];
      LexTotal(a[1..], b[1..]);
    }
  }

  ghost predicate StrictlySorted(keys: seq<string>)
  {
    forall i, j :: 0 <= i < j < |keys| ==> LexLess(keys[i], keys[j])
  }

  // ---------------------------------------------------------------------
  // The merge

  /** The stamps of a list of readings. */
  ghost function Stamps(rs: seq<Reading>): set<string>
  {
    set r | r in rs :: r.stamp
  }

  /** The value of the last reading of `rs` stamped `k`, or 0 when there is
      none. */
  function LastOr(rs: seq<Reading>, k: string): (v: F64)
    ensures v == Num(0.0) || exists i :: 0 <= i < |rs| && rs[i].stamp == k && rs[i].v == v
  {
    if rs == [] then Num(0.0)
    else if rs[|rs| - 1].stamp == k then rs[|rs| - 1].v
    else LastOr(rs[..|rs| - 1], k)
  }

  /** A stamp that no reading carries reads as 0. */
  lemma {:induction false} LastOrAbsent(rs: seq<Reading>, k: string)
    requires k !in Stamps(rs)
    ensures LastOr(rs, k) == Num(0.0)
  {
    if rs != [] {
      assert rs[|rs| - 1] in rs;
      assert forall r :: r in rs[..|rs| - 1] ==> r in rs;
      LastOrAbsent(rs[..|rs| - 1], k);
    }
  }

  lemma StampsAppend(rs: seq<Reading>, r: Reading)
    ensures Stamps(rs + [r]) == Stamps(rs) + {r.stamp}
  {
    assert forall x :: x in rs + [r] <==> x in rs || x == r;
  }

  /** The two loops that fill the merge map: every stamp of either list gets
      an entry whose temperature slot holds the last temperature with that
      stamp and whose humidity slot holds the last humidity with that stamp,
      a missing one staying 0. */
  method MergeReadings(ts: seq<Reading>, hs: seq<Reading>) returns (merge: map<string, Slots>)
    ensures merge.Keys == Stamps(ts) + Stamps(hs)
    ensures forall k :: k in merge ==> merge[k] == Slots(LastOr(ts, k), LastOr(hs, k))
  {
    merge := map[];
    var i := 0;
    while i < |ts|
      invariant 0 <= i <= |ts|
      invariant merge == MergedT(ts[..i])
    {
      var v := ts[i];
      assert ts[..i + 1][..i] == ts[..i] && ts[..i + 1][i] == v;
      if v.stamp !in merge {
        merge := merge[v.stamp := Slots(Num(0.0), Num(0.0))];
      }
      merge := merge[v.stamp := merge[v.stamp].(t := v.v)];
      i := i + 1;
    }
    assert ts[..i] == ts;
    var j := 0;
    while j < |hs|
      invariant 0 <= j <= |hs|
      invariant merge == MergedH(MergedT(ts), hs[..j])
    {
      var v := hs[j];
      assert hs[..j + 1][..j] == hs[..j] && hs[..j + 1][j] == v;
      if v.stamp !in merge {
        merge := merge[v.stamp := Slots(Num(0.0), Num(0.0))];
      }
      merge := merge[v.stamp := merge[v.stamp].(h := v.v)];
      j := j + 1;
    }
    assert hs[..j] == hs;
    MergedHSlots(ts, hs);
  }

  /** The map the temperature loop builds, one reading at a time. */
  ghost function MergedT(ts: seq<Reading>): map<string, Slots>
  {
    if ts == [] then map[]
    else
      var m, v := MergedT(ts[..|ts| - 1]), ts[|ts| - 1];
      var slots := if v.stamp in m then m[v.stamp] else Slots(Num(0.0), Num(0.0));
      m[v.stamp := slots.(t := v.v)]
  }

  /** The map the humidity loop builds on top of `m`. */
  ghost function MergedH(m: map<string, Slots>, hs: seq<Reading>): map<string, Slots>
  {
    if hs == [] then m
    else
      var m', v := MergedH(m, hs[..|hs| - 1]), hs[|hs| - 1];
      var slots := if v.stamp in m' then m'[v.stamp] else Slots(Num(0.0), Num(0.0));
      m'[v.stamp := slots.(h := v.v)]
  }

  lemma {:induction false} MergedTSlots(ts: seq<Reading>)
    ensures MergedT(ts).Keys == Stamps(ts)
    ensures forall k :: k in MergedT(ts) ==> MergedT(ts)[k] == Slots(LastOr(ts, k), Num(0.0))
  {
    if ts != [] {
      var init, v := ts[..|ts| - 1], ts[|ts| - 1];
      MergedTSlots(init);
      assert ts == init + [v];
      StampsAppend(init, v);
    }
  }

  lemma {:induction false} MergedHSlots(ts: seq<Reading>, hs: seq<Reading>)
    ensures MergedH(MergedT(ts), hs).Keys == Stamps(ts) + Stamps(hs)
    ensures forall k :: k in MergedH(MergedT(ts), hs) ==>
              MergedH(MergedT(ts), hs)[k] == Slots(LastOr(ts, k), LastOr(hs, k))
  {
    if hs == [] {
      MergedTSlots(ts);
    } else {
      var init, v := hs[..|hs| - 1], hs[|hs| - 1];
      MergedHSlots(ts, init);
      assert hs == init + [v];
      StampsAppend(init, v);
      if v.stamp !in MergedH(MergedT(ts), init) {
        LastOrAbsent(ts, v.stamp);
      }
    }
  }

  /** A set other than the empty one has an element to pick. */
  lemma NonEmptyHasKey(ks: set<string>)
    requires ks != {}
    ensures exists k :: k in ks
  {
    if forall k :: k !in ks {
      assert false;
    }
  }

  /** allKeys: the keys of the merge map, collected in the map's
      (unspecified) iteration order and put in sort.Strings order, here by
      inserting each key at its place. */
  method SortedKeys(merge: map<string, Slots>) returns (keys: seq<string>)
    ensures StrictlySorted(keys)
    ensures forall k :: k in keys <==> k in merge
    ensures |keys| == |merge|
  {
    keys := [];
    var todo := merge.Keys;
    while todo != {}
      invariant todo <= merge.Keys
      invariant StrictlySorted(keys)
      invariant forall k :: k in keys <==> k in merge && k !in todo
      invariant |keys| + |todo| == |merge|
      decreases todo
    {
      NonEmptyHasKey(todo);
      var k :| k in todo;
      keys := InsertKey(keys, k);
      todo := todo - {k};
    }
  }

  /** `k` placed into sorted `keys`, which do not hold it yet. */
  method InsertKey(keys: seq<string>, k: string) returns (r: seq<string>)
    requires StrictlySorted(keys) && k !in keys
    ensures StrictlySorted(r)
    ensures |r| == |keys| + 1
    ensures forall x :: x in r <==> x in keys || x == k
  {
    var p := 0;
    while p < |keys| && LexLess(keys[p], k)
      invariant 0 <= p <= |keys|
      invariant forall q :: 0 <= q < p ==> LexLess(keys[q], k)
    {
      p := p + 1;
    }
    if p < |keys| {
      LexTotal(keys[p], k);
    }
    r := keys[..p] + [k] + keys[p..];
    InsertedSorted(keys, p, k);
    assert keys == keys[..p] + keys[p..];
  }

  /** Placing `k` after the keys below it and before the rest keeps the
      keys strictly sorted. */
  lemma InsertedSorted(keys: seq<string>, p: nat, k: string)
    requires StrictlySorted(keys) && p <= |keys|
    requires forall q :: 0 <= q < p ==> LexLess(keys[q], k)
    requires p < |keys| ==> LexLess(k, keys[p])
    ensures StrictlySorted(keys[..p] + [k] + keys[p..])
  {
    var r := keys[..p] + [k] + keys[p..];
    forall q | p < q < |keys| ensures LexLess(k, keys[q]) {
      LexTransitive(k, keys[p], keys[q]);
    }
    forall i, j | 0 <= i < j < |r| ensures LexLess(r[i], r[j]) {
      if j < p {
        assert r[i] == keys[i] && r[j] == keys[j];
      } else if j == p {
        assert r[i] == keys[i];
      } else if i < p {
        assert r[i] == keys[i] && r[j] == keys[j - 1];
        LexTransitive(keys[i], k, keys[j - 1]);
      } else if i == p {
        assert r[j] == keys[j - 1];
      } else {
        assert r[i] == keys[i - 1] && r[j] == keys[j - 1];
      }
    }
  }

  // ---------------------------------------------------------------------
  // The rows

  /** The mark of a row whose temperature is `t` under a row whose
      temperature was `prev`: Go's float comparisons, so a NaN on either
      side gives "~". */
  function TrendOf(t: F64, prev: F64): (m: Trend)
    ensures m == Up <==> Greater(t, prev)
    ensures m == Down <==> Less(t, prev)
  {
    if Greater(t, prev) then Up else if Less(t, prev) then Down else Same
  }

  /** Compared with itself every temperature, NaN included, is "~". */
  lemma TrendSelf(t: F64)
    ensures TrendOf(t, t) == Same
  {
  }

  /** The rows of the table: one per stamp of either list, in sort.Strings
      order of the stamps, holding the merged slots; the first row's mark
      is "~" and every other row's mark compares its temperature with the
      row above. */
  ghost predicate IsTableBody(ts: seq<Reading>, hs: seq<Reading>, nowStamp: string, rows: seq<Line>)
  {
    && |rows| == |Stamps(ts) + Stamps(hs)|
    && (forall i :: 0 <= i < |rows| ==> rows[i].Row?)
    && (forall i :: 0 <= i < |rows| ==> rows[i].hour in Stamps(ts) + Stamps(hs))
    && (forall i, j :: 0 <= i < j < |rows| ==> LexLess(rows[i].hour, rows[j].hour))
    && (forall i :: 0 <= i < |rows| ==>
          rows[i].t == LastOr(ts, rows[i].hour) && rows[i].h == LastOr(hs, rows[i].hour)
          && (rows[i].current <==> rows[i].hour == nowStamp))
    && (|rows| > 0 ==> rows[0].mark == Same)
    && (forall i :: 0 < i < |rows| ==> rows[i].mark == TrendOf(rows[i].t, rows[i - 1].t))
  }

  /** renderHourlyAvgTable, given the current hour's stamp. With both lists
      empty the source indexes the first of no keys, so one reading at
      least is required. The table is three heading lines, the rows, and a
      closing border. */
  method RenderHourlyAvgTable(ts: seq<Reading>, hs: seq<Reading>, nowStamp: string)
    returns (table: seq<Line>)
    requires |ts| + |hs| > 0
    ensures |table| >= 4
    ensures table[..3] == [Border, Heading, Border] && table[|table| - 1] == Border
    ensures IsTableBody(ts, hs, nowStamp, table[3..|table| - 1])
  {
    var merge := MergeReadings(ts, hs);
    var keys := SortedKeys(merge);
    KeysPresent(ts, hs, merge, keys);
    var rows := BuildRows(merge, keys, nowStamp);
    TableRows(ts, hs, nowStamp, merge, keys, rows);
    table := [Border, Heading, Border] + rows + [Border];
    Framed(rows);
  }

  /** The heading lines and the closing border around the rows. */
  lemma Framed(rows: seq<Line>)
    ensures |[Border, Heading, Border] + rows + [Border]| == |rows| + 4
    ensures ([Border, Heading, Border] + rows + [Border])[..3] == [Border, Heading, Border]
    ensures ([Border, Heading, Border] + rows + [Border])[|rows| + 3] == Border
    ensures ([Border, Heading, Border] + rows + [Border])[3..|rows| + 3] == rows
  {
  }

  /** The loop over the sorted keys: one row per key, its mark comparing
      its temperature with the previous row's, starting from the first
      key's own temperature. */
  method BuildRows(merge: map<string, Slots>, keys: seq<string>, nowStamp: string)
    returns (rows: seq<Line>)
    requires |keys| > 0 && forall q :: 0 <= q < |keys| ==> keys[q] in merge
    ensures |rows| == |keys|
    ensures forall q :: 0 <= q < |keys| ==>
              rows[q].Row? && rows[q] == Row(keys[q], rows[q].mark, merge[keys[q]].t, merge[keys[q]].h, keys[q] == nowStamp)
    ensures rows[0].mark == Same
    ensures forall q :: 0 < q < |rows| ==> rows[q].mark == TrendOf(rows[q].t, rows[q - 1].t)
  {
    rows := [];
    var prevT := merge[keys[0]].t;
    var i := 0;
    while i < |keys|
      invariant 0 <= i <= |keys|
      invariant |rows| == i
      invariant forall q :: 0 <= q < i ==>
                  rows[q].Row? && rows[q] == Row(keys[q], rows[q].mark, merge[keys[q]].t, merge[keys[q]].h, keys[q] == nowStamp)
      invariant i > 0 ==> prevT == rows[i - 1].t
      invariant i == 0 ==> prevT == merge[keys[0]].t
      invariant i > 0 ==> rows[0].mark == Same
      invariant forall q :: 0 < q < i ==> rows[q].mark == TrendOf(rows[q].t, rows[q - 1].t)
    {
      var hour := keys[i];
      var val := merge[hour];
      var mark := TrendOf(val.t, prevT);
      rows := rows + [Row(hour, mark, val.t, val.h, hour == nowStamp)];
      prevT := val.t;
      i := i + 1;
    }
  }

  /** Some reading gives the merge a key, and every sorted key is one of
      the merge's. */
  lemma KeysPresent(ts: seq<Reading>, hs: seq<Reading>, merge: map<string, Slots>, keys: seq<string>)
    requires |ts| + |hs| > 0
    requires merge.Keys == Stamps(ts) + Stamps(hs)
    requires forall k :: k in keys <==> k in merge
    ensures |keys| > 0 && forall q :: 0 <= q < |keys| ==> keys[q] in merge
  {
    if |ts| > 0 {
      assert ts[0] in ts && ts[0].stamp in merge;
    } else {
      assert hs[0] in hs && hs[0].stamp in merge;
    }
    forall q | 0 <= q < |keys| ensures keys[q] in merge {
      assert keys[q] in keys;
    }
  }

  lemma TableRows(ts: seq<Reading>, hs: seq<Reading>, nowStamp: string,
                  merge: map<string, Slots>, keys: seq<string>, rows: seq<Line>)
    requires merge.Keys == Stamps(ts) + Stamps(hs)
    requires forall k :: k in merge ==> merge[k] == Slots(LastOr(ts, k), LastOr(hs, k))
    requires StrictlySorted(keys) && |keys| == |merge|
    requires forall k :: k in keys <==> k in merge
    requires |rows| == |keys|
    requires forall q :: 0 <= q < |keys| ==>
               rows[q].Row? && rows[q] == Row(keys[q], rows[q].mark, merge[keys[q]].t, merge[keys[q]].h, keys[q] == nowStamp)
    requires |rows| > 0 ==> rows[0].mark == Same
    requires forall q :: 0 < q < |rows| ==> rows[q].mark == TrendOf(rows[q].t, rows[q - 1].t)
    ensures IsTableBody(ts, hs, nowStamp, rows)
  {
    assert |merge.Keys| == |merge|;
    forall i | 0 <= i < |rows| ensures rows[i].hour in Stamps(ts) + Stamps(hs) {
      assert keys[i] in keys;
    }
  }
}
