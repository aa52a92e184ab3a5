/**
 * The time-chunk kernel of msclip (visibilities/clip_ms.py): group the
 * measurement set's rows by chunk id, take each chunk's earliest and latest
 * TIME, and keep the rows of a clip table whose TIME falls inside some
 * chunk's closed interval. Table access is replaced by the column values.
 */
module ClipMs {

  predicate StrictlyIncreasing(s: seq<int>) {
    forall i, j :: 0 <= i < j < |s| ==> s[i] < s[j]
  }

  /** 0, 1, ..., n - 1: every row of an n-row table. */
  function Range(n: nat): (r: seq<nat>)
    ensures |r| == n && forall i :: 0 <= i < n ==> r[i] == i
  {
    seq(n, i => i)
  }

  /** Adds v to a strictly increasing sequence, keeping it strictly increasing. */
  function Insert(s: seq<int>, v: int): (r: seq<int>)
    requires StrictlyIncreasing(s)
    ensures StrictlyIncreasing(r)
    ensures forall u :: u in r <==> u in s || u == v
  {
    if s == [] then [v]
    else if v < s[0] then [v] + s
    else if v == s[0] then s
    else
      var rest := Insert(s[1..], v);
      assert forall j :: 0 <= j < |rest| ==> s[0] < rest[j] by {
        forall j | 0 <= j < |rest| ensures s[0] < rest[j] {
          assert rest[j] in rest;
        }
      }
      [s[0]] + rest
  }

  /** np.unique: the distinct ids, sorted ascending. */
  function Unique(ids: seq<int>): (u: seq<int>)
    ensures StrictlyIncreasing(u)
    ensures forall v :: v in u <==> v in ids
  {
    if |ids| == 0 then []
    else
      var front := ids[..|ids| - 1];
      assert ids == front + [ids[|ids| - 1]];
      Insert(Unique(front), ids[|ids| - 1])
  }

  /** np.where on a one-dimensional mask: the positions holding true, ascending. */
  function Where(mask: seq<bool>): (r: seq<nat>)
    ensures StrictlyIncreasing(r)
    ensures forall j :: 0 <= j < |r| ==> r[j] < |mask| && mask[r[j]]
    ensures forall i :: 0 <= i < |mask| ==> (mask[i] <==> i in r)
  {
    if |mask| == 0 then []
    else
      var n := |mask| - 1;
      var front := Where(mask[..n]);
      front + (if mask[n] then [n] else [])
  }

  /** The mask chunk_ids == val. */
  function IdMask(ids: seq<int>, val: int): (m: seq<bool>)
    ensures |m| == |ids| && forall i :: 0 <= i < |ids| ==> (m[i] <==> ids[i] == val)
  {
    seq(|ids|, i requires 0 <= i < |ids| => ids[i] == val)
  }

  /** The row numbers of the chunk with id val (np.where(chunk_ids == val)). */
  function ChunkRows(ids: seq<int>, val: int): (rows: seq<nat>)
    ensures forall j :: 0 <= j < |rows| ==> rows[j] < |ids| && ids[rows[j]] == val
    ensures forall i :: 0 <= i < |ids| && ids[i] == val ==> i in rows
    ensures |rows| > 0 <==> val in ids
  {
    var mask := IdMask(ids, val);
    var rows := Where(mask);
    assert val in ids ==> |rows| > 0 by {
      if val in ids {
        var i :| 0 <= i < |ids| && ids[i] == val;
        assert mask[i];
      }
    }
    assert |rows| > 0 ==> ids[rows[0]] in ids;
    rows
  }

  /** The TIME values of the chunk with id val (mstime[index]). */
  function ChunkTimes(ids: seq<int>, times: seq<real>, val: int): (ts: seq<real>)
    requires |ids| == |times|
    ensures forall t :: t in ts <==> exists i :: 0 <= i < |ids| && ids[i] == val && times[i] == t
    ensures |ts| > 0 <==> val in ids
  {
    var rows := ChunkRows(ids, val);
    var ts := seq(|rows|, j requires 0 <= j < |rows| => times[rows[j]]);
    assert forall i :: 0 <= i < |ids| && ids[i] == val ==> times[i] in ts by {
      forall i | 0 <= i < |ids| && ids[i] == val ensures times[i] in ts {
        var j :| 0 <= j < |rows| && rows[j] == i;
        assert ts[j] == times[i];
      }
    }
    ts
  }

  /** np.min of a non-empty sequence. */
  function SeqMin(s: seq<real>): (m: real)
    requires |s| > 0
    ensures m in s
    ensures forall i :: 0 <= i < |s| ==> m <= s[i]
  {
    if |s| == 1 then s[0]
    else
      var rest := SeqMin(s[1..]);
      if s[0] <= rest then s[0] else rest
  }

  /** np.max of a non-empty sequence. */
  function SeqMax(s: seq<real>): (m: real)
    requires |s| > 0
    ensures m in s
    ensures forall i :: 0 <= i < |s| ==> s[i] <= m
  {
    if |s| == 1 then s[0]
    else
      var rest := SeqMax(s[1..]);
      if rest <= s[0] then s[0] else rest
  }

  /** min_times: the earliest TIME of each chunk, in the order of Unique(ids). */
  function MinTimes(ids: seq<int>, times: seq<real>): (mins: seq<real>)
    requires |ids| == |times|
    ensures |mins| == |Unique(ids)|
  {
    var u := Unique(ids);
    seq(|u|, k requires 0 <= k < |u| => SeqMin(ChunkTimes(ids, times, u[k])))
  }

  /** max_times: the latest TIME of each chunk, in the order of Unique(ids). */
  function MaxTimes(ids: seq<int>, times: seq<real>): (maxs: seq<real>)
    requires |ids| == |times|
    ensures |maxs| == |Unique(ids)|
  {
    var u := Unique(ids);
    seq(|u|, k requires 0 <= k < |u| => SeqMax(ChunkTimes(ids, times, u[k])))
  }

  /**
   * Each chunk's interval is well formed, both ends are TIME values of rows of
   * that chunk, and it encloses the TIME of every row of that chunk.
   */
  lemma ChunkInterval(ids: seq<int>, times: seq<real>, k: nat)
    requires |ids| == |times|
    requires k < |Unique(ids)|
    ensures var val := Unique(ids)[k];
      var lo := MinTimes(ids, times)[k];
      var hi := MaxTimes(ids, times)[k];
      && lo <= hi
      && (exists i :: 0 <= i < |ids| && ids[i] == val && times[i] == lo)
      && (exists i :: 0 <= i < |ids| && ids[i] == val && times[i] == hi)
      && (forall i :: 0 <= i < |ids| && ids[i] == val ==> lo <= times[i] <= hi)
  {
    var val := Unique(ids)[k];
    assert val in Unique(ids);
    var ts := ChunkTimes(ids, times, val);
    var lo := SeqMin(ts);
    var hi := SeqMax(ts);
    assert MinTimes(ids, times)[k] == lo && MaxTimes(ids, times)[k] == hi;
    forall i | 0 <= i < |ids| && ids[i] == val ensures lo <= times[i] <= hi {
      assert times[i] in ts;
    }
    assert lo in ts && hi in ts;
  }

  /** Some chunk's closed interval [mins[k], maxs[k]] contains t. */
  predicate Covered(t: real, mins: seq<real>, maxs: seq<real>)
    requires |mins| == |maxs|
  {
    exists k :: 0 <= k < |mins| && mins[k] <= t <= maxs[k]
  }

  /**
   * keeper_indices: the rows of the clip table whose TIME is covered by some
   * chunk interval (the broadcast comparison, any over axis 1, then np.where).
   */
  function Keepers(clipTime: seq<real>, mins: seq<real>, maxs: seq<real>): (keep: seq<nat>)
    requires |mins| == |maxs|
    ensures StrictlyIncreasing(keep)
    ensures forall j :: 0 <= j < |keep| ==> keep[j] < |clipTime|
    ensures forall i :: 0 <= i < |clipTime| ==> (i in keep <==> Covered(clipTime[i], mins, maxs))
  {
    Where(seq(|clipTime|, i requires 0 <= i < |clipTime| => Covered(clipTime[i], mins, maxs)))
  }

  /** The outcome for one clip table: skipped when it has no rows, otherwise the kept rows. */
  datatype Clip = NotClipped | Clipped(keepers: seq<nat>)

  function ClipTable(clipTime: seq<real>, mins: seq<real>, maxs: seq<real>): (c: Clip)
    requires |mins| == |maxs|
    ensures c.NotClipped? <==> |clipTime| == 0
    ensures c.Clipped? ==> forall i :: 0 <= i < |clipTime| ==>
      (i in c.keepers <==> Covered(clipTime[i], mins, maxs))
  {
    if |clipTime| == 0 then NotClipped else Clipped(Keepers(clipTime, mins, maxs))
  }

  /** Clips one table against the chunk intervals of the measurement set. */
  function ClipAgainstMs(chunkIds: seq<int>, msTime: seq<real>, clipTime: seq<real>): (c: Clip)
    requires |chunkIds| == |msTime|
    ensures c.NotClipped? <==> |clipTime| == 0
  {
    ClipTable(clipTime, MinTimes(chunkIds, msTime), MaxTimes(chunkIds, msTime))
  }

  /** The TIME column of the selected rows (selectrows(rownrs = rows)). */
  function Select(clipTime: seq<real>, rows: seq<nat>): (s: seq<real>)
    requires forall j :: 0 <= j < |rows| ==> rows[j] < |clipTime|
    ensures |s| == |rows| && forall j :: 0 <= j < |rows| ==> s[j] == clipTime[rows[j]]
  {
    seq(|rows|, j requires 0 <= j < |rows| => clipTime[rows[j]])
  }

  /** A mask that is true everywhere selects every position. */
  lemma {:induction false} WhereAllTrue(mask: seq<bool>)
    requires forall i :: 0 <= i < |mask| ==> mask[i]
    ensures Where(mask) == Range(|mask|)
  {
    if |mask| > 0 {
      var n := |mask| - 1;
      WhereAllTrue(mask[..n]);
      assert Where(mask) == Range(n) + [n];
    }
  }

  /** Rows whose every TIME is covered are all kept. */
  lemma AllCoveredAllKept(clipTime: seq<real>, mins: seq<real>, maxs: seq<real>)
    requires |mins| == |maxs|
    requires forall i :: 0 <= i < |clipTime| ==> Covered(clipTime[i], mins, maxs)
    ensures Keepers(clipTime, mins, maxs) == Range(|clipTime|)
  {
    WhereAllTrue(seq(|clipTime|, i requires 0 <= i < |clipTime| => Covered(clipTime[i], mins, maxs)));
  }

  /**
   * Clipping is idempotent: clipping the kept rows again with the same
   * intervals keeps every one of them (and skips the table if none was kept).
   */
  lemma ClipIdempotent(clipTime: seq<real>, mins: seq<real>, maxs: seq<real>)
    requires |mins| == |maxs|
    ensures match ClipTable(clipTime, mins, maxs)
      case NotClipped => true
      case Clipped(keep) =>
        ClipTable(Select(clipTime, keep), mins, maxs)
        == if |keep| == 0 then NotClipped else Clipped(Range(|keep|))
  {
    if |clipTime| > 0 {
      var keep := Keepers(clipTime, mins, maxs);
      var again := Select(clipTime, keep);
      forall j | 0 <= j < |again| ensures Covered(again[j], mins, maxs) {
        assert keep[j] in keep;
      }
      AllCoveredAllKept(again, mins, maxs);
    }
  }

  /**
   * Every row of the measurement set lies inside its own chunk's interval, so
   * clipping the measurement set's own TIME column keeps every row.
   */
  lemma MsTimesAllKept(chunkIds: seq<int>, msTime: seq<real>)
    requires |chunkIds| == |msTime|
    ensures ClipAgainstMs(chunkIds, msTime, msTime)
      == if |msTime| == 0 then NotClipped else Clipped(Range(|msTime|))
  {
    var u := Unique(chunkIds);
    var mins := MinTimes(chunkIds, msTime);
    var maxs := MaxTimes(chunkIds, msTime);
    forall i | 0 <= i < |msTime| ensures Covered(msTime[i], mins, maxs) {
      assert chunkIds[i] in u;
      var k :| 0 <= k < |u| && u[k] == chunkIds[i];
      ChunkInterval(chunkIds, msTime, k);
    }
    AllCoveredAllKept(msTime, mins, maxs);
  }

  /** Time t lies between the TIMEs of two rows a and b of the same chunk. */
  predicate Bracketed(t: real, chunkIds: seq<int>, msTime: seq<real>)
    requires |chunkIds| == |msTime|
  {
    exists a, b :: 0 <= a < |chunkIds| && 0 <= b < |chunkIds| && chunkIds[a] == chunkIds[b]
      && msTime[a] <= t <= msTime[b]
  }

  /**
   * A clip-table time is covered by the measurement set's chunk intervals iff
   * two rows of one chunk bracket it: the intervals are exactly the spans of
   * each chunk's TIME values.
   */
  lemma CoveredIffBracketed(chunkIds: seq<int>, msTime: seq<real>, t: real)
    requires |chunkIds| == |msTime|
    ensures Covered(t, MinTimes(chunkIds, msTime), MaxTimes(chunkIds, msTime))
      <==> Bracketed(t, chunkIds, msTime)
  {
    var u := Unique(chunkIds);
    var mins := MinTimes(chunkIds, msTime);
    var maxs := MaxTimes(chunkIds, msTime);
    if Covered(t, mins, maxs) {
      var k :| 0 <= k < |mins| && mins[k] <= t <= maxs[k];
      ChunkInterval(chunkIds, msTime, k);
      var a :| 0 <= a < |chunkIds| && chunkIds[a] == u[k] && msTime[a] == mins[k];
      var b :| 0 <= b < |chunkIds| && chunkIds[b] == u[k] && msTime[b] == maxs[k];
      assert chunkIds[a] == chunkIds[b] && msTime[a] <= t <= msTime[b];
    }
    if Bracketed(t, chunkIds, msTime) {
      var a, b :| 0 <= a < |chunkIds| && 0 <= b < |chunkIds| && chunkIds[a] == chunkIds[b]
        && msTime[a] <= t <= msTime[b];
      assert chunkIds[a] in u;
      var k :| 0 <= k < |u| && u[k] == chunkIds[a];
      ChunkInterval(chunkIds, msTime, k);
      assert mins[k] <= t <= maxs[k];
    }
  }

  /**
   * The loop over time_clip_tables with the zero-row test as intended
   * (`nrows()`): every table is clipped with the same intervals, and one
   * with no rows is skipped.
   */
  function ClipTables(tables: seq<seq<real>>, mins: seq<real>, maxs: seq<real>): (r: seq<Clip>)
    requires |mins| == |maxs|
    ensures |r| == |tables|
    ensures forall i :: 0 <= i < |tables| ==> r[i] == ClipTable(tables[i], mins, maxs)
  {
    seq(|tables|, i requires 0 <= i < |tables| => ClipTable(tables[i], mins, maxs))
  }

  /**
   * The same loop as the code has it: `cliptab.nrows` is compared with 0
   * without being called, so the skip never happens; a table with no rows
   * reaches the division by len(cliptime) when the kept percentage is
   * computed, and the except clause ends msclip. The result holds the
   * outcomes of the tables clipped before that.
   */
  function ClipTablesAsWritten(tables: seq<seq<real>>, mins: seq<real>, maxs: seq<real>): (r: seq<Clip>)
    requires |mins| == |maxs|
    ensures |r| <= |tables|
    ensures forall i :: 0 <= i < |r| ==> |tables[i]| > 0 && r[i] == Clipped(Keepers(tables[i], mins, maxs))
    ensures |r| < |tables| ==> |tables[|r|]| == 0
    decreases |tables|
  {
    if |tables| == 0 || |tables[0]| == 0 then []
    else [Clipped(Keepers(tables[0], mins, maxs))] + ClipTablesAsWritten(tables[1..], mins, maxs)
  }

  /**
   * The loop as written agrees with the intended one up to the first table
   * without rows, and on the whole list iff no table is empty.
   */
  lemma AsWrittenIsPrefix(tables: seq<seq<real>>, mins: seq<real>, maxs: seq<real>)
    requires |mins| == |maxs|
    ensures var done := ClipTablesAsWritten(tables, mins, maxs);
      && done == ClipTables(tables, mins, maxs)[..|done|]
      && (done == ClipTables(tables, mins, maxs) <==> forall i :: 0 <= i < |tables| ==> |tables[i]| > 0)
  {
  }

  /**
   * An empty first table stops the run as written: the second table is never
   * clipped, although the intended loop skips the first and keeps the second
   * table's only row.
   */
  lemma ZeroRowTableEndsRun(t: real)
    ensures ClipTablesAsWritten([[], [t]], [t], [t]) == []
    ensures ClipTables([[], [t]], [t], [t]) == [NotClipped, Clipped([0])]
  {
    assert Covered([t][0], [t], [t]);
    AllCoveredAllKept([t], [t], [t]);
    assert Range(1) == [0];
  }
}
