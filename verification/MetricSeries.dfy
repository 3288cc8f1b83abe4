/**
 One metric series as the store keeps it: a Go slice, that is, a length on a backing array
 which `append` writes in place while there is capacity. Shows what sharing does not do:
 copies handed out earlier stay as they were.
 */
module MetricSeries {
  import opened HostTypes
  import opened HostStore

  class Slice {
    var buf: array<MetricPoint>
    var len: nat

    ghost predicate Valid()
      reads this
    {
      len <= buf.Length
    }

    ghost function Contents(): Series
      requires Valid()
      reads this, buf
    {
      buf[..len]
    }

    constructor ()
      ensures Valid() && fresh(buf) && Contents() == []
    {
      buf := new MetricPoint[0];
      len := 0;
    }

    /** `append`: in place if there is room, else into a larger array; `spare` is Go's growth policy. */
    method Append(p: MetricPoint, spare: nat)
      requires Valid()
      modifies this, buf
      ensures Valid() && (buf == old(buf) || fresh(buf))
      ensures Contents() == old(Contents()) + [p]
    {
      if len == buf.Length {
        var larger := new MetricPoint[len + 1 + spare];
        forall i | 0 <= i < len {
          larger[i] := buf[i];
        }
        buf := larger;
        assert buf[..len] == old(Contents());
      }
      buf[len] := p;
      len := len + 1;
    }

    /** Keeps the array if nothing is old, else moves the rest to an array of its own. */
    method Prune(now: int)
      requires Valid()
      modifies this
      ensures Valid() && (buf == old(buf) || fresh(buf))
      ensures Contents() == Pruned(old(Contents()), now)
    {
      var idx := 0;
      while idx < len && buf[idx].ts < now - RETENTION
        invariant 0 <= idx <= len
        invariant Pruned(buf[..len], now) == Pruned(buf[idx..len], now)
      {
        assert buf[idx..len][1..] == buf[idx + 1..len];
        idx := idx + 1;
      }
      if idx > 0 {
        var rest := new MetricPoint[len - idx];
        forall i | 0 <= i < len - idx {
          rest[i] := buf[idx + i];
        }
        assert rest[..] == buf[idx..len];
        buf, len := rest, len - idx;
        assert buf[..len] == rest[..];
      }
    }

    /** `recordMetricLocked` on one series. */
    method Record(p: MetricPoint, spare: nat)
      requires Valid()
      modifies this, buf
      ensures Valid() && (buf == old(buf) || fresh(buf))
      ensures Contents() == Pruned(old(Contents()) + [p], p.ts)
    {
      Append(p, spare);
      Prune(p.ts);
    }

    /** `cloneMetricPoints`. */
    method Clone() returns (copy: array<MetricPoint>)
      requires Valid()
      ensures fresh(copy) && copy[..] == Contents()
    {
      copy := new MetricPoint[len];
      forall i | 0 <= i < len {
        copy[i] := buf[i];
      }
    }
  }

  /** The series after recording a list of points. */
  function AfterPoints(series: Series, points: seq<MetricPoint>): (r: Series) {
    if points == [] then series
    else
      var before, p := points[..|points| - 1], points[|points| - 1];
      Pruned(AfterPoints(series, before) + [p], p.ts)
  }

  // ---- A whole history ----

  /** One recorded point: which series, the point, and how much room the array gets if it has to grow. */
  datatype Beat = Beat(key: nat, p: MetricPoint, spare: nat)

  /** The points of one series, in order. */
  function PointsOf(beats: seq<Beat>, key: nat): (points: seq<MetricPoint>) {
    if beats == [] then []
    else
      var before, last := PointsOf(beats[..|beats| - 1], key), beats[|beats| - 1];
      if last.key == key then before + [last.p] else before
  }

  /** The series of a host are separate slices on separate arrays. */
  ghost predicate Separate(history: seq<Slice>)
    reads history
  {
    && (forall i :: 0 <= i < |history| ==> history[i].Valid())
    && (forall i, j :: 0 <= i < j < |history| ==> history[i] != history[j] && history[i].buf != history[j].buf)
  }

  /** `cloneMetricHistory`: every series is copied to an array of its own. */
  method CloneHistory(history: seq<Slice>) returns (copies: seq<array<MetricPoint>>)
    requires Separate(history)
    ensures |copies| == |history|
    ensures forall i :: 0 <= i < |copies| ==> fresh(copies[i]) && copies[i][..] == history[i].Contents()
  {
    copies := [];
    for k := 0 to |history|
      invariant |copies| == k
      invariant forall i :: 0 <= i < k ==> fresh(copies[i]) && copies[i][..] == history[i].Contents()
    {
      var copy := history[k].Clone();
      copies := copies + [copy];
    }
  }

  lemma PointsNext(beats: seq<Beat>, n: nat, key: nat, series: Series)
    requires n < |beats|
    ensures AfterPoints(series, PointsOf(beats[..n + 1], key))
         == if beats[n].key == key then Pruned(AfterPoints(series, PointsOf(beats[..n], key)) + [beats[n].p], beats[n].p.ts)
            else AfterPoints(series, PointsOf(beats[..n], key))
  {
    assert beats[..n + 1][..n] == beats[..n];
    var before := PointsOf(beats[..n], key);
    assert (before + [beats[n].p])[..|before|] == before;
  }

  /** One point on one series leaves the other series as they are. */
  method RecordOne(history: seq<Slice>, b: Beat)
    requires Separate(history) && b.key < |history|
    modifies history[b.key], history[b.key].buf
    ensures Separate(history)
    ensures history[b.key].buf == old(history[b.key].buf) || fresh(history[b.key].buf)
    ensures history[b.key].Contents() == Pruned(old(history[b.key].Contents()) + [b.p], b.p.ts)
    ensures forall i :: 0 <= i < |history| && i != b.key ==>
      history[i].buf == old(history[i].buf) && history[i].Contents() == old(history[i].Contents())
  {
    history[b.key].Record(b.p, b.spare);
  }

  /** Heartbeats on all the series, in any mixture and with any growth of the arrays. */
  method RecordAll(history: seq<Slice>, beats: seq<Beat>)
    requires Separate(history) && forall b :: b in beats ==> b.key < |history|
    modifies history, set s | s in history :: s.buf
    ensures Separate(history)
    ensures forall i :: 0 <= i < |history| ==>
      history[i].Contents() == AfterPoints(old(history[i].Contents()), PointsOf(beats, i))
  {
    for n := 0 to |beats|
      invariant Separate(history)
      invariant forall i :: 0 <= i < |history| ==> history[i].buf == old(history[i].buf) || fresh(history[i].buf)
      invariant forall i :: 0 <= i < |history| ==>
        history[i].Contents() == AfterPoints(old(history[i].Contents()), PointsOf(beats[..n], i))
    {
      assert beats[n] in beats;
      RecordOne(history, beats[n]);
      forall i | 0 <= i < |history|
        ensures history[i].Contents() == AfterPoints(old(history[i].Contents()), PointsOf(beats[..n + 1], i))
      {
        PointsNext(beats, n, i, old(history[i].Contents()));
      }
    }
    assert beats[..|beats|] == beats;
  }

  /**
   A copy of a host's whole history is taken, then any number of heartbeats are recorded on its
   series: the copy still shows the state it was taken in.
   */
  method CopySurvivesHeartbeats(history: seq<Slice>, beats: seq<Beat>) returns (copies: seq<array<MetricPoint>>)
    requires Separate(history) && forall b :: b in beats ==> b.key < |history|
    modifies history, set s | s in history :: s.buf
    ensures |copies| == |history|
    ensures forall i :: 0 <= i < |history| ==> fresh(copies[i]) && copies[i][..] == old(history[i].Contents())
    ensures Separate(history) && forall i :: 0 <= i < |history| ==>
      history[i].Contents() == AfterPoints(old(history[i].Contents()), PointsOf(beats, i))
  {
    copies := CloneHistory(history);
    RecordAll(history, beats);
  }
}
