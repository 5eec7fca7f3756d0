/**
  The row-task partitioner: before any worker starts, the image height is
  cut into one band of rows per thread, and each band into work units of
  `granularity` rows, every unit pre-assigned to the thread owning its band.
 */
module Tasks {

  /** A work unit: rows [yStart, yEnd), computed by thread `assignedThread`. */
  datatype Task = Task(finished: bool, assignedThread: int, yStart: int, yEnd: int)

  /** Integer division rounded up. */
  function CeilDiv(a: nat, b: nat): (r: nat)
    requires b > 0
    ensures r * b >= a
    ensures r > 0 ==> (r - 1) * b < a
  {
    (a + b - 1) / b
  }

  /**
    The rows per unit, ceil(imageHeight / numThreads / granLevel), computed
    here without rounding error. It is positive as soon as there are rows.
   */
  function Granularity(imageHeight: nat, numThreads: nat, granLevel: nat): (gran: nat)
    requires numThreads >= 1 && granLevel >= 1
    ensures imageHeight > 0 ==> gran >= 1
    ensures gran * (numThreads * granLevel) >= imageHeight
  {
    CeilDiv(imageHeight, numThreads * granLevel)
  }

  /** The rows of each thread's band, by integer division. */
  function BandHeight(imageHeight: nat, numThreads: nat): nat
    requires numThreads >= 1
  {
    imageHeight / numThreads
  }

  /**
    The row at which thread `i`'s band ends: a multiple of the band height,
    except for the last thread, whose band takes the remainder down to the
    bottom of the image.
   */
  function BandEnd(imageHeight: nat, numThreads: nat, i: int): int
    requires numThreads >= 1
  {
    if i == numThreads - 1 then imageHeight else (i + 1) * BandHeight(imageHeight, numThreads)
  }

  /** Unit `k` is the last of its thread: the next unit, if any, has another owner. */
  predicate Closes(ts: seq<Task>, k: int)
    requires 0 <= k < |ts|
  {
    k == |ts| - 1 || ts[k + 1].assignedThread != ts[k].assignedThread
  }

  /**
    The shape of one unit of the partition. Its offset into its thread's band
    is below the band height; the unit closes its band
    exactly when one more chunk would reach the band's end, and then it runs to
    the band's end; otherwise it is `gran` rows long.
   */
  predicate Chunk(task: Task, closes: bool, imageHeight: nat, numThreads: nat, gran: nat)
    requires numThreads >= 1
  {
    var band := BandHeight(imageHeight, numThreads);
    var offset := task.yStart - task.assignedThread * band;
    && !task.finished
    && 0 <= task.assignedThread < numThreads
    && task.yStart < task.yEnd
    && gran > 0
    && 0 <= offset < band
    && (closes <==> offset + gran >= band)
    && task.yEnd == (if closes then BandEnd(imageHeight, numThreads, task.assignedThread) else task.yStart + gran)
  }

  /** Each unit starts where the previous one ends. */
  predicate Contiguous(ts: seq<Task>)
  {
    forall k :: 0 < k < |ts| ==> ts[k].yStart == ts[k - 1].yEnd
  }

  /** Owners go up by at most one from a unit to the next. */
  predicate OwnersStep(ts: seq<Task>)
  {
    forall k :: 0 < k < |ts| ==>
      ts[k].assignedThread == ts[k - 1].assignedThread || ts[k].assignedThread == ts[k - 1].assignedThread + 1
  }

  /** The units cover rows [0, height) in order: first at 0, each after the previous, last at height. */
  predicate Tiles(ts: seq<Task>, height: int)
  {
    && |ts| > 0
    && ts[0].yStart == 0
    && ts[|ts| - 1].yEnd == height
    && Contiguous(ts)
    && (forall k :: 0 <= k < |ts| ==> ts[k].yStart < ts[k].yEnd)
  }

  /** Everything the partitioner guarantees of its units, whatever the configuration. */
  predicate PartitionShape(ts: seq<Task>, imageHeight: nat, numThreads: nat, granLevel: nat)
    requires numThreads >= 1 && granLevel >= 1
  {
    var gran := Granularity(imageHeight, numThreads, granLevel);
    && Contiguous(ts)
    && OwnersStep(ts)
    && (forall k :: 0 <= k < |ts| ==> Chunk(ts[k], Closes(ts, k), imageHeight, numThreads, gran))
  }

  lemma MulSucc(i: int, band: int)
    ensures (i + 1) * band == i * band + band
  {
  }

  /** The last band reaches at least as far as a full band would. */
  lemma LastBandFits(imageHeight: nat, numThreads: nat)
    requires numThreads >= 1
    ensures (numThreads - 1) * BandHeight(imageHeight, numThreads) + BandHeight(imageHeight, numThreads) <= imageHeight
  {
    MulSucc(numThreads - 1, BandHeight(imageHeight, numThreads));
  }

  /** The unit the loop body builds at offset `g` of thread `i`'s band has the shape of a chunk. */
  lemma NewUnit(imageHeight: nat, numThreads: nat, gran: nat, i: int, g: int, yEnd: int)
    requires numThreads >= 1 && gran > 0 && 0 <= i < numThreads
    requires 0 <= g < BandHeight(imageHeight, numThreads)
    requires yEnd == if g + gran >= BandHeight(imageHeight, numThreads)
      then BandEnd(imageHeight, numThreads, i)
      else i * BandHeight(imageHeight, numThreads) + g + gran
    ensures Chunk(Task(false, i, i * BandHeight(imageHeight, numThreads) + g, yEnd),
                  g + gran >= BandHeight(imageHeight, numThreads), imageHeight, numThreads, gran)
  {
    var band := BandHeight(imageHeight, numThreads);
    MulSucc(i, band);
    if i == numThreads - 1 {
      LastBandFits(imageHeight, numThreads);
    }
  }

  /**
    Appending a unit that starts where the last one ends, owned by the same
    thread or the next, keeps the list contiguous, its owners stepping by at
    most one, and the chunk shape of every unit before the new one.
   */
  lemma AppendUnit(ts: seq<Task>, t: Task, imageHeight: nat, numThreads: nat, gran: nat)
    requires numThreads >= 1
    requires Contiguous(ts) && OwnersStep(ts)
    requires |ts| > 0 ==> t.yStart == ts[|ts| - 1].yEnd
    requires |ts| > 0 ==>
      t.assignedThread == ts[|ts| - 1].assignedThread || t.assignedThread == ts[|ts| - 1].assignedThread + 1
    requires forall k :: 0 <= k < |ts| - 1 ==> Chunk(ts[k], Closes(ts, k), imageHeight, numThreads, gran)
    requires |ts| > 0 ==>
      Chunk(ts[|ts| - 1], ts[|ts| - 1].assignedThread != t.assignedThread, imageHeight, numThreads, gran)
    ensures Contiguous(ts + [t]) && OwnersStep(ts + [t])
    ensures forall k :: 0 <= k < |ts| ==> Chunk((ts + [t])[k], Closes(ts + [t], k), imageHeight, numThreads, gran)
  {
    AppendKeepsLinks(ts, t);
    forall k | 0 <= k < |ts|
      ensures Chunk((ts + [t])[k], Closes(ts + [t], k), imageHeight, numThreads, gran)
    {
      assert (ts + [t])[k] == ts[k];
      if k < |ts| - 1 {
        assert (ts + [t])[k + 1] == ts[k + 1];
        assert Closes(ts + [t], k) == Closes(ts, k);
      } else {
        assert Closes(ts + [t], k) == (ts[|ts| - 1].assignedThread != t.assignedThread);
      }
    }
  }

  /** Appending a unit adjacent to the last one, owned by the same thread or the next, keeps the links between units. */
  lemma AppendKeepsLinks(ts: seq<Task>, t: Task)
    requires Contiguous(ts) && OwnersStep(ts)
    requires |ts| > 0 ==> t.yStart == ts[|ts| - 1].yEnd
    requires |ts| > 0 ==>
      t.assignedThread == ts[|ts| - 1].assignedThread || t.assignedThread == ts[|ts| - 1].assignedThread + 1
    ensures Contiguous(ts + [t]) && OwnersStep(ts + [t])
  {
    var r := ts + [t];
    forall k | 0 < k < |r|
      ensures r[k].yStart == r[k - 1].yEnd
      ensures r[k].assignedThread == r[k - 1].assignedThread || r[k].assignedThread == r[k - 1].assignedThread + 1
    {
      assert r[k - 1] == ts[k - 1];
      if k < |ts| {
        assert r[k] == ts[k];
      }
    }
  }

  /**
    Where the partitioner stands once the bands of threads 0 .. i-1 are cut:
    the cursor `j` is at the end of the last band made (the bottom of the
    image after the last thread), `controlPoint` at the end of the next band,
    and the units so far have the shape of the finished partition.
   */
  predicate BandsDone(ts: seq<Task>, i: int, j: int, controlPoint: int, imageHeight: nat, numThreads: nat, gran: nat)
    requires numThreads >= 1
  {
    var band := BandHeight(imageHeight, numThreads);
    && 0 <= i <= numThreads
    && j == (if i == numThreads && band > 0 then imageHeight else i * band)
    && controlPoint == (if i < numThreads then i * band + band else i * band)
    && (band == 0 ==> ts == [])
    && (band > 0 && i > 0 ==> |ts| > 0)
    && (|ts| > 0 ==>
          && ts[0].yStart == 0
          && ts[0].assignedThread == 0
          && ts[|ts| - 1].yEnd == j
          && ts[|ts| - 1].assignedThread == i - 1)
    && Contiguous(ts)
    && OwnersStep(ts)
    && (forall k :: 0 <= k < |ts| ==> Chunk(ts[k], Closes(ts, k), imageHeight, numThreads, gran))
  }

  /**
    Where the inner loop of the partitioner stands at offset `g` of thread
    `i`'s band: before the first unit nothing has changed since `tasks0`;
    while inside the band the cursor `j` is at offset `g`; once past the band
    it is at the band's end and `controlPoint` at the end of the next band.
   */
  predicate Slicing(ts: seq<Task>, tasks0: seq<Task>, i: int, g: int, j: int, controlPoint: int,
                    imageHeight: nat, numThreads: nat, gran: nat)
    requires numThreads >= 1
  {
    var band := BandHeight(imageHeight, numThreads);
    && 0 <= i < numThreads
    && 0 <= g
    && (band > 0 ==> gran > 0)
    && (g == 0 ==> ts == tasks0 && j == i * band && controlPoint == i * band + band)
    && (g < band ==> j == i * band + g && controlPoint == i * band + band)
    && (g >= band && band > 0 ==>
          && j == BandEnd(imageHeight, numThreads, i)
          && controlPoint == if i == numThreads - 1 then i * band + band else i * band + band + band)
    && (g > 0 ==> |ts| > 0 && ts[|ts| - 1].assignedThread == i)
    && (band > 0 && ts == [] ==> i == 0)
    && (|ts| > 0 ==> ts[0].yStart == 0 && ts[0].assignedThread == 0)
    && (|ts| > 0 ==> ts[|ts| - 1].yEnd == j)
    && (|ts| > 0 ==> ts[|ts| - 1].assignedThread == i || ts[|ts| - 1].assignedThread == i - 1)
    && Contiguous(ts)
    && OwnersStep(ts)
    && (forall k :: 0 <= k < |ts| - 1 ==> Chunk(ts[k], Closes(ts, k), imageHeight, numThreads, gran))
    && (|ts| > 0 ==>
          Chunk(ts[|ts| - 1], ts[|ts| - 1].assignedThread != i || g >= band, imageHeight, numThreads, gran))
  }

  /**
    One iteration of the inner loop: the unit at offset `g` runs `gran` rows,
    or to the band's end when one more chunk would reach it (to the bottom
    of the image for the last thread, which also absorbs the remainder).
   */
  method CutUnit(imageHeight: nat, numThreads: nat, gran: nat, i: int, g: int,
                 tasks0: seq<Task>, ts: seq<Task>, j0: int, controlPoint0: int)
    returns (tasks: seq<Task>, j: int, controlPoint: int)
    requires numThreads >= 1 && g < BandHeight(imageHeight, numThreads)
    requires Slicing(ts, tasks0, i, g, j0, controlPoint0, imageHeight, numThreads, gran)
    ensures Slicing(tasks, tasks0, i, g + gran, j, controlPoint, imageHeight, numThreads, gran)
    ensures tasks == ts + [Task(false, i, j0, j)]
  {
    var band := BandHeight(imageHeight, numThreads);
    MulSucc(i, band);
    j, controlPoint := j0, controlPoint0;
    var yStart := j;
    if i == numThreads - 1 && g + gran >= band {
      j := imageHeight;
    } else if g + gran >= band {
      j := controlPoint;
      controlPoint := controlPoint + band;
    } else {
      j := j + gran;
    }
    NewUnit(imageHeight, numThreads, gran, i, g, j);
    var task := Task(false, i, yStart, j);
    AppendUnit(ts, task, imageHeight, numThreads, gran);
    tasks := ts + [task];
  }

  /** Once the inner loop has passed the band, the bands up to thread i are done. */
  lemma SlicingDone(ts: seq<Task>, tasks0: seq<Task>, i: int, g: int, j: int, controlPoint: int,
                    imageHeight: nat, numThreads: nat, gran: nat)
    requires numThreads >= 1
    requires Slicing(ts, tasks0, i, g, j, controlPoint, imageHeight, numThreads, gran)
    requires g >= BandHeight(imageHeight, numThreads)
    requires BandHeight(imageHeight, numThreads) == 0 ==> BandsDone(tasks0, i, j, controlPoint, imageHeight, numThreads, gran)
    ensures BandsDone(ts, i + 1, j, controlPoint, imageHeight, numThreads, gran)
  {
    MulSucc(i, BandHeight(imageHeight, numThreads));
  }

  /**
    One pass of the inner loop of the partitioner: cuts thread `i`'s band into
    units of `gran` rows, the last stretched to the band's end, and appends
    them.
   */
  method SliceBand(imageHeight: nat, numThreads: nat, gran: nat, i: int, tasks0: seq<Task>, j0: int, controlPoint0: int)
    returns (tasks: seq<Task>, j: int, controlPoint: int)
    requires numThreads >= 1 && 0 <= i < numThreads
    requires BandHeight(imageHeight, numThreads) > 0 ==> gran > 0
    requires BandsDone(tasks0, i, j0, controlPoint0, imageHeight, numThreads, gran)
    ensures BandsDone(tasks, i + 1, j, controlPoint, imageHeight, numThreads, gran)
    ensures |tasks0| <= |tasks| && tasks[..|tasks0|] == tasks0
  {
    var band := BandHeight(imageHeight, numThreads);
    MulSucc(i, band);
    tasks, j, controlPoint := tasks0, j0, controlPoint0;
    var g := 0;
    while g < band
      invariant Slicing(tasks, tasks0, i, g, j, controlPoint, imageHeight, numThreads, gran)
      invariant g == 0 ==> j == j0 && controlPoint == controlPoint0
      invariant |tasks0| <= |tasks| && tasks[..|tasks0|] == tasks0
      decreases band - g
    {
      ghost var before := tasks;
      tasks, j, controlPoint := CutUnit(imageHeight, numThreads, gran, i, g, tasks0, tasks, j, controlPoint);
      assert tasks[..|tasks0|] == before[..|tasks0|];
      g := g + gran;
    }
    SlicingDone(tasks, tasks0, i, g, j, controlPoint, imageHeight, numThreads, gran);
  }

  /**
    Builds the task list. With at least one row per thread the units tile
    [0, imageHeight), the first owned by thread 0 and the last by the last
    thread; with fewer rows than threads every band is empty and no unit is
    made.
   */
  method BuildTasks(imageHeight: nat, numThreads: nat, granLevel: nat) returns (tasks: seq<Task>)
    requires numThreads >= 1 && granLevel >= 1
    ensures PartitionShape(tasks, imageHeight, numThreads, granLevel)
    ensures imageHeight < numThreads ==> tasks == []
    ensures numThreads <= imageHeight ==>
      && Tiles(tasks, imageHeight)
      && tasks[0].assignedThread == 0
      && tasks[|tasks| - 1].assignedThread == numThreads - 1
  {
    var band := BandHeight(imageHeight, numThreads);
    var gran := Granularity(imageHeight, numThreads, granLevel);
    assert imageHeight < numThreads ==> band == 0;
    assert numThreads <= imageHeight ==> band > 0;
    tasks := [];
    var j := 0;
    var controlPoint := band;
    for i := 0 to numThreads
      invariant BandsDone(tasks, i, j, controlPoint, imageHeight, numThreads, gran)
    {
      tasks, j, controlPoint := SliceBand(imageHeight, numThreads, gran, i, tasks, j, controlPoint);
    }
  }

  /** Row `r` belongs to the unit. */
  predicate Contains(task: Task, r: int)
  {
    task.yStart <= r < task.yEnd
  }

  /** Owners never go down along the list: a thread's units are consecutive. */
  lemma {:induction false} OwnersNonDecreasing(ts: seq<Task>)
    requires OwnersStep(ts)
    ensures forall a, b :: 0 <= a <= b < |ts| ==> ts[a].assignedThread <= ts[b].assignedThread
  {
    if |ts| > 1 {
      var init := ts[..|ts| - 1];
      assert OwnersStep(init) by {
        forall k | 0 < k < |init|
          ensures init[k].assignedThread == init[k - 1].assignedThread || init[k].assignedThread == init[k - 1].assignedThread + 1
        {
          assert init[k] == ts[k] && init[k - 1] == ts[k - 1];
        }
      }
      OwnersNonDecreasing(init);
      forall a, b | 0 <= a <= b < |ts|
        ensures ts[a].assignedThread <= ts[b].assignedThread
      {
        if b < |ts| - 1 {
          assert init[a] == ts[a] && init[b] == ts[b];
        } else if a < b {
          assert init[a] == ts[a] && init[b - 1] == ts[b - 1];
        }
      }
    }
  }

  lemma {:induction false} OwnerReached(ts: seq<Task>, n: int, i: int)
    requires OwnersStep(ts) && 0 <= n < |ts|
    requires ts[0].assignedThread <= i <= ts[n].assignedThread
    ensures exists k :: 0 <= k <= n && ts[k].assignedThread == i
  {
    if n > 0 && i < ts[n].assignedThread {
      OwnerReached(ts, n - 1, i);
    }
  }

  /** Thread `i` owns at least one unit. */
  predicate Owns(ts: seq<Task>, i: int)
  {
    exists k :: 0 <= k < |ts| && ts[k].assignedThread == i
  }

  /** When the owners run from thread 0 to the last thread in steps of one, every thread owns a unit. */
  lemma EveryThreadOwnsAUnit(ts: seq<Task>, numThreads: nat)
    requires OwnersStep(ts) && |ts| > 0
    requires ts[0].assignedThread == 0 && ts[|ts| - 1].assignedThread == numThreads - 1
    ensures forall i :: 0 <= i < numThreads ==> Owns(ts, i)
  {
    forall i | 0 <= i < numThreads
      ensures Owns(ts, i)
    {
      OwnerReached(ts, |ts| - 1, i);
    }
  }

  /** Along a contiguous list of non-empty units, every unit ends no later than any later one starts. */
  lemma {:induction false} ContiguousIsOrdered(ts: seq<Task>)
    requires Contiguous(ts)
    requires forall k :: 0 <= k < |ts| ==> ts[k].yStart < ts[k].yEnd
    ensures forall a, b :: 0 <= a < b < |ts| ==> ts[a].yEnd <= ts[b].yStart
  {
    if |ts| > 1 {
      var init := ts[..|ts| - 1];
      assert Contiguous(init) by {
        forall k | 0 < k < |init| ensures init[k].yStart == init[k - 1].yEnd {
          assert init[k] == ts[k] && init[k - 1] == ts[k - 1];
        }
      }
      ContiguousIsOrdered(init);
      forall a, b | 0 <= a < b < |ts|
        ensures ts[a].yEnd <= ts[b].yStart
      {
        assert init[a] == ts[a];
        if b < |ts| - 1 {
          assert init[b] == ts[b];
        } else if a < b - 1 {
          assert init[b - 1] == ts[b - 1];
        }
      }
    }
  }

  lemma {:induction false} CoveredUpTo(ts: seq<Task>, n: int, r: int)
    requires Contiguous(ts) && 0 <= n < |ts|
    requires ts[0].yStart <= r < ts[n].yEnd
    ensures exists k :: 0 <= k <= n && Contains(ts[k], r)
  {
    if n > 0 && r < ts[n].yStart {
      CoveredUpTo(ts, n - 1, r);
    }
  }

  /** Row `r` belongs to some unit. */
  predicate Covered(ts: seq<Task>, r: int)
  {
    exists k :: 0 <= k < |ts| && Contains(ts[k], r)
  }

  /**
    Units that tile [0, height) hold every row of the image in exactly one
    unit, and no row outside it.
   */
  lemma TilesCoverEachRowOnce(ts: seq<Task>, height: int)
    requires Tiles(ts, height)
    ensures forall r :: Covered(ts, r) <==> 0 <= r < height
    ensures forall k1, k2, r :: 0 <= k1 < |ts| && 0 <= k2 < |ts| && Contains(ts[k1], r) && Contains(ts[k2], r) ==> k1 == k2
  {
    ContiguousIsOrdered(ts);
    forall r | 0 <= r < height
      ensures Covered(ts, r)
    {
      CoveredUpTo(ts, |ts| - 1, r);
    }
    forall k, r | 0 <= k < |ts| && Contains(ts[k], r)
      ensures 0 <= r < height
    {
      assert ts[0].yStart <= ts[k].yStart;
      assert ts[k].yEnd <= ts[|ts| - 1].yEnd;
    }
  }

  lemma {:induction false} MulMono(a: int, b: int, c: nat)
    requires a <= b
    ensures a * c <= b * c
    decreases b - a
  {
    if a < b {
      MulMono(a, b - 1, c);
      MulSucc(b - 1, c);
    }
  }

  /** Every unit lies in its own thread's band. */
  lemma UnitInsideBand(task: Task, closes: bool, imageHeight: nat, numThreads: nat, gran: nat)
    requires numThreads >= 1
    requires Chunk(task, closes, imageHeight, numThreads, gran)
    ensures task.assignedThread * BandHeight(imageHeight, numThreads) <= task.yStart
    ensures task.yEnd <= BandEnd(imageHeight, numThreads, task.assignedThread)
  {
    MulSucc(task.assignedThread, BandHeight(imageHeight, numThreads));
    if task.assignedThread == numThreads - 1 {
      LastBandFits(imageHeight, numThreads);
    }
  }

  /** Every thread's band lies in the image. */
  lemma BandInsideImage(imageHeight: nat, numThreads: nat, i: int)
    requires 0 <= i < numThreads
    ensures 0 <= i * BandHeight(imageHeight, numThreads)
    ensures BandEnd(imageHeight, numThreads, i) <= imageHeight
  {
    var band := BandHeight(imageHeight, numThreads);
    MulMono(0, i, band);
    MulMono(i + 1, numThreads, band);
    LastBandFits(imageHeight, numThreads);
    MulSucc(numThreads - 1, band);
  }

  /** Row `r` belongs to a unit of thread `i`. */
  predicate OwnedRow(ts: seq<Task>, i: int, r: int)
  {
    exists k :: 0 <= k < |ts| && ts[k].assignedThread == i && Contains(ts[k], r)
  }

  /** No row lies in two bands. */
  lemma BandsAreDisjoint(imageHeight: nat, numThreads: nat, o: int, i: int, r: int)
    requires 0 <= o < numThreads && 0 <= i < numThreads
    requires o * BandHeight(imageHeight, numThreads) <= r < BandEnd(imageHeight, numThreads, o)
    requires i * BandHeight(imageHeight, numThreads) <= r < BandEnd(imageHeight, numThreads, i)
    ensures o == i
  {
    var band := BandHeight(imageHeight, numThreads);
    if o < i {
      MulMono(o + 1, i, band);
      MulSucc(o, band);
    } else if o > i {
      MulMono(i + 1, o, band);
      MulSucc(i, band);
    }
  }

  /** A row of a band lies in a unit of that band's thread. */
  lemma BandRowIsOwned(ts: seq<Task>, imageHeight: nat, numThreads: nat, gran: nat, i: int, r: int)
    requires numThreads >= 1 && 0 <= i < numThreads
    requires forall k :: 0 <= k < |ts| ==> Chunk(ts[k], Closes(ts, k), imageHeight, numThreads, gran)
    requires Tiles(ts, imageHeight)
    requires i * BandHeight(imageHeight, numThreads) <= r < BandEnd(imageHeight, numThreads, i)
    ensures OwnedRow(ts, i, r)
  {
    var band := BandHeight(imageHeight, numThreads);
    BandInsideImage(imageHeight, numThreads, i);
    TilesCoverEachRowOnce(ts, imageHeight);
    assert Covered(ts, r);
    var k :| 0 <= k < |ts| && Contains(ts[k], r);
    UnitInsideBand(ts[k], Closes(ts, k), imageHeight, numThreads, gran);
    BandsAreDisjoint(imageHeight, numThreads, ts[k].assignedThread, i, r);
  }

  /**
    The units of thread `i` hold exactly the rows of its band: from i times
    the band height up to the next multiple, or to the bottom edge of the
    image for the last thread, which takes the remainder.
   */
  lemma ThreadShare(ts: seq<Task>, imageHeight: nat, numThreads: nat, granLevel: nat, i: int)
    requires numThreads >= 1 && granLevel >= 1 && 0 <= i < numThreads
    requires PartitionShape(ts, imageHeight, numThreads, granLevel) && Tiles(ts, imageHeight)
    ensures forall r :: OwnedRow(ts, i, r) <==>
      i * BandHeight(imageHeight, numThreads) <= r < BandEnd(imageHeight, numThreads, i)
  {
    var gran := Granularity(imageHeight, numThreads, granLevel);
    forall r | OwnedRow(ts, i, r)
      ensures i * BandHeight(imageHeight, numThreads) <= r < BandEnd(imageHeight, numThreads, i)
    {
      var k :| 0 <= k < |ts| && ts[k].assignedThread == i && Contains(ts[k], r);
      UnitInsideBand(ts[k], Closes(ts, k), imageHeight, numThreads, gran);
    }
    forall r | i * BandHeight(imageHeight, numThreads) <= r < BandEnd(imageHeight, numThreads, i)
      ensures OwnedRow(ts, i, r)
    {
      BandRowIsOwned(ts, imageHeight, numThreads, gran, i, r);
    }
  }

  /** When a unit is at least a band high, every thread's band is a single unit. */
  lemma CoarseGranularity(ts: seq<Task>, imageHeight: nat, numThreads: nat, granLevel: nat)
    requires numThreads >= 1 && granLevel >= 1
    requires PartitionShape(ts, imageHeight, numThreads, granLevel)
    requires Granularity(imageHeight, numThreads, granLevel) >= BandHeight(imageHeight, numThreads)
    ensures forall k :: 0 < k < |ts| ==> ts[k].assignedThread == ts[k - 1].assignedThread + 1
  {
    forall k | 0 < k < |ts|
      ensures ts[k].assignedThread == ts[k - 1].assignedThread + 1
    {
      assert Chunk(ts[k - 1], Closes(ts, k - 1), imageHeight, numThreads, Granularity(imageHeight, numThreads, granLevel));
    }
  }
}
