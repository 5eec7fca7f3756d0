/**
  The workers of the renderer: the escape-time count and the colour of one
  pixel, and the worker loop that claims its own units from the shared task
  list, appends the pixels of each to the shared collection and marks the
  unit finished. The threads are run one after another, thread 0 first,
  which is one of the schedules the threaded program can take.
 */
module Render {
  import opened Pixels
  import opened Tasks

  /**
    The render configuration. `escapes` stands for the floating-point orbit:
    escapes(x, y, n) holds when the n-th iterate of the orbit of the point of
    the complex plane that pixel (x, y) maps to has modulus above 2.
   */
  datatype Config = Config(
    imageWidth: nat,
    imageHeight: nat,
    maxIterations: nat,
    numThreads: nat,
    granLevel: nat,
    escapes: (int, int, nat) -> bool)

  /** The red channel of an iteration count; it wraps every 256 iterations and is not clamped. */
  function Red(iter: nat): (red: int)
    ensures 0 <= red <= 765
  {
    (iter % 256) * 3
  }

  /** The green channel of an iteration count; it wraps every 256 iterations and is not clamped. */
  function Green(iter: nat): (green: int)
    ensures 0 <= green <= 3825
  {
    (iter % 256) * 15
  }

  /** The blue channel of an iteration count; it wraps every 256 iterations and is not clamped. */
  function Blue(iter: nat): (blue: int)
    ensures 0 <= blue <= 4335
  {
    (iter % 256) * 17
  }

  /** The colours repeat every 256 iterations: the banding of the image. */
  lemma ColoursWrapAround(iter: nat)
    ensures Red(iter + 256) == Red(iter)
    ensures Green(iter + 256) == Green(iter)
    ensures Blue(iter + 256) == Blue(iter)
  {
  }

  /** The count the iteration loop reaches from `iter` completed steps. */
  function EscapeFrom(cfg: Config, x: int, y: int, iter: nat): nat
    decreases cfg.maxIterations - iter
  {
    if iter >= cfg.maxIterations then iter
    else if cfg.escapes(x, y, iter + 1) then iter + 1
    else EscapeFrom(cfg, x, y, iter + 1)
  }

  /** The iteration count of pixel (x, y). */
  function EscapeTime(cfg: Config, x: int, y: int): nat
  {
    EscapeFrom(cfg, x, y, 0)
  }

  lemma {:induction false} EscapeFromBounds(cfg: Config, x: int, y: int, iter: nat)
    requires iter <= cfg.maxIterations
    ensures var t := EscapeFrom(cfg, x, y, iter);
      && iter <= t <= cfg.maxIterations
      && (iter < cfg.maxIterations ==> iter < t)
      && (forall n :: iter < n < t ==> !cfg.escapes(x, y, n))
      && (t < cfg.maxIterations ==> cfg.escapes(x, y, t))
    decreases cfg.maxIterations - iter
  {
    if iter < cfg.maxIterations && !cfg.escapes(x, y, iter + 1) {
      EscapeFromBounds(cfg, x, y, iter + 1);
    }
  }

  /**
    The iteration count is the first n in 1 .. maxIterations at which the
    orbit escapes, or maxIterations when it never escapes before; so it lies
    in [1, maxIterations] when maxIterations >= 1, and is 0 otherwise.
   */
  lemma EscapeTimeIsFirstEscape(cfg: Config, x: int, y: int)
    ensures var t := EscapeTime(cfg, x, y);
      && t <= cfg.maxIterations
      && (cfg.maxIterations >= 1 ==> 1 <= t)
      && (forall n :: 1 <= n < t ==> !cfg.escapes(x, y, n))
      && (t < cfg.maxIterations ==> cfg.escapes(x, y, t))
  {
    EscapeFromBounds(cfg, x, y, 0);
  }

  /** The pixel a worker computes at (x, y). */
  function PixelAt(cfg: Config, x: int, y: int): DrawPixel
  {
    var iter := EscapeTime(cfg, x, y);
    DrawPixel(x, y, Red(iter), Green(iter), Blue(iter))
  }

  /**
    A point whose orbit never escapes is coloured by the iteration cap: with
    the cap at 255 (the origin of the plane, whose orbit stays at 0, is one)
    the pixel is (765, 3825, 4335).
   */
  lemma NeverEscapingPixel(cfg: Config, x: int, y: int)
    requires cfg.maxIterations == 255
    requires forall n :: !cfg.escapes(x, y, n)
    ensures PixelAt(cfg, x, y) == DrawPixel(x, y, 765, 3825, 4335)
  {
    EscapeTimeIsFirstEscape(cfg, x, y);
  }

  /** The pixels of row y, left to right. */
  function Row(cfg: Config, y: int): seq<DrawPixel>
  {
    seq(cfg.imageWidth, x requires 0 <= x < cfg.imageWidth => PixelAt(cfg, x, y))
  }

  /** The pixels of rows [y0, y1), row after row. */
  function Rows(cfg: Config, y0: int, y1: int): seq<DrawPixel>
    decreases y1 - y0
  {
    if y1 <= y0 then [] else Rows(cfg, y0, y1 - 1) + Row(cfg, y1 - 1)
  }

  /** The whole image in row-major order. */
  function Grid(cfg: Config): seq<DrawPixel>
  {
    Rows(cfg, 0, cfg.imageHeight)
  }

  /** The pixels of one unit. */
  function UnitRows(cfg: Config, task: Task): seq<DrawPixel>
  {
    Rows(cfg, task.yStart, task.yEnd)
  }

  /** The pixels of every unit of the list, in list order. */
  function AllUnits(cfg: Config, ts: seq<Task>): seq<DrawPixel>
  {
    if ts == [] then [] else AllUnits(cfg, ts[..|ts| - 1]) + UnitRows(cfg, ts[|ts| - 1])
  }

  /** The unit is waiting for thread t. */
  predicate Pending(task: Task, t: int)
  {
    task.assignedThread == t && !task.finished
  }

  /** The unit after thread t has run: finished if t owns it, as it was otherwise. */
  function Finish(task: Task, t: int): Task
  {
    if task.assignedThread == t then task.(finished := true) else task
  }

  /** The pixels thread t appends: those of its pending units, in list order. */
  function Work(cfg: Config, ts: seq<Task>, t: int): seq<DrawPixel>
  {
    if ts == [] then []
    else Work(cfg, ts[..|ts| - 1], t) + (if Pending(ts[|ts| - 1], t) then UnitRows(cfg, ts[|ts| - 1]) else [])
  }

  /** The pixels threads 0 .. n-1 append when run one after another. */
  function Schedule(cfg: Config, ts: seq<Task>, n: nat): seq<DrawPixel>
  {
    if n == 0 then [] else Schedule(cfg, ts, n - 1) + Work(cfg, ts, n - 1)
  }

  /** The unit after threads 0 .. n-1 have run: finished if one of them owns it, as it was otherwise. */
  function RunState(task: Task, n: int): Task
  {
    if 0 <= task.assignedThread < n then task.(finished := true) else task
  }

  /** Running thread n after threads 0 .. n-1 gives the state after threads 0 .. n. */
  lemma RunStateStep(task: Task, n: nat)
    ensures Finish(RunState(task, n), n) == RunState(task, n + 1)
  {
  }

  /** The iteration loop for one pixel. */
  method IterationCount(cfg: Config, x: int, y: int) returns (iter: nat)
    ensures iter == EscapeTime(cfg, x, y)
  {
    iter := 0;
    while iter < cfg.maxIterations
      invariant iter <= cfg.maxIterations
      invariant EscapeFrom(cfg, x, y, iter) == EscapeTime(cfg, x, y)
    {
      iter := iter + 1;
      if cfg.escapes(x, y, iter) {
        break;
      }
    }
  }

  /**
    The shared state of a render: the task list, whose entries the workers
    mark finished in place, and the collection the workers append pixels to.
   */
  class Renderer {
    const config: Config
    const threadTasks: array<Task>
    var collectedData: seq<DrawPixel>

    constructor (config: Config, tasks: seq<Task>)
      ensures this.config == config
      ensures fresh(threadTasks) && threadTasks[..] == tasks
      ensures collectedData == []
    {
      this.config := config;
      threadTasks := new Task[|tasks|](k requires 0 <= k < |tasks| => tasks[k]);
      collectedData := [];
    }

    /** The first unit still pending for thread `threadNum`, or the length of the list if there is none. */
    method FindFirst(threadNum: int) returns (k: int)
      ensures 0 <= k <= threadTasks.Length
      ensures k < threadTasks.Length ==> Pending(threadTasks[k], threadNum)
      ensures forall m :: 0 <= m < k ==> !Pending(threadTasks[m], threadNum)
    {
      k := 0;
      while k < threadTasks.Length && !Pending(threadTasks[k], threadNum)
        invariant 0 <= k <= threadTasks.Length
        invariant forall m :: 0 <= m < k ==> !Pending(threadTasks[m], threadNum)
      {
        k := k + 1;
      }
    }

    /** Computes the pixels of row i, left to right, and appends them. */
    method ComputeRow(i: int)
      modifies this
      ensures collectedData == old(collectedData) + Row(config, i)
    {
      for x := 0 to config.imageWidth
        invariant collectedData == old(collectedData) + Row(config, i)[..x]
      {
        var iter := IterationCount(config, x, i);
        var newPixel := DrawPixel(x, i, (iter % 256) * 3, (iter % 256) * 15, (iter % 256) * 17);
        assert Row(config, i)[..x + 1] == Row(config, i)[..x] + [newPixel];
        collectedData := collectedData + [newPixel];
      }
      assert Row(config, i)[..config.imageWidth] == Row(config, i);
    }

    /** Computes the pixels of rows [yStart, yEnd), row by row, and appends them. */
    method ComputeRows(yStart: int, yEnd: int)
      modifies this
      ensures collectedData == old(collectedData) + Rows(config, yStart, yEnd)
    {
      var i := yStart;
      while i < yEnd
        invariant i == yStart || yStart <= i <= yEnd
        invariant collectedData == old(collectedData) + Rows(config, yStart, i)
        decreases yEnd - i
      {
        ComputeRow(i);
        assert Rows(config, yStart, i + 1) == Rows(config, yStart, i) + Row(config, i);
        i := i + 1;
      }
    }

    /**
      Where thread `t`'s worker loop stands at unit `k`: the units before `k`
      are as the thread leaves them, the rest are untouched, unit `k` (if
      any) is the next one pending for it, and the collection holds what it
      had plus the pixels of the thread's pending units before `k`.
     */
    ghost predicate Serving(t: int, k: int, tasks0: seq<Task>, before: seq<DrawPixel>)
      reads this, threadTasks
    {
      && |tasks0| == threadTasks.Length
      && 0 <= k <= threadTasks.Length
      && (forall m :: 0 <= m < k ==> threadTasks[m] == Finish(tasks0[m], t))
      && (forall m :: k <= m < threadTasks.Length ==> threadTasks[m] == tasks0[m])
      && (k < threadTasks.Length ==> Pending(threadTasks[k], t))
      && collectedData == before + Work(config, tasks0[..k], t)
    }

    /**
      One turn of the worker loop: computes the pixels of unit `k`, marks it
      finished and finds the thread's next pending unit.
     */
    method ServeUnit(threadNum: int, k: int, ghost tasks0: seq<Task>, ghost before: seq<DrawPixel>) returns (next: int)
      requires Serving(threadNum, k, tasks0, before) && k < threadTasks.Length
      modifies this, threadTasks
      ensures Serving(threadNum, next, tasks0, before) && k < next
    {
      var task := threadTasks[k];
      ComputeRows(task.yStart, task.yEnd);
      threadTasks[k] := task.(finished := true);
      WorkExtend(config, tasks0, k, threadNum);
      next := FindFirst(threadNum);
      forall m | k + 1 <= m < next
        ensures !Pending(tasks0[m], threadNum)
      {
        assert threadTasks[m] == tasks0[m];
      }
      WorkSkip(config, tasks0, k + 1, next, threadNum);
    }

    /**
      The worker loop of thread `threadNum`: while some unit is pending for
      it, takes the first such unit, computes its pixels and marks it
      finished. Afterwards all its units are finished, no other unit has
      changed, and the pixels of its pending units have been appended in list
      order.
     */
    method FindMandelbrot(threadNum: int)
      modifies this, threadTasks
      ensures forall k :: 0 <= k < threadTasks.Length ==> threadTasks[k] == Finish(old(threadTasks[k]), threadNum)
      ensures collectedData == old(collectedData) + Work(config, old(threadTasks[..]), threadNum)
    {
      ghost var tasks0 := threadTasks[..];
      var k := FindFirst(threadNum);
      WorkSkip(config, tasks0, 0, k, threadNum);
      while k < threadTasks.Length
        invariant Serving(threadNum, k, tasks0, old(collectedData))
        decreases threadTasks.Length - k
      {
        k := ServeUnit(threadNum, k, tasks0, old(collectedData));
      }
      assert tasks0[..threadTasks.Length] == tasks0;
    }

    /**
      Where the run stands after threads 0 .. y-1: each unit is in the state
      those threads leave it in, and the collection holds what it had plus
      what they appended.
     */
    ghost predicate Running(y: nat, tasks0: seq<Task>, before: seq<DrawPixel>)
      reads this, threadTasks
    {
      && |tasks0| == threadTasks.Length
      && (forall k :: 0 <= k < threadTasks.Length ==> threadTasks[k] == RunState(tasks0[k], y))
      && collectedData == before + Schedule(config, tasks0, y)
    }

    /** Runs thread y to completion after threads 0 .. y-1. */
    method RunThread(y: nat, ghost tasks0: seq<Task>, ghost before: seq<DrawPixel>)
      requires Running(y, tasks0, before)
      modifies this, threadTasks
      ensures Running(y + 1, tasks0, before)
    {
      ghost var current := threadTasks[..];
      assert forall k :: 0 <= k < |current| ==> current[k] == RunState(tasks0[k], y);
      WorkFrame(config, current, tasks0, y);
      FindMandelbrot(y);
      forall k | 0 <= k < threadTasks.Length
        ensures threadTasks[k] == RunState(tasks0[k], y + 1)
      {
        RunStateStep(tasks0[k], y);
      }
    }

    /**
      Runs threads 0 .. numThreads-1 one after another, each to completion:
      every unit owned by one of them ends finished, and the collection has
      received what each thread appends, thread by thread.
     */
    method RunWorkers()
      modifies this, threadTasks
      ensures forall k :: 0 <= k < threadTasks.Length ==> threadTasks[k] == RunState(old(threadTasks[k]), config.numThreads)
      ensures collectedData == old(collectedData) + Schedule(config, old(threadTasks[..]), config.numThreads)
    {
      ghost var tasks0 := threadTasks[..];
      for y := 0 to config.numThreads
        invariant Running(y, tasks0, old(collectedData))
      {
        RunThread(y, tasks0, old(collectedData));
      }
    }

  }

  /** Extending the list by one unit extends a thread's work by that unit's pixels if it is pending for the thread. */
  lemma WorkExtend(cfg: Config, s: seq<Task>, k: int, t: int)
    requires 0 <= k < |s|
    ensures Work(cfg, s[..k + 1], t) == Work(cfg, s[..k], t) + (if Pending(s[k], t) then UnitRows(cfg, s[k]) else [])
  {
    assert s[..k + 1][..k] == s[..k];
  }

  /** Units not pending for the thread add nothing to its work. */
  lemma {:induction false} WorkSkip(cfg: Config, s: seq<Task>, a: int, b: int, t: int)
    requires 0 <= a <= b <= |s|
    requires forall m :: a <= m < b ==> !Pending(s[m], t)
    ensures Work(cfg, s[..b], t) == Work(cfg, s[..a], t)
    decreases b - a
  {
    if a < b {
      WorkExtend(cfg, s, b - 1, t);
      WorkSkip(cfg, s, a, b - 1, t);
    }
  }

  /** A thread's work depends only on the units that thread owns. */
  lemma {:induction false} WorkFrame(cfg: Config, s1: seq<Task>, s2: seq<Task>, t: int)
    requires |s1| == |s2|
    requires forall k :: 0 <= k < |s1| && (s1[k].assignedThread == t || s2[k].assignedThread == t) ==> s1[k] == s2[k]
    ensures Work(cfg, s1, t) == Work(cfg, s2, t)
  {
    if s1 != [] {
      var n := |s1| - 1;
      WorkFrame(cfg, s1[..n], s2[..n], t);
    }
  }

  /** Adjacent row ranges concatenate. */
  lemma {:induction false} RowsSplit(cfg: Config, a: int, b: int, c: int)
    requires a <= b <= c
    ensures Rows(cfg, a, b) + Rows(cfg, b, c) == Rows(cfg, a, c)
    decreases c - b
  {
    if b < c {
      RowsSplit(cfg, a, b, c - 1);
    }
  }

  /** Every pixel of row y lies on row y. */
  lemma RowOnItsRow(cfg: Config, y: int)
    ensures |Row(cfg, y)| == cfg.imageWidth
    ensures forall k :: 0 <= k < |Row(cfg, y)| ==> Row(cfg, y)[k].y == y
  {
  }

  lemma LastOfAppend(a: seq<DrawPixel>, b: seq<DrawPixel>)
    requires b != []
    ensures (a + b)[|a + b| - 1] == b[|b| - 1]
  {
  }

  /** With a non-empty width, the last pixel of rows [y0, y1) lies on row y1 - 1. */
  lemma RowsLast(cfg: Config, y0: int, y1: int)
    requires y0 < y1 && cfg.imageWidth > 0
    ensures |Rows(cfg, y0, y1)| > 0 && Rows(cfg, y0, y1)[|Rows(cfg, y0, y1)| - 1].y == y1 - 1
  {
    var before := Rows(cfg, y0, y1 - 1);
    var row := Row(cfg, y1 - 1);
    assert Rows(cfg, y0, y1) == before + row;
    LastOfAppend(before, row);
    assert row[|row| - 1].y == y1 - 1;
  }

  /**
    The pixels of a contiguous list of non-empty units are those of the rows
    from the first unit's start to the last unit's end, in row order.
   */
  lemma {:induction false} AllUnitsOfContiguous(cfg: Config, ts: seq<Task>)
    requires |ts| > 0 && Contiguous(ts)
    requires forall k :: 0 <= k < |ts| ==> ts[k].yStart < ts[k].yEnd
    ensures AllUnits(cfg, ts) == Rows(cfg, ts[0].yStart, ts[|ts| - 1].yEnd)
  {
    var n := |ts|;
    var init := ts[..n - 1];
    if n == 1 {
      assert init == [];
    } else {
      assert Contiguous(init) by {
        forall k | 0 < k < |init| ensures init[k].yStart == init[k - 1].yEnd {
          assert init[k] == ts[k] && init[k - 1] == ts[k - 1];
        }
      }
      AllUnitsOfContiguous(cfg, init);
      ContiguousIsOrdered(ts);
      RowsSplit(cfg, ts[0].yStart, ts[n - 1].yStart, ts[n - 1].yEnd);
    }
  }

  /** A thread that owns no unit appends nothing. */
  lemma {:induction false} WorkOfAbsentThread(cfg: Config, ts: seq<Task>, t: int)
    requires forall k :: 0 <= k < |ts| ==> ts[k].assignedThread != t
    ensures Work(cfg, ts, t) == []
  {
    if ts != [] {
      WorkOfAbsentThread(cfg, ts[..|ts| - 1], t);
    }
  }

  /** Threads beyond every owner add nothing to the schedule. */
  lemma {:induction false} ScheduleBeyondOwners(cfg: Config, ts: seq<Task>, m: nat, n: nat)
    requires m <= n
    requires forall k :: 0 <= k < |ts| ==> ts[k].assignedThread < m
    ensures Schedule(cfg, ts, n) == Schedule(cfg, ts, m)
  {
    if m < n {
      ScheduleBeyondOwners(cfg, ts, m, n - 1);
      WorkOfAbsentThread(cfg, ts, n - 1);
    }
  }

  /** Threads before the owner of the last unit append nothing of it. */
  lemma {:induction false} ScheduleDropLast(cfg: Config, ts: seq<Task>, m: nat)
    requires |ts| > 0 && m <= ts[|ts| - 1].assignedThread
    ensures Schedule(cfg, ts, m) == Schedule(cfg, ts[..|ts| - 1], m)
  {
    if m > 0 {
      ScheduleDropLast(cfg, ts, m - 1);
    }
  }

  /**
    When the units are unfinished, owned by threads 0 .. n-1 and grouped by
    owner in increasing order, running threads 0 .. n-1 one after another
    appends the pixels of every unit in list order.
   */
  lemma {:induction false} ScheduleCoversAll(cfg: Config, ts: seq<Task>, n: nat)
    requires forall k :: 0 <= k < |ts| ==> !ts[k].finished && 0 <= ts[k].assignedThread < n
    requires forall a, b :: 0 <= a <= b < |ts| ==> ts[a].assignedThread <= ts[b].assignedThread
    ensures Schedule(cfg, ts, n) == AllUnits(cfg, ts)
  {
    if ts == [] {
      ScheduleBeyondOwners(cfg, ts, 0, n);
    } else {
      var init := ts[..|ts| - 1];
      var o := ts[|ts| - 1].assignedThread;
      ScheduleOfLastOwner(cfg, ts, n);
      GroupedInit(ts, init, n);
      ScheduleCoversAll(cfg, init, o + 1);
      assert AllUnits(cfg, ts) == AllUnits(cfg, init) + UnitRows(cfg, ts[|ts| - 1]);
    }
  }

  /** Dropping the last unit keeps the units unfinished and grouped, owned below the last owner's successor. */
  lemma GroupedInit(ts: seq<Task>, init: seq<Task>, n: nat)
    requires |ts| > 0 && init == ts[..|ts| - 1]
    requires forall k :: 0 <= k < |ts| ==> !ts[k].finished && 0 <= ts[k].assignedThread < n
    requires forall a, b :: 0 <= a <= b < |ts| ==> ts[a].assignedThread <= ts[b].assignedThread
    ensures forall k :: 0 <= k < |init| ==> !init[k].finished && 0 <= init[k].assignedThread < ts[|ts| - 1].assignedThread + 1
    ensures forall a, b :: 0 <= a <= b < |init| ==> init[a].assignedThread <= init[b].assignedThread
  {
    assert forall k :: 0 <= k < |init| ==> init[k] == ts[k];
  }

  /**
    With owners grouped in increasing order, the threads up to the last
    unit's owner append what they append without that unit, then its pixels.
   */
  lemma ScheduleOfLastOwner(cfg: Config, ts: seq<Task>, n: nat)
    requires |ts| > 0
    requires forall k :: 0 <= k < |ts| ==> !ts[k].finished && 0 <= ts[k].assignedThread < n
    requires forall a, b :: 0 <= a <= b < |ts| ==> ts[a].assignedThread <= ts[b].assignedThread
    ensures Schedule(cfg, ts, n) == Schedule(cfg, ts[..|ts| - 1], ts[|ts| - 1].assignedThread + 1) + UnitRows(cfg, ts[|ts| - 1])
  {
    var init := ts[..|ts| - 1];
    var last := ts[|ts| - 1];
    var o := last.assignedThread;
    ScheduleBeyondOwners(cfg, ts, o + 1, n);
    ScheduleDropLast(cfg, ts, o);
    assert Work(cfg, ts, o) == Work(cfg, init, o) + UnitRows(cfg, last);
  }


  /**
    Running threads 0 .. numThreads-1 over the task list the partitioner
    builds appends the whole image in row-major order; with fewer rows than
    threads there are no units and nothing is appended.
   */
  lemma PartitionRendersGrid(cfg: Config, ts: seq<Task>)
    requires cfg.numThreads >= 1 && cfg.granLevel >= 1
    requires PartitionShape(ts, cfg.imageHeight, cfg.numThreads, cfg.granLevel)
    requires cfg.imageHeight < cfg.numThreads ==> ts == []
    requires cfg.numThreads <= cfg.imageHeight ==> Tiles(ts, cfg.imageHeight)
    ensures Schedule(cfg, ts, cfg.numThreads) == if cfg.numThreads <= cfg.imageHeight then Grid(cfg) else []
  {
    var gran := Granularity(cfg.imageHeight, cfg.numThreads, cfg.granLevel);
    assert forall k :: 0 <= k < |ts| ==> Chunk(ts[k], Closes(ts, k), cfg.imageHeight, cfg.numThreads, gran);
    OwnersNonDecreasing(ts);
    ScheduleCoversAll(cfg, ts, cfg.numThreads);
    if cfg.numThreads <= cfg.imageHeight {
      AllUnitsOfContiguous(cfg, ts);
    }
  }

  lemma {:induction false} RowsLength(cfg: Config, y0: int, y1: int)
    requires y0 <= y1
    ensures |Rows(cfg, y0, y1)| == (y1 - y0) * cfg.imageWidth
    decreases y1 - y0
  {
    if y0 < y1 {
      RowsLength(cfg, y0, y1 - 1);
      MulSucc(y1 - 1 - y0, cfg.imageWidth);
    }
  }

  /** Quotient and remainder are determined by the division identity. */
  lemma DivModOf(i: int, w: nat, q: int, r: int)
    requires w > 0 && 0 <= r < w && i == q * w + r
    ensures i / w == q && i % w == r
  {
    var q', r' := i / w, i % w;
    assert i == q' * w + r';
    if q' < q {
      MulMono(q' + 1, q, w);
      MulSucc(q', w);
    } else if q' > q {
      MulMono(q + 1, q', w);
      MulSucc(q, w);
    }
  }

  lemma ZeroProduct(a: int, b: int)
    ensures a == 0 || b == 0 ==> a * b == 0
  {
  }

  /** Pixel i of rows [y0, y1) is the pixel at column i % width of row y0 + i / width. */
  lemma {:induction false} RowsAt(cfg: Config, y0: int, y1: int, i: int)
    requires y0 <= y1 && 0 <= i < (y1 - y0) * cfg.imageWidth
    ensures |Rows(cfg, y0, y1)| == (y1 - y0) * cfg.imageWidth
    ensures cfg.imageWidth > 0 && Rows(cfg, y0, y1)[i] == PixelAt(cfg, i % cfg.imageWidth, y0 + i / cfg.imageWidth)
    decreases y1 - y0
  {
    var w := cfg.imageWidth;
    RowsLength(cfg, y0, y1);
    ZeroProduct(y1 - y0, w);
    RowsLength(cfg, y0, y1 - 1);
    MulSucc(y1 - 1 - y0, w);
    var before := (y1 - 1 - y0) * w;
    if i < before {
      RowsAt(cfg, y0, y1 - 1, i);
    } else {
      DivModOf(i, w, y1 - 1 - y0, i - before);
    }
  }

  /**
    The image holds height times width pixels, pixel i being the one at
    column i % width of row i / width.
   */
  lemma GridLayout(cfg: Config)
    ensures |Grid(cfg)| == cfg.imageHeight * cfg.imageWidth
    ensures cfg.imageWidth > 0 ==> forall i :: 0 <= i < |Grid(cfg)| ==>
      Grid(cfg)[i] == PixelAt(cfg, i % cfg.imageWidth, i / cfg.imageWidth)
  {
    RowsLength(cfg, 0, cfg.imageHeight);
    forall i | 0 <= i < |Grid(cfg)|
      ensures Grid(cfg)[i] == PixelAt(cfg, i % cfg.imageWidth, i / cfg.imageWidth)
    {
      RowsAt(cfg, 0, cfg.imageHeight, i);
    }
  }

  /** Sequence `g` holds pixel (x, y) of the image at index y * width + x. */
  predicate HoldsPlace(cfg: Config, g: seq<DrawPixel>, x: int, y: int)
  {
    0 <= y * cfg.imageWidth + x < |g| && g[y * cfg.imageWidth + x] == PixelAt(cfg, x, y)
  }

  /** Every place of the image appears in it, at index y * width + x. */
  lemma GridHasEveryPlace(cfg: Config)
    ensures forall x, y :: 0 <= x < cfg.imageWidth && 0 <= y < cfg.imageHeight ==> HoldsPlace(cfg, Grid(cfg), x, y)
  {
    forall x, y | 0 <= x < cfg.imageWidth && 0 <= y < cfg.imageHeight
      ensures HoldsPlace(cfg, Grid(cfg), x, y)
    {
      GridAt(cfg, x, y);
    }
  }

  lemma GridAt(cfg: Config, x: int, y: int)
    requires 0 <= x < cfg.imageWidth && 0 <= y < cfg.imageHeight
    ensures HoldsPlace(cfg, Grid(cfg), x, y)
  {
    var w := cfg.imageWidth;
    var i := y * w + x;
    MulMono(y + 1, cfg.imageHeight, w);
    MulSucc(y, w);
    RowsAt(cfg, 0, cfg.imageHeight, i);
    DivModOf(i, w, y, x);
  }


  lemma DivMonotone(i: int, j: int, w: nat)
    requires w > 0 && 0 <= i <= j
    ensures i / w <= j / w
  {
    var qi, qj := i / w, j / w;
    if qi > qj {
      MulMono(qj + 1, qi, w);
      MulSucc(qj, w);
    }
  }

  /** The image is strictly in row-major order, so no two of its pixels share a place. */
  lemma GridIsStrictlyRowMajor(cfg: Config)
    ensures StrictlyRowMajor(Grid(cfg))
    ensures forall i, j :: 0 <= i < |Grid(cfg)| && 0 <= j < |Grid(cfg)| && i != j ==> !SamePlace(Grid(cfg)[i], Grid(cfg)[j])
  {
    var g := Grid(cfg);
    var w := cfg.imageWidth;
    GridLayout(cfg);
    forall i, j | 0 <= i < j < |g|
      ensures CustomSort(g[i], g[j])
    {
      DivMonotone(i, j, w);
      if i / w == j / w {
        assert i == (i / w) * w + i % w;
        assert j == (j / w) * w + j % w;
      }
    }
    StrictlyRowMajorPlacesAreDistinct(g);
  }

  /**
    The escape count does not depend on how the rows are shared out. This
    holds by construction, since the count never reads the thread count or
    the granularity level; the lemmas below only serve to compare the images
    rendered with different thread counts, a single thread included.
   */
  lemma {:induction false} EscapeFromIgnoresSharing(cfg: Config, threads: nat, level: nat, x: int, y: int, iter: nat)
    ensures EscapeFrom(cfg.(numThreads := threads, granLevel := level), x, y, iter) == EscapeFrom(cfg, x, y, iter)
    decreases cfg.maxIterations - iter
  {
    if iter < cfg.maxIterations && !cfg.escapes(x, y, iter + 1) {
      EscapeFromIgnoresSharing(cfg, threads, level, x, y, iter + 1);
    }
  }

  lemma EscapeTimeIgnoresSharing(cfg: Config, threads: nat, level: nat)
    ensures forall x, y :: EscapeTime(cfg.(numThreads := threads, granLevel := level), x, y) == EscapeTime(cfg, x, y)
  {
    forall x, y
      ensures EscapeTime(cfg.(numThreads := threads, granLevel := level), x, y) == EscapeTime(cfg, x, y)
    {
      EscapeFromIgnoresSharing(cfg, threads, level, x, y, 0);
    }
  }

  lemma {:induction false} RowsIgnoreSharing(cfg: Config, threads: nat, level: nat, y0: int, y1: int)
    ensures Rows(cfg.(numThreads := threads, granLevel := level), y0, y1) == Rows(cfg, y0, y1)
    decreases y1 - y0
  {
    var other := cfg.(numThreads := threads, granLevel := level);
    if y0 < y1 {
      RowsIgnoreSharing(cfg, threads, level, y0, y1 - 1);
      EscapeTimeIgnoresSharing(cfg, threads, level);
      assert Row(other, y1 - 1) == Row(cfg, y1 - 1);
    }
  }

  /**
    The image is the same whatever the thread count and the granularity
    level, so a single thread renders what any number of threads renders.
    Like the lemmas above it holds by construction: it connects the results
    of runs with different thread counts.
   */
  lemma GridIgnoresSharing(cfg: Config, threads: nat, level: nat)
    ensures Grid(cfg.(numThreads := threads, granLevel := level)) == Grid(cfg)
  {
    RowsIgnoreSharing(cfg, threads, level, 0, cfg.imageHeight);
  }
}
