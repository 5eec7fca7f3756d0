# Multithreaded escape-time renderer, modelled in Dafny

The program renders an escape-time fractal into a plain PPM image, computing
it on several threads. Before any thread starts, the image height is cut
into one band of rows per thread. Each band is cut into work units of
`granularity` rows, and every unit is pre-assigned to the thread that owns
its band. Each worker repeats a simple loop: find its first unfinished unit,
compute every pixel of that unit's rows, append the pixels to a shared
collection, and mark the unit finished. Once all threads have joined, the
collection is sorted by row and then by column. The image is then written in
the "P3" plain PPM format (Netpbm ppm(5), "Plain PPM"), with one text line
per image row.

The model is split into five modules, one per file:

- `Pixels` (`pixels.dfy`) holds the pixel record and the `CustomSort`
  comparator. The sort is modelled as a function whose result is an ordered
  permutation of its input.
- `Tasks` (`tasks.dfy`) holds the work unit record and the partitioner. The
  partitioner is an imperative method with the source's two nested loops and
  its three branches.
- `Render` (`render.dfy`) holds the escape-time count, the colour rule and a
  `Renderer` class. The class owns the task list (an `array` that is updated
  in place) and the collection (a `seq` that is appended to). Its methods are
  the worker loop and the run of all workers. Specification functions beside
  it say which pixels a thread and a whole run append.
- `Ppm` (`ppm.dfy`) holds the serializer as pure functions, plus decimal
  printing of ints with its parser.
- `Mandelbrot` (`mandelbrot.dfy`) is the whole pipeline: partition, run,
  sort, write.

The main results:

- **Partition.** With `1 <= numThreads <= imageHeight`, the units tile rows
  `[0, imageHeight)`. Every row lies in exactly one unit. Owners run from 0
  to `numThreads-1` and never decrease. Thread `i` owns exactly the rows
  `[i*(H/T), (i+1)*(H/T))`, except the last thread, whose band ends at `H`.
- **Workers.** After thread `t` runs, its units are finished and nothing
  else has changed. The pixels it appended are exactly those of its units,
  row by row, in list order.
- **Whole image.** Running all threads yields the `W*H` pixels of the image
  in row-major order, with every place present exactly once.
- **Sort.** The comparator is a strict weak order. Because no two pixels
  share a place, the sorted collection is uniquely determined, so the output
  does not depend on the order the threads appended in.
- **File.** The file is the header `P3`, `W H`, `256`, followed by one line
  per row holding that row's `W` triplets.

## Model

| member | source | states |
|---|---|---|
| Pixels.CustomSort | main.cpp:54-61 | The comparator: the pixel on the earlier row comes first, and on the same row the one with the smaller column. |
| Pixels.CustomSortIsStrictWeakOrder | main.cpp:54-61 | The comparator is irreflexive, asymmetric and transitive. Two pixels are incomparable exactly when they stand at the same place. It is the lexicographic order on (y, x). |
| Pixels.StrictlyRowMajorPlacesAreDistinct | main.cpp:54-61 | A sequence in which each pixel comes strictly before the next has no two pixels at the same place, and is sorted. |
| Pixels.Insert | main.cpp:169 | Inserting a pixel into a sorted sequence keeps it sorted. The result is the old contents plus that pixel, as a multiset. |
| Pixels.PrependKeepsOrder | main.cpp:169 | Putting a pixel that no later pixel comes before at the front of a sorted sequence keeps it sorted. |
| Pixels.NoneBeforeFirst | main.cpp:169 | When the first pixel of a sorted sequence comes before `p`, neither `p` nor any later pixel comes before that first pixel. |
| Pixels.SortPixels | main.cpp:169 | The sort's result is sorted by the comparator and is a permutation of its input. |
| Pixels.FirstOfOrderedPermutation | main.cpp:169 | A sorted permutation of a strictly ordered sequence starts with that sequence's first pixel. |
| Pixels.OrderedPermutationIsUnique | main.cpp:169 | A sorted permutation of a strictly ordered sequence is that sequence, so the sort's result does not depend on the input order. |
| Tasks.CeilDiv | main.cpp:21 | The result is the least multiple count covering the dividend: r*b >= a and (r-1)*b < a. |
| Tasks.Granularity | main.cpp:21 | The rows per unit are at least 1 when there are rows, and T*G units of that size cover the height. |
| Tasks.BandHeight | main.cpp:121-135 | The rows of each thread's band, `imageHeight / numThreads` in integer division. |
| Tasks.BandEnd | main.cpp:129-135 | Where thread i's band ends: `(i+1)` band heights, or `imageHeight` for the last thread. |
| Tasks.SliceBand | main.cpp:124-142 | Slicing band i extends a list that satisfies the partition invariant for bands before i into one that satisfies it for bands up to i. The earlier units are kept as a prefix. The cursor ends where band i ends. |
| Tasks.CutUnit | main.cpp:125-141 | One inner-loop step appends the unit `[j, new j)` of thread i to the list, keeping every earlier unit, and keeps the slicing invariant. The new unit runs `gran` rows, or to the band end (the image bottom for the last thread) when one more chunk would reach it, and `controlPoint` then moves one band on. |
| Tasks.SlicingDone | main.cpp:124-142 | Once the inner loop has passed the band, the bands up to thread i are done. |
| Tasks.AppendUnit | main.cpp:141 | Appending a unit adjacent to the last one, owned by the same thread or the next, keeps the list contiguous with owners stepping by at most one. It keeps every earlier unit a chunk. |
| Tasks.AppendKeepsLinks | main.cpp:141 | The same append keeps contiguity and the owner steps. |
| Tasks.BuildTasks | main.cpp:119-143 | The units are contiguous and their owners step by 0 or 1. Each unit is a `gran`-row chunk of its owner's band, or the band's closing chunk reaching the band end. With H < T there are no units. With T <= H the units tile [0, H), the first is owned by thread 0 and the last by thread T-1. |
| Tasks.OwnersNonDecreasing | main.cpp:123-126 | Unit owners never decrease along the list. |
| Tasks.EveryThreadOwnsAUnit | main.cpp:123-141 | Every thread 0..T-1 owns at least one unit. |
| Tasks.ContiguousIsOrdered | main.cpp:127-140 | Every unit ends at or before the start of every later unit. |
| Tasks.TilesCoverEachRowOnce | main.cpp:119-143 | A row lies in some unit if and only if it is in [0, H), and no two units contain the same row. |
| Tasks.UnitInsideBand | main.cpp:127-140 | Every unit lies inside its owner's band. |
| Tasks.BandInsideImage | main.cpp:121-135 | Every band starts at row 0 or later and ends at row H or earlier. |
| Tasks.BandsAreDisjoint | main.cpp:121-135 | No row lies in two threads' bands. |
| Tasks.BandRowIsOwned | main.cpp:121-141 | Every row of thread i's band lies in a unit owned by i. |
| Tasks.ThreadShare | main.cpp:121-135 | Thread i owns a row if and only if it lies in [i*(H/T), (i+1)*(H/T)), or in [(T-1)*(H/T), H) for the last thread, which absorbs the remainder. |
| Tasks.CoarseGranularity | main.cpp:124-135 | When the granularity is at least the band height, each band is a single unit. |
| Render.Red | main.cpp:103 | The red channel lies in [0, 765]. |
| Render.Green | main.cpp:104 | The green channel lies in [0, 3825]. |
| Render.Blue | main.cpp:105 | The blue channel lies in [0, 4335]. |
| Render.ColoursWrapAround | main.cpp:103-105 | The colours repeat every 256 iterations. |
| Render.EscapeFrom | main.cpp:86-97 | The loop's count from `iter` completed steps: it stops at the cap, or one step on when that step escapes. |
| Render.EscapeTime | main.cpp:86-97 | The loop's count from 0, as the worker computes it for each pixel. |
| Render.PixelAt | main.cpp:100-105 | The pixel at (x, y), coloured from its escape count by the three channel rules. |
| Render.EscapeFromBounds | main.cpp:86-97 | Counting on from `iter` stops at or before the cap. No escape happens before the stop. Stopping below the cap means the orbit escaped there. |
| Render.EscapeTimeIsFirstEscape | main.cpp:86-97 | The count is in [1, maxIterations] when the cap is at least 1. It is the first n at which the orbit escapes, or the cap if it never does. |
| Render.NeverEscapingPixel | main.cpp:86-105 | With cap 255, a never-escaping point has colour (765, 3825, 4335). |
| Render.IterationCount | main.cpp:86-97 | The iteration loop with its early exit returns the escape time. |
| Render.Renderer.constructor | main.cpp:48-49 | The shared task list holds the given units and the collection starts empty. |
| Render.Renderer.FindFirst | main.cpp:78 | The search returns the first unit pending for the thread, or the list length if there is none. |
| Render.Renderer.ServeUnit | main.cpp:78-113 | One turn of the worker loop computes the unit's pixels, marks it finished and finds the next pending unit. It keeps the worker invariant and moves strictly forward. |
| Render.Renderer.ComputeRow | main.cpp:80-110 | One row appends its W pixels left to right, each with its escape-time colour. |
| Render.Renderer.ComputeRows | main.cpp:79-111 | A unit's rows append their pixels row by row. |
| Render.Renderer.FindMandelbrot | main.cpp:76-115 | Afterwards every unit of the thread is finished and every other unit is unchanged, bounds included. The collection has received the pixels of the thread's pending units, in list order. |
| Render.Renderer.RunWorkers | main.cpp:152-160 | After threads 0..T-1 run in turn, each unit they own is finished and the rest are unchanged (`RunState`). The collection has received every thread's pixels, thread by thread. |
| Render.Renderer.RunThread | main.cpp:152-155 | Running thread y to completion after threads 0..y-1 gives the task states and the collection after threads 0..y. |
| Render.RunStateStep | main.cpp:152-155 | Running thread n after threads 0..n-1 gives the task state after threads 0..n. |
| Render.WorkExtend | main.cpp:78-113 | One more unit adds its pixels to a thread's work exactly when the unit is pending for that thread. |
| Render.WorkSkip | main.cpp:78 | Units not pending for a thread add nothing to its work. |
| Render.WorkFrame | main.cpp:78-113 | A thread's work depends only on its own units, so another thread finishing its units does not change it. |
| Render.RowsSplit | main.cpp:79-111 | Adjacent row ranges concatenate. |
| Render.AllUnitsOfContiguous | main.cpp:79-111 | The pixels of contiguous units are the pixels of the rows from the first start to the last end. |
| Render.WorkOfAbsentThread | main.cpp:78 | A thread owning no unit appends nothing. |
| Render.ScheduleBeyondOwners | main.cpp:152-155 | Threads numbered above every owner append nothing. |
| Render.ScheduleDropLast | main.cpp:152-155 | Threads before the last unit's owner do not append its pixels. |
| Render.ScheduleCoversAll | main.cpp:152-160 | For unfinished units whose owners are below T and grouped in increasing order, the run of all threads appends every unit's pixels in list order. |
| Render.ScheduleOfLastOwner | main.cpp:152-160 | With owners grouped in increasing order, the threads up to the last unit's owner append their pixels without that unit first, then its pixels. |
| Render.PartitionRendersGrid | main.cpp:119-160 | On the partitioner's units, the run of all threads appends the whole image in row-major order. With more threads than rows it appends nothing. |
| Render.RowsLength | main.cpp:79-110 | Rows [y0, y1) hold (y1-y0)*W pixels. |
| Render.RowsAt | main.cpp:79-110 | Pixel i of rows [y0, y1) is the pixel at column i % W of row y0 + i / W. |
| Render.GridLayout | main.cpp:79-110 | The image holds H*W pixels, pixel i being at column i % W of row i / W. |
| Render.GridHasEveryPlace | main.cpp:79-110 | Every place (x, y) of the grid appears, at index y*W + x, with its computed colour. |
| Render.GridAt | main.cpp:79-110 | Pixel (x, y) of the image sits at index y*W + x. |
| Render.RowOnItsRow | main.cpp:80-102 | A row holds W pixels, all on that row. |
| Render.RowsLast | main.cpp:79-111 | The last pixel of rows [y0, y1) lies on row y1-1. |
| Render.GridIsStrictlyRowMajor | main.cpp:54-61 | The image is strictly ordered by the comparator, so its places are pairwise distinct. |
| Render.EscapeFromIgnoresSharing | main.cpp:19-21 | The escape count does not depend on the thread count or the granularity level. |
| Render.EscapeTimeIgnoresSharing | main.cpp:19-21 | The same holds for every pixel. |
| Render.RowsIgnoreSharing | main.cpp:19-21 | Any range of rows is the same whatever the thread count and granularity level. |
| Render.GridIgnoresSharing | main.cpp:19-21 | The image is the same whatever the thread count and granularity level, so one thread renders what many render. |
| Ppm.DigitChar | main.cpp:175 | A digit's character is a decimal digit with that value. |
| Ppm.DigitValue | main.cpp:175 | A digit character's value is below 10, and converts back to the character. |
| Ppm.NatToString | main.cpp:175 | A non-negative int prints as a non-empty string of digits with no leading zero. |
| Ppm.ParseNatToString | main.cpp:175 | Reading a printed number back gives the number. |
| Ppm.ParseNatPositive | main.cpp:175 | A digit string not starting with 0 has a positive value. |
| Ppm.NatToStringParseNat | main.cpp:175 | Every canonical numeral is the printing of its value, so printing is a bijection onto canonical numerals. |
| Ppm.IntToString | main.cpp:179 | An int prints as digits, with a leading minus exactly when it is negative. |
| Ppm.ParseIntToString | main.cpp:179 | Reading a printed int back gives the int. |
| Ppm.CountAppend | main.cpp:178-186 | Occurrence counts add up over concatenation. |
| Ppm.CountAbsent | main.cpp:178-186 | A character that never occurs has count 0. |
| Ppm.Triplet | main.cpp:179 | One pixel's text: red, green and blue, each printed as an int and followed by a space. |
| Ppm.TripletSeparators | main.cpp:179 | A pixel contributes exactly three space-terminated numbers and no line break. |
| Ppm.Body | main.cpp:178-186 | The pixels' text: each pixel's triplet, then a line break when a next pixel exists and lies on another row. |
| Ppm.BodySeparators | main.cpp:178-186 | The pixel text has exactly 3 spaces per pixel, and as many line breaks as there are consecutive pixel pairs on different rows. Where the breaks sit is stated by Ppm.BodyAppend and Ppm.BreakSeparators. |
| Ppm.BodyOfOneRow | main.cpp:178-186 | Pixels all on one row are written as one line of triplets. |
| Ppm.BodyAppend | main.cpp:178-186 | Two runs of pixels are written one after the other, separated by a line break only when they meet across a row change. |
| Ppm.BodyOfNextRow | main.cpp:178-187 | After written pixels, a run of pixels on one other row starts a new line of its triplets. |
| Ppm.BreakSeparators | main.cpp:181-185 | After a pixel the loop writes one line break exactly when the next pixel is on another row, and never a space. |
| Ppm.Header | main.cpp:174-176 | The header: "P3", then width and height separated by a space, then "256", each on its own line. |
| Ppm.PpmText | main.cpp:173-187 | The whole file: the header, the pixels' text and one final line break. |
| Ppm.HeaderLines | main.cpp:174-176 | The header starts with "P3", ends with "256" and has three line breaks. |
| Ppm.HeaderEnds | main.cpp:174-176 | The header starts with "P3" and ends with "256", each followed by a line break. |
| Ppm.HeaderBreaks | main.cpp:174-176 | The header has three line breaks. |
| Ppm.PpmLineBreaks | main.cpp:174-187 | The file's line breaks are the header's three, one per row change and the final one. Its spaces are the header's plus three per pixel. |
| Mandelbrot.BodyOfRows | main.cpp:178-187 | Rows [y0, y1) of a non-empty width are written as one line per row. |
| Mandelbrot.GridText | main.cpp:169-187 | A full image's file is the header followed by H lines, line y holding the W triplets of row y. |
| Mandelbrot.SortedCollectionIsGrid | main.cpp:169-187 | Sorting any collection holding exactly the image's pixels, in any order, and writing it gives the file of the image in row-major order. |
| Mandelbrot.RenderImage | main.cpp:117-190 | Partitioning, running threads 0..T-1 one after another, sorting and writing give the PPM text of the image in row-major order. With more threads than rows the text holds the header and one line break. That the result does not depend on the order of collection is Mandelbrot.SortedCollectionIsGrid. |

## Left out

- Threads, the mutex and `join` (main.cpp:47, 107-109, 146-160) are not modelled as concurrency. The workers run one after another, thread 0 first. That is one schedule the threaded program can take. Because the sort erases the collection order, every schedule that appends the same pixels gives the same file.
- Wall-clock timing and its console message (main.cpp:149-166) are left out: they are I/O.
- The output file stream (main.cpp:173, 188) is left out; the model renders the file's contents as a string.
- The coordinate mapping (main.cpp:64-72) and the complex `exp`/`pow` recurrence (main.cpp:81-94) are floating point. They are replaced by the predicate `Config.escapes(x, y, n)`: the n-th iterate of pixel (x, y)'s orbit has modulus above 2. The loop around it (main.cpp:86-97) is modelled exactly.
- Tasks.Granularity: the double-valued `ceil(double(H) / double(T) / double(G))` (main.cpp:21) is computed in exact integers as ceil(H / (T*G)). This assumes the two floating-point divisions round to the exact result, and that `g += granularity` adds an integral value.
- Pixels.SortPixels: `std::sort` (main.cpp:169) is introsort and is not stable. The model sorts by insertion and states only the result: sorted by `CustomSort` and a permutation. The order of incomparable pixels is not fixed by `std::sort`, and the model does not state it either. For the collections the program builds it does not matter, because no two pixels share a place (Pixels.OrderedPermutationIsUnique).
- Fixed-width `int` (32-bit) is modelled as unbounded `int`/`nat`. At the configured sizes (1920 x 1080, at most 255 iterations) nothing overflows. The configuration values are `nat`, since the program gives a negative thread count or height no meaning.
- Stream flushing by `std::endl` is not observable in the text and is modelled as a plain line break.

Two facts about the code that a reader might not expect. The model follows the code in both:

- The units cover `[0, imageHeight)` only when `numThreads <= imageHeight`. With more threads than rows, `imageHeight / numThreads` is 0, so no unit is built and the image file has no pixels (Tasks.BuildTasks, Mandelbrot.RenderImage).
- The pixels are sorted with `std::sort`, which is not stable. Since no two collected pixels share a place, a stable sort would give the same result.
